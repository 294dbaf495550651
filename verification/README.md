# CCNx consumer bookkeeping in Dafny

This project models the request bookkeeping of the ns-3 CCNx consumer
application (`CcnxConsumer`, declared in `apps/ccnx-consumer.h`). The
consumer sends Interests numbered by a 32-bit sequence counter and tracks
each one in two containers:

- `m_seqTimeouts` (`SeqTimeoutsContainer`) is a boost multi-index container
  of `SeqTimeout { seq, time }` records. It has an `ordered_unique` index on
  the seq and an `ordered_non_unique` index on the time.
- `m_retxSeqs` (`RetxSeqsContainer`) is a `std::set<uint32_t>` of seqs
  waiting to be sent again.

Four handlers move seqs between the containers. `SendPacket` registers a
seq, taking the smallest queued retransmission first and otherwise the next
fresh seq from `m_seq`, which is capped by `m_seqMax`. `CheckRetxTimeout`
moves every record whose Interest has gone unanswered for the
retransmission timeout into the retransmission queue. `OnContentObject`
retires a seq that has been answered. `OnNack` queues a NACKed seq at once.

Modules:

- `Types` (`types.dfy`) holds `uint32_t` as a subset of `int`, the
  `SeqTimeout` record and `Option`.
- `SeqTimeouts` (`seq_timeouts.dfy`) models the dual-index container as a
  `Registry`. It is a map from seq to time (the seq index) together with a
  sequence of records in time order (the time index). `Valid` ties the two
  together: the time index is in non-decreasing time order, it holds each
  seq once, and both indexes hold the same records. The operations are
  insert, erase by seq, lookup, the prefix of the time index up to a
  deadline, and erasing that prefix.
- `RetxSeqs` (`retx_seqs.dfy`) models the ordered set: its least element,
  its ascending enumeration, insert, erase, and taking the first element.
- `Consumer` (`consumer.dfy`) holds the consumer state, the fresh-seq
  counter with its cap and 32-bit wrap-around, and the four handlers as
  pure state transitions. It also proves an invariant that every handler
  keeps while the counter cannot wrap: no seq is both registered and
  queued, and every tracked seq is below the counter. Over any event
  sequence that cannot wrap the counter, a replay is proved safe, and the
  fresh seqs it hands out are the counter's values in order, without
  gaps, and below the cap.
- `Scenarios` (`scenarios.dfy`) proves concrete runs:
  - retransmissions are sent before fresh seqs;
  - the scan of the time index on two records;
  - the timeout check under two different timeouts;
  - a NACK that queues a seq before its timeout;
  - two records sharing one timestamp.

Only the class declaration is part of this model; `ccnx-consumer.cc`, which
holds the handler bodies, is not. The handlers are modelled as the container
operations that their names and the declared containers imply. The
`time` of a record is the instant its Interest was sent, the key of the
`i_timestamp` index. The consumer keeps a single current retransmission
timeout `m_rto`, so the timeout check at `now` applies the timeout `rto` in force
at that moment to every record: a record has timed out when
`time + rto <= now`, that is, when `time` is at most the deadline
`now - rto`. A change of the timeout between a send and the timeout check
therefore affects records already registered.

Ties on the time index follow the declaration. The declared
`ordered_non_unique` index keeps records with equal keys in insertion
order, and a new record goes after the existing ones with the same time.
Ordering ties by seq would be a different container. `SeqTimeouts.Insert`
follows the declaration, and `Scenarios.SharedExpiry` states the
consequence.

## Model

| member | source | states |
|---|---|---|
| SeqTimeouts.Empty | apps/ccnx-consumer.h:163 | The container starts empty: it satisfies the dual-index invariant and holds no seq. |
| SeqTimeouts.ViewsAgree | apps/ccnx-consumer.h:148-161 | Both indexes range over the same records. A seq is found through the seq index exactly when some record of the time index carries it, and that record's time is the one the seq index holds. |
| SeqTimeouts.UpperBound | apps/ccnx-consumer.h:156-159 | `upper_bound(t)` on the time index: every record before the position is stamped at or before `t`, and every record from it on is later. |
| SeqTimeouts.Contains | apps/ccnx-consumer.h:152-155 | Lookup through the `i_seq` index, `find(s) != end()`: a seq is present exactly when the seq index has a key for it. `SeqTimeouts.ViewsAgree` proves that this agrees with the time index. |
| SeqTimeouts.FindSeq | apps/ccnx-consumer.h:152-155 | The search for a seq returns the first position holding it, or the end when no record has it. |
| SeqTimeouts.Insert | apps/ccnx-consumer.h:148-161 | A unique-index insert. It fails exactly when the seq is already present, and then the container is unchanged. Otherwise the seq is added with its time, the other records keep their times, and the invariant holds afterwards. |
| SeqTimeouts.InsertPlacement | apps/ccnx-consumer.h:156-159 | A new record goes into the non-unique time index after every record stamped no later and before every later one. The other records keep their order. |
| SeqTimeouts.UpperBoundAfterSplice | apps/ccnx-consumer.h:156-159 | A record spliced at the upper bound of its time keeps the time index ordered and moves that upper bound one step further. |
| SeqTimeouts.EraseBySeq | apps/ccnx-consumer.h:148-163 | Erasing by seq removes the seq from both indexes and leaves every other seq with its time. The invariant holds afterwards. Erasing an absent seq changes nothing. |
| SeqTimeouts.EraseCut | apps/ccnx-consumer.h:148-161 | Erasing a present seq cuts exactly its one record out of the time index, leaving the other records in order. |
| SeqTimeouts.Expired | apps/ccnx-consumer.h:156-159 | The scan up to a deadline is a prefix of the time index in non-decreasing time order. Everything in it is stamped at or before the deadline, everything after it is later, and a seq is in it exactly when its time is at most the deadline. |
| SeqTimeouts.ExpiredSeqs | apps/ccnx-consumer.h:156-159 | The seqs of the scanned prefix are exactly the keys of the seq index whose time is at most the deadline. |
| SeqTimeouts.EraseExpired | apps/ccnx-consumer.h:156-163 | Erasing the range up to the deadline keeps the invariant. It removes exactly the seqs stamped at or before the deadline, keeps the later ones with their times, and leaves the time index's suffix after the scanned prefix. |
| SeqTimeouts.EraseFrontStep | apps/ccnx-consumer.h:156-159 | Erasing, by seq, the earliest remaining record drops exactly one more record from the front of the time index. |
| SeqTimeouts.DropExpired | apps/ccnx-consumer.h:156-159 | Erasing the scanned prefix record by record gives the same container as erasing the range up to the deadline at once. |
| SeqTimeouts.EraseIdempotent | apps/ccnx-consumer.h:152-155 | Erasing a seq twice is the same as erasing it once. |
| SeqTimeouts.EraseUndoesInsert | apps/ccnx-consumer.h:148-161 | Inserting an absent seq succeeds, and erasing it again gives back the original container, time order included. |
| RetxSeqs.LeastExists | apps/ccnx-consumer.h:132-133 | Every nonempty set of seqs has a least element. |
| RetxSeqs.Min | apps/ccnx-consumer.h:132-135 | `*begin()` of the ordered set is a member and is at most every member. |
| RetxSeqs.Ascending | apps/ccnx-consumer.h:132-135 | The set's iteration order is strictly ascending. It enumerates exactly the members, each once. |
| RetxSeqs.Insert | apps/ccnx-consumer.h:132-133 | `insert(s)` makes `s` a member and leaves the other members alone. Inserting a member again changes nothing. |
| RetxSeqs.Remove | apps/ccnx-consumer.h:132-133 | `erase(s)` makes `s` a non-member and leaves the other members alone. Erasing a non-member changes nothing. |
| RetxSeqs.PopMin | apps/ccnx-consumer.h:132-135 | Taking the first element yields the smallest member and leaves exactly the others. Re-inserting it restores the set. |
| RetxSeqs.PopMinEnumerates | apps/ccnx-consumer.h:132-135 | The element taken is the head of the set's iteration order, and the rest iterates as the tail. |
| RetxSeqs.FirstIsMin | apps/ccnx-consumer.h:132-135 | The enumeration starts at the smallest pending seq. |
| RetxSeqs.InsertRemoveInverse | apps/ccnx-consumer.h:132-133 | Insert then erase of a non-member restores the set, and erase then insert of a member restores it. |
| RetxSeqs.InsertCount | apps/ccnx-consumer.h:132-133 | A set holds each seq at most once: inserting grows the enumeration by one exactly when the seq was not a member. |
| Consumer.Initial | apps/ccnx-consumer.h:114-135 | The start state tracks nothing, satisfies the invariant, counts from 0 and keeps the configured cap. |
| Consumer.Inc32 | apps/ccnx-consumer.h:114 | Incrementing the `uint32_t` counter adds one, and wraps to 0 after the largest value. |
| Consumer.IssueFresh | apps/ccnx-consumer.h:114-115 | A fresh seq is the counter's value. With a cap it is issued only below the cap, and the counter then moves one past it. Without a cap (`m_seqMax` 0) it is always issued, and only then can the counter wrap. |
| Consumer.Pick | apps/ccnx-consumer.h:114-135 | The seq a send uses: with a nonempty queue, the smallest queued seq, taken off the queue, with the counter unchanged; with an empty queue, the fresh seq `IssueFresh` hands out, if any, with the queue unchanged. |
| Consumer.SendPacket | apps/ccnx-consumer.h:89-90 | A send takes the smallest queued retransmission if there is one, taken off the front of the ordered set, else a fresh seq, else nothing. The seq is registered with its send time `now` and leaves the queue. Registering a seq already in the container is the duplicate-seq error. |
| Consumer.CheckRetxTimeout | apps/ccnx-consumer.h:92-93 | The timeout check at `now`, with the timeout `rto` then in force, removes exactly the records with `time + rto <= now` from the container and adds their seqs to the queue. Records sent later keep their send times, earlier queue entries stay, and the counter is unchanged. |
| Consumer.MoveSentBy | apps/ccnx-consumer.h:146-161 | Moving the records stamped at or before a deadline: exactly those seqs leave the container and join the queue, the others keep their send times, and the counter is unchanged. |
| Consumer.DrainSentBy | apps/ccnx-consumer.h:156-159 | A loop that erases the earliest record of the time index while it is stamped at or before the deadline, queueing its seq, ends in the same state as moving the whole prefix at once. |
| Consumer.DrainExpired | apps/ccnx-consumer.h:92-93 | The timeout check run as that loop with deadline `now - rto` ends in the same state as the one-step check, and queues exactly the seqs with `time + rto <= now`. |
| Consumer.OnContentObject | apps/ccnx-consumer.h:57-59 | A reply removes its seq from both containers and changes nothing else. It reports a round-trip sample exactly when the seq was registered. A reply for an untracked seq changes nothing. |
| Consumer.OnNack | apps/ccnx-consumer.h:54-55 | A NACK for a registered seq moves it from the timeout container to the queue at once. Every other seq is untouched, and a NACK for an unregistered seq changes nothing. |
| Consumer.SendKeepsInv | apps/ccnx-consumer.h:89-90 | While the counter cannot wrap, a send from a consistent state never hits the duplicate-seq error, and it keeps the invariant. |
| Consumer.CheckKeepsInv | apps/ccnx-consumer.h:92-93 | The timeout check keeps the invariant. |
| Consumer.DataKeepsInv | apps/ccnx-consumer.h:57-59 | A reply keeps the invariant. |
| Consumer.NackKeepsInv | apps/ccnx-consumer.h:54-55 | A NACK keeps the invariant. |
| Consumer.Step | apps/ccnx-consumer.h:54-93 | One event keeps the dual-index invariant and the cap, and hands out at most one fresh seq. |
| Consumer.StepSafe | apps/ccnx-consumer.h:114-115 | One event from a consistent state without wrap succeeds and keeps the invariant. If it hands out a fresh seq, that seq is the counter's value and below the cap, and the counter steps by one. Otherwise the counter is unchanged. |
| Consumer.ReplaySafe | apps/ccnx-consumer.h:114-115 | Over any event sequence that cannot wrap the counter, no send hits the duplicate-seq error and the invariant holds at the end. The fresh seqs handed out are exactly the counter's values from its start to its end, in order and with none skipped, so they are strictly increasing, and they stay below the cap. |
| Scenarios.RetransmissionsFirst | apps/ccnx-consumer.h:132-135 | With queue {a, b} where a < b, and the counter above both and below the cap, three sends emit a, then b, then the counter's value, which then steps by one. |
| Scenarios.ExpiryScan | apps/ccnx-consumer.h:156-159 | With seq 5 stamped t+100 and seq 6 stamped t+50, the scan of the time index up to t+60 reaches only seq 6, and erasing it leaves seq 5 registered. |
| Scenarios.TimeoutInForce | apps/ccnx-consumer.h:117-120 | Seqs sent at 0 and 10 are checked at 50. With timeout 20 in force both are queued and nothing stays registered. With timeout 45 only seq 0 is queued, and seq 1 stays registered with its send time 10. |
| Scenarios.NackRequeues | apps/ccnx-consumer.h:54-55 | After a NACK for seq 4, the next send retransmits 4 long before its timeout. |
| Scenarios.SharedExpiry | apps/ccnx-consumer.h:156-159 | Two seqs inserted with the same timestamp are both registered and adjacent in the time index, the first-inserted one first. |

## Left out

- Handler bodies: `ccnx-consumer.cc` is not part of this model. `SendPacket`, `CheckRetxTimeout`, `OnContentObject` and `OnNack` are modelled as the container operations their names and the declared containers imply. Packet construction and the face send are not modelled.
- The `SeqTimeout` constructor is the datatype constructor `Types.SeqTimeout`. Its fields are the given seq and time by definition, so no separate member states this.
- Tie order on the time index: records with equal times are kept in insertion order, as the declared `ordered_non_unique` index does. A tie-break by seq is not modelled.
- `m_seqTimeoutsGuard` and any interleaving of the send path with the timer path: every operation is one atomic step.
- RTO estimation (`m_rto`, `m_rttVar`, `m_sRtt`): the update rule's body is not part of this model. The timeout in force is an input to each timeout check, and `OnContentObject` only reports whether a round-trip sample would be taken.
- Pacing and nonces (`ExponentialVariable`, `UniformVariable`, `DataRate`, payload size): these are randomness and floating point.
- Interest names, selectors and exclude filters, the `m_transmittedInterests` trace sink, and the `StartApplication` / `StopApplication` lifecycle with its timers: these are external types and scheduling. Timer firings are the `SendTimer` / `RetxTimer` events instead.
- `Time` is an unbounded integer tick count, so the 64-bit range of ns-3 `Time` is not modelled.
- `m_seqMax` 0 as "no cap": the declaration says only that it is the maximum sequence number. The model reads 0 as unlimited, which is an interpretation, since the handler bodies are not part of this model.
- Consumer.Initial: the counter is assumed to start at 0; the constructor body is not part of this model.
- Consumer.SendKeepsInv: requires that the counter cannot wrap (a cap is set, or the counter is below the largest `uint32_t`). `IssueFresh` does model the wrap, and after it the counter is no longer above every tracked seq.
- Consumer.SendPacket: a refused insert into the timeout container is modelled as a fatal duplicate-seq error, and `Step` then ends the run. The declared container's `insert` only reports the refusal, so a send that carried on would still send the Interest, take the seq off the queue, advance `m_seq` for a fresh seq and leave the old timestamp registered. That case is not modelled; `SendKeepsInv` proves it cannot arise from a consistent state while the counter cannot wrap.
- Consumer.ReplaySafe: requires a cap, or room for one fresh seq per event below the largest `uint32_t`, for the same reason.
- Consumer.OnNack: a NACK for a seq that is not registered is ignored. The handler body is not part of this model, so this policy is an assumption of the model.
