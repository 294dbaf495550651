/** The consumer's request bookkeeping: which sequence number to send next,
    the timeout container of Interests in flight, the retransmission queue
    of Interests presumed lost, and the handlers that move sequence numbers
    between them. Every operation is one atomic step over an immutable
    `State`; the mutex guarding the timeout container is therefore not
    modelled. */
module Consumer {
  import opened Types
  import SeqTimeouts
  import RetxSeqs

  /** `m_seqTimeouts`, `m_retxSeqs`, `m_seq` and `m_seqMax` (0 = no cap). */
  datatype State = State(
    timeouts: SeqTimeouts.Registry,
    retx: set<SeqNo>,
    nextSeq: SeqNo,
    seqMax: Uint32)

  /** A fresh sequence number and the counter value that follows it. */
  datatype Issue = Issue(seqNo: SeqNo, next: SeqNo)

  /** What one call of `SendPacket` did. */
  datatype SendResult =
    | Sent(next: State, seqNo: SeqNo, retransmission: bool)
    | Exhausted
    | DuplicateSeq(seqNo: SeqNo)

  /** The external inputs that drive the consumer: the pacing timer firing,
      the retransmission-check timer firing with the retransmission timeout
      then in force, a Data packet and a NACK, each for one seq. */
  datatype Event =
    | SendTimer(now: Time)
    | RetxTimer(now: Time, rto: Time)
    | Data(seqNo: SeqNo)
    | Nack(seqNo: SeqNo)

  /** The outcome of replaying events: the final state and the fresh seqs
      handed out on the way, in order. */
  datatype Replayed = Replayed(final: State, issued: seq<SeqNo>)

  // ---------------------------------------------------------------------
  // Invariant

  /** No seq is both waiting for its timeout and queued for resend, and
      every tracked seq was handed out before the counter's current value. */
  predicate Inv(c: State) {
    && SeqTimeouts.Valid(c.timeouts)
    && (forall s :: s in c.timeouts.bySeq ==> s !in c.retx && s < c.nextSeq)
    && (forall s :: s in c.retx ==> s < c.nextSeq)
  }

  /** The state right after start-up: nothing in flight, counting from 0. */
  function Initial(seqMax: Uint32): (c: State)
    ensures Inv(c)
    ensures forall s :: !SeqTimeouts.Contains(c.timeouts, s) && s !in c.retx
    ensures c.nextSeq == 0 && c.seqMax == seqMax
  {
    State(SeqTimeouts.Empty(), {}, 0, seqMax)
  }

  // ---------------------------------------------------------------------
  // Fresh sequence numbers

  /** Increment of a `uint32_t`, wrapping to 0 after the largest value. */
  function Inc32(x: Uint32): (y: Uint32)
    ensures x < UINT32_MAX ==> y == x + 1
    ensures x == UINT32_MAX ==> y == 0
  {
    (x + 1) % UINT32_LIMIT
  }

  /** Handing out `m_seq` as a fresh seq: refused once the cap is reached;
      otherwise the counter steps past the issued seq, which stays below the
      cap. Only without a cap can the 32-bit counter wrap. */
  function IssueFresh(nextSeq: SeqNo, seqMax: Uint32): (r: Option<Issue>)
    ensures r.None? ==> seqMax != 0 && seqMax <= nextSeq
    ensures r.Some? ==> r.value.seqNo == nextSeq
    ensures r.Some? && seqMax != 0 ==> r.value.seqNo < seqMax && r.value.next == r.value.seqNo + 1
    ensures r.Some? && r.value.seqNo < UINT32_MAX ==> r.value.next == r.value.seqNo + 1
    ensures r.Some? && r.value.seqNo == UINT32_MAX ==> seqMax == 0 && r.value.next == 0
  {
    if seqMax == 0 || nextSeq < seqMax then Some(Issue(nextSeq, Inc32(nextSeq)))
    else None
  }

  // ---------------------------------------------------------------------
  // Sending

  /** One send: a queued retransmission, smallest seq first, has priority
      over a fresh seq; with neither available nothing is sent. The chosen
      seq is registered with its send time `now`, and registering a seq that
      is still registered is the duplicate-seq error. */
  function SendPacket(c: State, now: Time): (res: SendResult)
    requires SeqTimeouts.Valid(c.timeouts)
    ensures res.Exhausted? <==> c.retx == {} && IssueFresh(c.nextSeq, c.seqMax).None?
    ensures !res.Exhausted? && c.retx != {} ==>
              res.seqNo in c.retx && forall x :: x in c.retx ==> res.seqNo <= x
    ensures !res.Exhausted? && c.retx == {} ==> res.seqNo == c.nextSeq
    ensures res.DuplicateSeq? ==> SeqTimeouts.Contains(c.timeouts, res.seqNo)
    ensures res.Sent? ==> !SeqTimeouts.Contains(c.timeouts, res.seqNo)
    ensures res.Sent? ==> (res.retransmission <==> c.retx != {})
    ensures res.Sent? ==> SeqTimeouts.Valid(res.next.timeouts)
    ensures res.Sent? ==> res.next.timeouts.bySeq == c.timeouts.bySeq[res.seqNo := now]
    ensures res.Sent? ==> res.next.retx == c.retx - {res.seqNo}
    ensures res.Sent? && res.retransmission ==> res.next.nextSeq == c.nextSeq
    ensures res.Sent? && !res.retransmission ==>
              IssueFresh(c.nextSeq, c.seqMax) == Some(Issue(res.seqNo, res.next.nextSeq))
    ensures res.Sent? ==> res.next.seqMax == c.seqMax
  {
    match Pick(c)
    case None => Exhausted
    case Some((Issue(s, next), retx')) =>
      var ins := SeqTimeouts.Insert(c.timeouts, s, now);
      if !ins.inserted then DuplicateSeq(s)
      else
        assert ins.reg.bySeq == c.timeouts.bySeq[s := now];
        Sent(State(ins.reg, retx', next, c.seqMax), s, c.retx != {})
  }

  /** The seq a send chooses, with the counter and the queue that follow:
      the first queued seq taken off the queue by `PopMin` if there is one,
      else a fresh seq. */
  function Pick(c: State): (r: Option<(Issue, set<SeqNo>)>)
    ensures c.retx != {} ==>
              && r.Some? && RetxSeqs.IsLeast(r.value.0.seqNo, c.retx)
              && r.value.0.next == c.nextSeq && r.value.1 == c.retx - {r.value.0.seqNo}
    ensures c.retx == {} ==>
              && (r.None? <==> IssueFresh(c.nextSeq, c.seqMax).None?)
              && (r.Some? ==> IssueFresh(c.nextSeq, c.seqMax) == Some(r.value.0) && r.value.1 == c.retx)
  {
    if c.retx != {} then
      var (s, rest) := RetxSeqs.PopMin(c.retx);
      Some((Issue(s, c.nextSeq), rest))
    else
      match IssueFresh(c.nextSeq, c.seqMax)
      case None => None
      case Some(i) => Some((i, c.retx))
  }

  // ---------------------------------------------------------------------
  // Timeout check

  /** `CheckRetxTimeout` as one step with the retransmission timeout `rto`
      in force: every registered seq sent at least `rto` ago (its send time
      plus `rto` is at most `now`) leaves the timeout container and joins
      the retransmission queue; later records, earlier queue entries and
      the counter stay as they were. */
  function CheckRetxTimeout(c: State, now: Time, rto: Time): (c': State)
    requires SeqTimeouts.Valid(c.timeouts)
    ensures SeqTimeouts.Valid(c'.timeouts)
    ensures forall s :: SeqTimeouts.Contains(c'.timeouts, s) <==>
                          SeqTimeouts.Contains(c.timeouts, s) && now < c.timeouts.bySeq[s] + rto
    ensures forall s :: s in c'.timeouts.bySeq ==> s in c.timeouts.bySeq && c'.timeouts.bySeq[s] == c.timeouts.bySeq[s]
    ensures forall s :: s in c'.retx <==>
                          s in c.retx || (s in c.timeouts.bySeq && c.timeouts.bySeq[s] + rto <= now)
    ensures c'.nextSeq == c.nextSeq && c'.seqMax == c.seqMax
  {
    MoveSentBy(c, Deadline(now, rto))
  }

  /** The latest send time whose Interest has timed out at `now` when the
      retransmission timeout is `rto`. */
  function Deadline(now: Time, rto: Time): Time {
    now - rto
  }

  /** Moving every record stamped at or before `cutoff` from the timeout
      container to the retransmission queue: the prefix of the time index
      up to `upper_bound(cutoff)`. */
  function MoveSentBy(c: State, cutoff: Time): (c': State)
    requires SeqTimeouts.Valid(c.timeouts)
    ensures SeqTimeouts.Valid(c'.timeouts)
    ensures forall s :: SeqTimeouts.Contains(c'.timeouts, s) <==>
                          SeqTimeouts.Contains(c.timeouts, s) && cutoff < c.timeouts.bySeq[s]
    ensures forall s :: s in c'.timeouts.bySeq ==> s in c.timeouts.bySeq && c'.timeouts.bySeq[s] == c.timeouts.bySeq[s]
    ensures forall s :: s in c'.retx <==>
                          s in c.retx || (s in c.timeouts.bySeq && c.timeouts.bySeq[s] <= cutoff)
    ensures c'.nextSeq == c.nextSeq && c'.seqMax == c.seqMax
  {
    var gone := SeqTimeouts.SeqsOf(SeqTimeouts.Expired(c.timeouts, cutoff));
    SeqTimeouts.ExpiredSeqs(c.timeouts, cutoff);
    State(SeqTimeouts.EraseExpired(c.timeouts, cutoff), c.retx + gone, c.nextSeq, c.seqMax)
  }

  /** After `n` rounds of the timeout-check loop: the first `n` records
      of the time index have been erased and their seqs queued. */
  predicate Drained(c: State, n: nat, reg: SeqTimeouts.Registry, retx: set<SeqNo>) {
    && n <= |c.timeouts.byTime|
    && reg == SeqTimeouts.DropFront(c.timeouts, n)
    && SeqTimeouts.Valid(reg)
    && retx == c.retx + SeqTimeouts.SeqsOf(c.timeouts.byTime[..n])
  }

  /** The timeout check run as a loop: it ends in the same state as the
      one-step `CheckRetxTimeout`. */
  method DrainExpired(c: State, now: Time, rto: Time) returns (c': State)
    requires SeqTimeouts.Valid(c.timeouts)
    ensures c' == CheckRetxTimeout(c, now, rto)
    ensures forall s :: s in c'.retx <==>
                          s in c.retx || (s in c.timeouts.bySeq && c.timeouts.bySeq[s] + rto <= now)
  {
    c' := DrainSentBy(c, Deadline(now, rto));
    CheckIsMove(c, now, rto);
  }

  /** The timeout check always moves the records stamped `rto` or more
      before `now`. */
  lemma CheckIsMove(c: State, now: Time, rto: Time)
    requires SeqTimeouts.Valid(c.timeouts)
    ensures CheckRetxTimeout(c, now, rto) == MoveSentBy(c, Deadline(now, rto))
  {
  }

  /** The move as a loop over the front of the time index: while the
      earliest record is stamped at or before `cutoff`, queue its seq and
      erase it. */
  method DrainSentBy(c: State, cutoff: Time) returns (c': State)
    requires SeqTimeouts.Valid(c.timeouts)
    ensures c' == MoveSentBy(c, cutoff)
  {
    var xs := c.timeouts.byTime;
    var k := |SeqTimeouts.Expired(c.timeouts, cutoff)|;
    var reg := c.timeouts;
    var retx := c.retx;
    var n := 0;
    DrainStart(c);
    while n < |xs| && xs[n].time <= cutoff
      invariant n <= k
      invariant Drained(c, n, reg, retx)
      decreases |xs| - n
    {
      var s := reg.byTime[0].seqNo;
      DrainStep(c, n);
      retx := RetxSeqs.Insert(retx, s);
      reg := SeqTimeouts.EraseBySeq(reg, s);
      n := n + 1;
    }
    DrainEnd(c, cutoff, n);
    c' := State(reg, retx, c.nextSeq, c.seqMax);
  }

  /** Before the first round nothing has been erased or queued. */
  lemma DrainStart(c: State)
    requires SeqTimeouts.Valid(c.timeouts)
    ensures Drained(c, 0, c.timeouts, c.retx)
  {
    assert c.timeouts.byTime[..0] == [];
    assert c.timeouts == SeqTimeouts.DropFront(c.timeouts, 0);
  }

  /** One round erases the earliest remaining record, which is record `n`
      of the original time index, and queues its seq. */
  lemma DrainStep(c: State, n: nat)
    requires n < |c.timeouts.byTime|
    requires SeqTimeouts.Valid(SeqTimeouts.DropFront(c.timeouts, n))
    ensures SeqTimeouts.DropFront(c.timeouts, n).byTime[0] == c.timeouts.byTime[n]
    ensures forall retx: set<SeqNo> ::
              retx == c.retx + SeqTimeouts.SeqsOf(c.timeouts.byTime[..n]) ==>
                Drained(c, n + 1,
                        SeqTimeouts.EraseBySeq(SeqTimeouts.DropFront(c.timeouts, n), c.timeouts.byTime[n].seqNo),
                        RetxSeqs.Insert(retx, c.timeouts.byTime[n].seqNo))
  {
    SeqTimeouts.SeqsOfSnoc(c.timeouts.byTime, n);
    SeqTimeouts.EraseFrontStep(c.timeouts, n);
  }

  /** The loop stops exactly after the expired prefix, and the state it
      has built is the one-step result. */
  lemma DrainEnd(c: State, cutoff: Time, n: nat)
    requires SeqTimeouts.Valid(c.timeouts)
    requires n <= |SeqTimeouts.Expired(c.timeouts, cutoff)|
    requires n == |c.timeouts.byTime| || cutoff < c.timeouts.byTime[n].time
    ensures n == |SeqTimeouts.Expired(c.timeouts, cutoff)|
    ensures forall reg, retx :: Drained(c, n, reg, retx) ==> State(reg, retx, c.nextSeq, c.seqMax) == MoveSentBy(c, cutoff)
  {
    SeqTimeouts.DropExpired(c.timeouts, cutoff);
  }

  // ---------------------------------------------------------------------
  // Replies

  /** `OnContentObject` for seq `s`: the seq leaves both the timeout
      container and the retransmission queue. The flag tells whether the
      seq was still registered, i.e. whether the reply yields a round-trip
      sample; a reply for a seq tracked nowhere changes nothing. */
  function OnContentObject(c: State, s: SeqNo): (res: (State, bool))
    requires SeqTimeouts.Valid(c.timeouts)
    ensures res.1 <==> SeqTimeouts.Contains(c.timeouts, s)
    ensures SeqTimeouts.Valid(res.0.timeouts)
    ensures !SeqTimeouts.Contains(res.0.timeouts, s) && s !in res.0.retx
    ensures forall q :: q != s ==>
              && (q in res.0.timeouts.bySeq <==> q in c.timeouts.bySeq)
              && (q in res.0.retx <==> q in c.retx)
    ensures forall q :: q in res.0.timeouts.bySeq ==> res.0.timeouts.bySeq[q] == c.timeouts.bySeq[q]
    ensures !SeqTimeouts.Contains(c.timeouts, s) && s !in c.retx ==> res.0 == c
    ensures res.0.nextSeq == c.nextSeq && res.0.seqMax == c.seqMax
  {
    var sampled := SeqTimeouts.Contains(c.timeouts, s);
    (State(SeqTimeouts.EraseBySeq(c.timeouts, s), RetxSeqs.Remove(c.retx, s), c.nextSeq, c.seqMax), sampled)
  }

  /** `OnNack` for seq `s`: a registered seq is queued for resend at once
      instead of waiting for its timeout; a NACK for an unregistered seq
      changes nothing. */
  function OnNack(c: State, s: SeqNo): (c': State)
    requires SeqTimeouts.Valid(c.timeouts)
    ensures SeqTimeouts.Valid(c'.timeouts)
    ensures SeqTimeouts.Contains(c.timeouts, s) ==>
              !SeqTimeouts.Contains(c'.timeouts, s) && s in c'.retx
    ensures !SeqTimeouts.Contains(c.timeouts, s) ==> c' == c
    ensures forall q :: q != s ==>
              && (q in c'.timeouts.bySeq <==> q in c.timeouts.bySeq)
              && (q in c'.retx <==> q in c.retx)
    ensures forall q :: q in c'.timeouts.bySeq ==> c'.timeouts.bySeq[q] == c.timeouts.bySeq[q]
    ensures c'.nextSeq == c.nextSeq && c'.seqMax == c.seqMax
  {
    if SeqTimeouts.Contains(c.timeouts, s) then
      State(SeqTimeouts.EraseBySeq(c.timeouts, s), RetxSeqs.Insert(c.retx, s), c.nextSeq, c.seqMax)
    else
      c
  }

  // ---------------------------------------------------------------------
  // Preservation of the invariant

  /** The counter can still step without wrapping: there is a cap, or it
      is below the largest `uint32_t`. */
  predicate NoWrap(c: State) {
    c.seqMax != 0 || c.nextSeq < UINT32_MAX
  }

  /** A send from a state satisfying the invariant never hits the
      duplicate-seq error, and it keeps the invariant unless the counter
      wraps. */
  lemma SendKeepsInv(c: State, now: Time)
    requires Inv(c)
    requires NoWrap(c)
    ensures !SendPacket(c, now).DuplicateSeq?
    ensures SendPacket(c, now).Sent? ==> Inv(SendPacket(c, now).next)
  {
    var res := SendPacket(c, now);
    if res.Sent? {
      var c' := res.next;
      assert c'.nextSeq >= c.nextSeq;
      assert res.seqNo < c'.nextSeq;
      forall s | s in c'.timeouts.bySeq
        ensures s !in c'.retx && s < c'.nextSeq
      {
        if s != res.seqNo {
          assert s in c.timeouts.bySeq;
        }
      }
    }
  }

  /** The timeout check keeps the invariant. */
  lemma CheckKeepsInv(c: State, now: Time, rto: Time)
    requires Inv(c)
    ensures Inv(CheckRetxTimeout(c, now, rto))
  {
    var c' := CheckRetxTimeout(c, now, rto);
    forall s | s in c'.timeouts.bySeq
      ensures s !in c'.retx
    {
      assert SeqTimeouts.Contains(c'.timeouts, s);
    }
  }

  /** A reply keeps the invariant. */
  lemma DataKeepsInv(c: State, s: SeqNo)
    requires Inv(c)
    ensures Inv(OnContentObject(c, s).0)
  {
  }

  /** A NACK keeps the invariant. */
  lemma NackKeepsInv(c: State, s: SeqNo)
    requires Inv(c)
    ensures Inv(OnNack(c, s))
  {
  }

  // ---------------------------------------------------------------------
  // Event sequences

  /** One event; `None` when a send hit the duplicate-seq error. The
      second component lists the fresh seq handed out, if any. */
  function Step(c: State, ev: Event): (r: Option<(State, seq<SeqNo>)>)
    requires SeqTimeouts.Valid(c.timeouts)
    ensures r.Some? ==> SeqTimeouts.Valid(r.value.0.timeouts) && r.value.0.seqMax == c.seqMax
    ensures r.Some? ==> |r.value.1| <= 1
  {
    match ev
    case SendTimer(now) =>
      (match SendPacket(c, now)
       case Sent(c', s, isRetx) => Some((c', if isRetx then [] else [s]))
       case Exhausted => Some((c, []))
       case DuplicateSeq(_) => None)
    case RetxTimer(now, rto) => Some((CheckRetxTimeout(c, now, rto), []))
    case Data(s) => Some((OnContentObject(c, s).0, []))
    case Nack(s) => Some((OnNack(c, s), []))
  }

  /** Replays events in order; `None` when some send hit the duplicate-seq
      error. */
  function Replay(c: State, evs: seq<Event>): (r: Option<Replayed>)
    requires SeqTimeouts.Valid(c.timeouts)
    decreases |evs|
  {
    if |evs| == 0 then Some(Replayed(c, []))
    else
      match Step(c, evs[0])
      case None => None
      case Some((c1, out)) =>
        match Replay(c1, evs[1..])
        case None => None
        case Some(rest) => Some(Replayed(rest.final, out + rest.issued))
  }

  /** A single event keeps the invariant, never hits the duplicate-seq
      error, and hands out at most the counter's current value, moving the
      counter just past it. */
  lemma {:induction false} StepSafe(c: State, ev: Event)
    requires Inv(c)
    requires NoWrap(c)
    ensures Step(c, ev).Some?
    ensures Inv(Step(c, ev).value.0)
    ensures var (c', out) := Step(c, ev).value;
            && (|out| == 0 ==> c'.nextSeq == c.nextSeq)
            && (|out| == 1 ==> out[0] == c.nextSeq && c'.nextSeq == c.nextSeq + 1
                               && (c.seqMax != 0 ==> out[0] < c.seqMax))
  {
    match ev
    case SendTimer(now) => SendKeepsInv(c, now);
    case RetxTimer(now, rto) => CheckKeepsInv(c, now, rto);
    case Data(s) => DataKeepsInv(c, s);
    case Nack(s) => NackKeepsInv(c, s);
  }

  /** `xs` is strictly increasing and lies in `[lo, hi)`. */
  predicate IncreasingWithin(xs: seq<SeqNo>, lo: int, hi: int) {
    && (forall i, j :: 0 <= i < j < |xs| ==> xs[i] < xs[j])
    && (forall i :: 0 <= i < |xs| ==> lo <= xs[i] < hi)
  }

  /** `xs` counts up by one from `lo`, skipping nothing. */
  predicate CountsFrom(xs: seq<SeqNo>, lo: int) {
    forall i :: 0 <= i < |xs| ==> xs[i] == lo + i
  }

  /** Every element of `xs` is below the cap, if there is one. */
  predicate BelowCap(xs: seq<SeqNo>, seqMax: Uint32) {
    seqMax != 0 ==> forall i :: 0 <= i < |xs| ==> xs[i] < seqMax
  }

  /** Prepending what one step handed out to what the later steps handed
      out keeps the seqs increasing, consecutive and below the cap. */
  lemma PrependIssued(out: seq<SeqNo>, rest: seq<SeqNo>, lo: int, mid: int, hi: int, seqMax: Uint32)
    requires (|out| == 0 && mid == lo) || (|out| == 1 && out[0] == lo && mid == lo + 1)
    requires IncreasingWithin(rest, mid, hi) && mid <= hi
    requires |rest| == hi - mid && CountsFrom(rest, mid)
    requires BelowCap(out, seqMax) && BelowCap(rest, seqMax)
    ensures IncreasingWithin(out + rest, lo, hi)
    ensures |out + rest| == hi - lo && CountsFrom(out + rest, lo)
    ensures BelowCap(out + rest, seqMax)
  {
    var xs := out + rest;
    assert forall i :: |out| <= i < |xs| ==> xs[i] == rest[i - |out|];
  }

  /** Over any run of events that cannot wrap the counter, no send hits
      the duplicate-seq error, the invariant holds throughout, and the fresh
      seqs handed out are exactly the counter's values from its start up to
      its end, in order and without gaps, and stay below the cap when there
      is one. */
  lemma {:induction false} ReplaySafe(c: State, evs: seq<Event>)
    requires Inv(c)
    requires c.seqMax != 0 || c.nextSeq + |evs| <= UINT32_MAX
    ensures Replay(c, evs).Some?
    ensures var r := Replay(c, evs).value;
            && Inv(r.final)
            && c.nextSeq <= r.final.nextSeq <= c.nextSeq + |evs|
            && IncreasingWithin(r.issued, c.nextSeq, r.final.nextSeq)
            && |r.issued| == r.final.nextSeq - c.nextSeq
            && CountsFrom(r.issued, c.nextSeq)
            && BelowCap(r.issued, c.seqMax)
            && r.final.seqMax == c.seqMax
    decreases |evs|
  {
    if |evs| > 0 {
      StepSafe(c, evs[0]);
      var st := Step(c, evs[0]).value;
      ReplaySafe(st.0, evs[1..]);
      var rest := Replay(st.0, evs[1..]).value;
      assert Replay(c, evs) == Some(Replayed(rest.final, st.1 + rest.issued));
      PrependIssued(st.1, rest.issued, c.nextSeq, st.0.nextSeq, rest.final.nextSeq, c.seqMax);
    }
  }
}
