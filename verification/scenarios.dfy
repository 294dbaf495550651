/** Concrete runs of the consumer's bookkeeping: retransmissions before
    fresh seqs, the scan of the time index on two records, the timeout
    check with the timeout in force, a NACK that queues a seq before its
    timeout, and two records sharing one timestamp. */
module Scenarios {
  import opened Types
  import SeqTimeouts
  import Consumer

  /** Queue {a, b} with a < b, counter n above both and below the cap:
      three sends emit a, then b, then the fresh seq n. */
  lemma RetransmissionsFirst(a: SeqNo, b: SeqNo, n: SeqNo, cap: Uint32, now: Time)
    requires a < b < n < cap
    ensures var c0 := Consumer.State(SeqTimeouts.Empty(), {a, b}, n, cap);
            var r1 := Consumer.SendPacket(c0, now);
            && r1.Sent? && r1.seqNo == a && r1.retransmission
            && var r2 := Consumer.SendPacket(r1.next, now);
            && r2.Sent? && r2.seqNo == b && r2.retransmission
            && var r3 := Consumer.SendPacket(r2.next, now);
            && r3.Sent? && r3.seqNo == n && !r3.retransmission && r3.next.nextSeq == n + 1
  {
    var c0 := Consumer.State(SeqTimeouts.Empty(), {a, b}, n, cap);
    var r1 := Consumer.SendPacket(c0, now);
    SendSmallest(c0, now, a, b);
    var r2 := Consumer.SendPacket(r1.next, now);
    SendLast(r1.next, now, b);
    SendFresh(r2.next, now, a, b);
  }

  /** With two seqs `a < b` queued, a send retransmits `a` and leaves `b`
      queued. */
  lemma SendSmallest(c: Consumer.State, now: Time, a: SeqNo, b: SeqNo)
    requires SeqTimeouts.Valid(c.timeouts) && c.timeouts.bySeq == map[]
    requires c.retx == {a, b} && a < b
    ensures var r := Consumer.SendPacket(c, now);
            && r.Sent? && r.seqNo == a && r.retransmission && r.next.retx == {b}
            && r.next.nextSeq == c.nextSeq && r.next.seqMax == c.seqMax
            && r.next.timeouts.bySeq.Keys == {a}
  {
    var r := Consumer.SendPacket(c, now);
    assert a in c.retx && b in c.retx;
    assert r.next.timeouts.bySeq.Keys == {a};
  }

  /** With one seq queued, a send retransmits it and empties the queue. */
  lemma SendLast(c: Consumer.State, now: Time, b: SeqNo)
    requires SeqTimeouts.Valid(c.timeouts) && b !in c.timeouts.bySeq
    requires c.retx == {b}
    ensures var r := Consumer.SendPacket(c, now);
            && r.Sent? && r.seqNo == b && r.retransmission && r.next.retx == {}
            && r.next.nextSeq == c.nextSeq && r.next.seqMax == c.seqMax
            && r.next.timeouts.bySeq.Keys == c.timeouts.bySeq.Keys + {b}
  {
    var r := Consumer.SendPacket(c, now);
    assert r.next.timeouts.bySeq.Keys == c.timeouts.bySeq.Keys + {b};
  }

  /** With the queue empty, only seqs `a` and `b` registered and the
      counter above both and below the cap, a send issues the counter's
      value. */
  lemma SendFresh(c: Consumer.State, now: Time, a: SeqNo, b: SeqNo)
    requires SeqTimeouts.Valid(c.timeouts) && c.timeouts.bySeq.Keys == {a, b}
    requires c.retx == {} && a < c.nextSeq && b < c.nextSeq < c.seqMax
    ensures var r := Consumer.SendPacket(c, now);
            && r.Sent? && r.seqNo == c.nextSeq && !r.retransmission && r.next.nextSeq == c.nextSeq + 1
  {
    assert !SeqTimeouts.Contains(c.timeouts, c.nextSeq);
  }

  /** The container holding seq 5 stamped t + 100. */
  function Five(t: Time): SeqTimeouts.Registry {
    SeqTimeouts.Registry(map[5 := t + 100], [SeqTimeout(5, t + 100)])
  }

  /** The container holding seq 5 stamped t + 100 and seq 6 stamped
      t + 50. */
  function FiveSix(t: Time): SeqTimeouts.Registry {
    SeqTimeouts.Registry(map[5 := t + 100, 6 := t + 50],
                         [SeqTimeout(6, t + 50), SeqTimeout(5, t + 100)])
  }

  /** Inserting seq 5 into the empty container. */
  lemma InsertFive(t: Time)
    ensures SeqTimeouts.Insert(SeqTimeouts.Empty(), 5, t + 100).reg == Five(t)
  {
    assert SeqTimeouts.UpperBound([], t + 100) == 0;
  }

  /** Inserting seq 6, which has the earlier stamp, puts it in front of
      seq 5. */
  lemma InsertSix(t: Time)
    ensures SeqTimeouts.Valid(Five(t))
    ensures SeqTimeouts.Insert(Five(t), 6, t + 50).reg == FiveSix(t)
    ensures SeqTimeouts.Valid(FiveSix(t))
  {
    InsertFive(t);
    var r1 := Five(t);
    assert SeqTimeouts.UpperBound(r1.byTime, t + 50) == 0;
    var xs := r1.byTime[..0] + [SeqTimeout(6, t + 50)] + r1.byTime[0..];
    assert xs == FiveSix(t).byTime;
  }

  /** Seq 5 stamped t + 100 and seq 6 stamped t + 50: the scan up to
      t + 60 yields only seq 6; erasing 6 leaves 5 registered. */
  lemma ExpiryScan(t: Time)
    ensures var r := SeqTimeouts.Insert(SeqTimeouts.Insert(SeqTimeouts.Empty(), 5, t + 100).reg, 6, t + 50).reg;
            && SeqTimeouts.Expired(r, t + 60) == [SeqTimeout(6, t + 50)]
            && var r' := SeqTimeouts.EraseBySeq(r, 6);
            && SeqTimeouts.Contains(r', 5) && !SeqTimeouts.Contains(r', 6)
  {
    InsertFive(t);
    InsertSix(t);
    ScanFiveSix(t);
    EraseSix(t);
  }

  /** Up to t + 60 the scan reaches only the record of seq 6. */
  lemma ScanFiveSix(t: Time)
    ensures SeqTimeouts.Expired(FiveSix(t), t + 60) == [SeqTimeout(6, t + 50)]
  {
    InsertSix(t);
    assert SeqTimeouts.UpperBound(FiveSix(t).byTime, t + 60) == 1;
  }

  /** Erasing seq 6 leaves exactly the record of seq 5. */
  lemma EraseSix(t: Time)
    ensures SeqTimeouts.EraseBySeq(FiveSix(t), 6) == Five(t)
  {
    InsertSix(t);
    var r := FiveSix(t);
    SeqTimeouts.EraseHead(r);
    assert r.byTime[0].seqNo == 6;
    assert SeqTimeouts.EraseBySeq(r, 6) == SeqTimeouts.Registry(r.bySeq - {6}, r.byTime[1..]);
    DropSix(t + 100, t + 50);
    assert r.byTime[1..] == Five(t).byTime;
  }

  /** Removing key 6 from the two-key map leaves key 5 alone. */
  lemma DropSix(a: Time, b: Time)
    ensures map[5 := a, 6 := b] - {6} == map[5 := a]
  {
    var m: map<SeqNo, Time> := map[5 := a, 6 := b] - {6};
    assert m.Keys == {5};
  }

  /** Seq 4 sent at t; a NACK for it moves it to the queue at once, so the
      send at t + 10 retransmits it without waiting for a timeout check. */
  lemma NackRequeues(t: Time)
    ensures var c := Consumer.State(SeqTimeouts.Insert(SeqTimeouts.Empty(), 4, t).reg, {}, 5, 0);
            var c' := Consumer.OnNack(c, 4);
            && !SeqTimeouts.Contains(c'.timeouts, 4) && 4 in c'.retx
            && var r := Consumer.SendPacket(c', t + 10);
            && r.Sent? && r.seqNo == 4 && r.retransmission
  {
    var c := Consumer.State(SeqTimeouts.Insert(SeqTimeouts.Empty(), 4, t).reg, {}, 5, 0);
    var c' := Consumer.OnNack(c, 4);
    assert c'.retx == {4};
    assert c'.timeouts.bySeq == map[];
  }

  /** Seq 0 sent at 0 and seq 1 at 10, then the timeout check at 50. With
      the timeout then in force at 20 both are queued; at 45 only seq 0
      is, and seq 1 stays registered with its send time. */
  lemma TimeoutInForce()
    ensures var c := SentTwice();
            && var c20 := Consumer.CheckRetxTimeout(c, 50, 20);
            && c20.retx == {0, 1} && c20.timeouts.bySeq == map[]
            && var c45 := Consumer.CheckRetxTimeout(c, 50, 45);
            && c45.retx == {0} && c45.timeouts.bySeq == map[1 := 10]
  {
    SentTwiceState();
    CheckBoth(SentTwice());
    CheckFirst(SentTwice());
  }

  /** With timeout 20 in force at 50, seqs sent at 0 and 10 have both
      timed out. */
  lemma CheckBoth(c: Consumer.State)
    requires SeqTimeouts.Valid(c.timeouts)
    requires c.timeouts.bySeq == map[0 := 0, 1 := 10] && c.retx == {}
    ensures Consumer.CheckRetxTimeout(c, 50, 20).retx == {0, 1}
    ensures Consumer.CheckRetxTimeout(c, 50, 20).timeouts.bySeq == map[]
  {
    var c' := Consumer.CheckRetxTimeout(c, 50, 20);
    KeptAt50(c.timeouts.bySeq, c'.timeouts.bySeq, 20);
    QueuedAt50(c.timeouts.bySeq, c'.retx, 20);
  }

  /** With timeout 45 in force at 50, only the seq sent at 0 has timed
      out; the one sent at 10 stays registered with its send time. */
  lemma CheckFirst(c: Consumer.State)
    requires SeqTimeouts.Valid(c.timeouts)
    requires c.timeouts.bySeq == map[0 := 0, 1 := 10] && c.retx == {}
    ensures Consumer.CheckRetxTimeout(c, 50, 45).retx == {0}
    ensures Consumer.CheckRetxTimeout(c, 50, 45).timeouts.bySeq == map[1 := 10]
  {
    var c' := Consumer.CheckRetxTimeout(c, 50, 45);
    KeptAt50(c.timeouts.bySeq, c'.timeouts.bySeq, 45);
    QueuedAt50(c.timeouts.bySeq, c'.retx, 45);
  }

  /** The registrations a check at 50 keeps out of sends at 0 and 10. */
  lemma KeptAt50(m: map<SeqNo, Time>, m': map<SeqNo, Time>, rto: Time)
    requires m == map[0 := 0, 1 := 10]
    requires forall s :: s in m' <==> s in m && 50 < m[s] + rto
    requires forall s :: s in m' ==> s in m && m'[s] == m[s]
    ensures rto == 20 ==> m' == map[]
    ensures rto == 45 ==> m' == map[1 := 10]
  {
    if rto == 20 {
      assert m'.Keys == {};
    } else if rto == 45 {
      assert m'.Keys == {1};
    }
  }

  /** The seqs a check at 50 queues for retransmission out of sends at 0
      and 10, starting from an empty queue. */
  lemma QueuedAt50(m: map<SeqNo, Time>, retx': set<SeqNo>, rto: Time)
    requires m == map[0 := 0, 1 := 10]
    requires forall s :: s in retx' <==> s in m && m[s] + rto <= 50
    ensures rto == 20 ==> retx' == {0, 1}
    ensures rto == 45 ==> retx' == {0}
  {
    if rto == 20 {
      assert forall q :: q in retx' <==> q == 0 || q == 1;
    } else if rto == 45 {
      assert forall q :: q in retx' <==> q == 0;
    }
  }

  /** The state after two sends from the start state, at 0 and at 10. */
  function SentTwice(): Consumer.State {
    var r1 := Consumer.SendPacket(Consumer.Initial(0), 0);
    if r1.Sent? then
      var r2 := Consumer.SendPacket(r1.next, 10);
      if r2.Sent? then r2.next else r1.next
    else Consumer.Initial(0)
  }

  /** Two sends from the start state register seq 0 stamped 0 and seq 1
      stamped 10, queue nothing, and move the counter to 2. */
  lemma SentTwiceState()
    ensures SeqTimeouts.Valid(SentTwice().timeouts)
    ensures SentTwice().timeouts.bySeq == map[0 := 0, 1 := 10]
    ensures SentTwice().retx == {} && SentTwice().nextSeq == 2
  {
    var r1 := Consumer.SendPacket(Consumer.Initial(0), 0);
    assert r1.Sent? && r1.seqNo == 0;
    var r2 := Consumer.SendPacket(r1.next, 10);
    assert r2.Sent? && r2.seqNo == 1;
  }

  /** The time index is non-unique: two seqs with the same time are both
      registered, and the one inserted first is listed first. */
  lemma SharedExpiry(r: SeqTimeouts.Registry, s1: SeqNo, s2: SeqNo, t: Time)
    requires SeqTimeouts.Valid(r)
    requires s1 != s2
    requires !SeqTimeouts.Contains(r, s1) && !SeqTimeouts.Contains(r, s2)
    ensures var r1 := SeqTimeouts.Insert(r, s1, t);
            var r2 := SeqTimeouts.Insert(r1.reg, s2, t);
            && r1.inserted && r2.inserted
            && exists i :: 0 <= i < |r2.reg.byTime| - 1
                           && r2.reg.byTime[i] == SeqTimeout(s1, t)
                           && r2.reg.byTime[i + 1] == SeqTimeout(s2, t)
  {
    var k1 := SeqTimeouts.UpperBound(r.byTime, t);
    var xs := r.byTime[..k1] + [SeqTimeout(s1, t)] + r.byTime[k1..];
    SeqTimeouts.UpperBoundAfterSplice(r.byTime, SeqTimeout(s1, t));
    var r1 := SeqTimeouts.Insert(r, s1, t);
    assert r1.reg.byTime == xs;
    var ys := xs[..k1 + 1] + [SeqTimeout(s2, t)] + xs[k1 + 1..];
    var r2 := SeqTimeouts.Insert(r1.reg, s2, t);
    assert r2.reg.byTime == ys;
    assert ys[k1] == SeqTimeout(s1, t);
    assert ys[k1 + 1] == SeqTimeout(s2, t);
  }
}
