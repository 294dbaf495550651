/** The timeout container `SeqTimeoutsContainer`: one set of `SeqTimeout`
    records reachable through two indexes, an ordered unique index on `seq`
    and an ordered non-unique index on `time`.

    Both indexes are kept explicitly: `bySeq` maps each sequence number to
    its record's time, and `byTime` lists the records in the iteration
    order of the time index. `Valid` is the invariant that ties them to the
    same record set; every operation here preserves it. */
module SeqTimeouts {
  import opened Types

  datatype Registry = Registry(bySeq: map<SeqNo, Time>, byTime: seq<SeqTimeout>)

  /** The result of an insertion: the container afterwards and whether the
      record went in (the `bool` of a multi_index insert). */
  datatype InsertResult = InsertResult(reg: Registry, inserted: bool)

  /** Times never decrease along the time index. */
  predicate TimeOrdered(xs: seq<SeqTimeout>) {
    forall i, j :: 0 <= i < j < |xs| ==> xs[i].time <= xs[j].time
  }

  /** No sequence number occurs twice along the time index. */
  predicate DistinctSeqs(xs: seq<SeqTimeout>) {
    forall i, j :: 0 <= i < j < |xs| ==> xs[i].seqNo != xs[j].seqNo
  }

  /** The two indexes hold the same records. */
  predicate SameRecords(m: map<SeqNo, Time>, xs: seq<SeqTimeout>) {
    && (forall i :: 0 <= i < |xs| ==> xs[i].seqNo in m && m[xs[i].seqNo] == xs[i].time)
    && (forall s :: s in m ==> SeqTimeout(s, m[s]) in xs)
  }

  predicate Valid(r: Registry) {
    TimeOrdered(r.byTime) && DistinctSeqs(r.byTime) && SameRecords(r.bySeq, r.byTime)
  }

  /** The sequence numbers of some records. */
  function SeqsOf(xs: seq<SeqTimeout>): set<SeqNo> {
    set e | e in xs :: e.seqNo
  }

  function Empty(): (r: Registry)
    ensures Valid(r)
    ensures forall s :: !Contains(r, s)
  {
    Registry(map[], [])
  }

  /** Lookup through the seq index: `find(s) != end()`. */
  predicate Contains(r: Registry, s: SeqNo) {
    s in r.bySeq
  }

  /** The two indexes agree on lookups: a seq is found through the seq
      index exactly when some record of the time index carries it, and then
      that record is the one the seq index holds. */
  lemma ViewsAgree(r: Registry, s: SeqNo)
    requires Valid(r)
    ensures Contains(r, s) <==> exists i :: 0 <= i < |r.byTime| && r.byTime[i].seqNo == s
    ensures Contains(r, s) ==> SeqTimeout(s, r.bySeq[s]) in r.byTime
    ensures forall t :: SeqTimeout(s, t) in r.byTime ==> Contains(r, s) && r.bySeq[s] == t
  {
    if Contains(r, s) {
      assert SeqTimeout(s, r.bySeq[s]) in r.byTime;
    }
  }

  /** The first position of the time index whose record is later than `t`
      (the time index's `upper_bound(t)`). */
  function UpperBound(xs: seq<SeqTimeout>, t: Time): (k: nat)
    requires TimeOrdered(xs)
    ensures k <= |xs|
    ensures forall i :: 0 <= i < k ==> xs[i].time <= t
    ensures forall i :: k <= i < |xs| ==> t < xs[i].time
  {
    if |xs| == 0 || t < xs[0].time then 0 else 1 + UpperBound(xs[1..], t)
  }

  /** The first position of the time index holding seq `s`, or the length
      of the index when no record has that seq. */
  function FindSeq(xs: seq<SeqTimeout>, s: SeqNo): (i: nat)
    ensures i <= |xs|
    ensures i < |xs| ==> xs[i].seqNo == s
    ensures forall j :: 0 <= j < i ==> xs[j].seqNo != s
  {
    if |xs| == 0 then 0
    else if xs[0].seqNo == s then 0
    else 1 + FindSeq(xs[1..], s)
  }

  /** Cutting a position out of a time index keeps it ordered. */
  lemma CutOrdered(xs: seq<SeqTimeout>, i: nat)
    requires TimeOrdered(xs)
    requires i < |xs|
    ensures TimeOrdered(xs[..i] + xs[i + 1..])
  {
    var ys := xs[..i] + xs[i + 1..];
    forall a, b | 0 <= a < b < |ys|
      ensures ys[a].time <= ys[b].time
    {
      assert ys[a] == xs[if a < i then a else a + 1];
      assert ys[b] == xs[if b < i then b else b + 1];
    }
  }

  /** Cutting a position out of a time index keeps its seqs distinct. */
  lemma CutDistinct(xs: seq<SeqTimeout>, i: nat)
    requires DistinctSeqs(xs)
    requires i < |xs|
    ensures DistinctSeqs(xs[..i] + xs[i + 1..])
  {
    var ys := xs[..i] + xs[i + 1..];
    forall a, b | 0 <= a < b < |ys|
      ensures ys[a].seqNo != ys[b].seqNo
    {
      assert ys[a] == xs[if a < i then a else a + 1];
      assert ys[b] == xs[if b < i then b else b + 1];
    }
  }

  /** Cutting position `i` out of the time index and its seq out of the seq
      index keeps the two indexes on the same records. */
  lemma CutRecords(m: map<SeqNo, Time>, xs: seq<SeqTimeout>, i: nat)
    requires SameRecords(m, xs) && DistinctSeqs(xs)
    requires i < |xs|
    ensures SameRecords(m - {xs[i].seqNo}, xs[..i] + xs[i + 1..])
  {
    var s := xs[i].seqNo;
    var m' := m - {s};
    var ys := xs[..i] + xs[i + 1..];
    forall j | 0 <= j < |ys|
      ensures ys[j].seqNo in m' && m'[ys[j].seqNo] == ys[j].time
    {
      var j' := if j < i then j else j + 1;
      assert ys[j] == xs[j'];
    }
    forall q | q in m'
      ensures SeqTimeout(q, m'[q]) in ys
    {
      var j :| 0 <= j < |xs| && xs[j] == SeqTimeout(q, m[q]);
      assert j != i;
      assert ys[if j < i then j else j - 1] == xs[j];
    }
  }

  /** Cutting position `i` out of a valid container's time index, and its
      seq out of the seq index, leaves a valid container. */
  lemma CutValid(r: Registry, i: nat)
    requires Valid(r)
    requires i < |r.byTime|
    ensures Valid(Registry(r.bySeq - {r.byTime[i].seqNo}, r.byTime[..i] + r.byTime[i + 1..]))
  {
    CutOrdered(r.byTime, i);
    CutDistinct(r.byTime, i);
    CutRecords(r.bySeq, r.byTime, i);
  }

  /** Inserting a record after the first `k` entries keeps a time index
      ordered when `k` is the upper bound of the record's time. */
  lemma SpliceOrdered(xs: seq<SeqTimeout>, k: nat, e: SeqTimeout)
    requires TimeOrdered(xs)
    requires k <= |xs|
    requires forall i :: 0 <= i < k ==> xs[i].time <= e.time
    requires forall i :: k <= i < |xs| ==> e.time < xs[i].time
    ensures TimeOrdered(xs[..k] + [e] + xs[k..])
  {
    var ys := xs[..k] + [e] + xs[k..];
    forall i, j | 0 <= i < j < |ys|
      ensures ys[i].time <= ys[j].time
    {
      if i < k && j > k {
        assert ys[i] == xs[i] && ys[j] == xs[j - 1];
      } else if i > k {
        assert ys[i] == xs[i - 1] && ys[j] == xs[j - 1];
      }
    }
  }

  /** Splicing a record at the upper bound of its time moves that upper
      bound one step further. */
  lemma UpperBoundAfterSplice(xs: seq<SeqTimeout>, e: SeqTimeout)
    requires TimeOrdered(xs)
    ensures var k := UpperBound(xs, e.time);
            var ys := xs[..k] + [e] + xs[k..];
            && TimeOrdered(ys)
            && UpperBound(ys, e.time) == k + 1
  {
    var k := UpperBound(xs, e.time);
    var ys := xs[..k] + [e] + xs[k..];
    SpliceOrdered(xs, k, e);
    assert forall i :: 0 <= i < |ys| && i != k ==> ys[i] == xs[if i < k then i else i - 1];
    assert ys[k] == e;
    assert k + 1 < |ys| ==> ys[k + 1] == xs[k];
  }

  /** Inserting a record whose seq is new keeps the seqs distinct. */
  lemma SpliceDistinct(xs: seq<SeqTimeout>, k: nat, e: SeqTimeout)
    requires DistinctSeqs(xs)
    requires k <= |xs|
    requires forall i :: 0 <= i < |xs| ==> xs[i].seqNo != e.seqNo
    ensures DistinctSeqs(xs[..k] + [e] + xs[k..])
  {
    var ys := xs[..k] + [e] + xs[k..];
    forall a, b | 0 <= a < b < |ys|
      ensures ys[a].seqNo != ys[b].seqNo
    {
      if a != k && b != k {
        assert ys[a] == xs[if a < k then a else a - 1];
        assert ys[b] == xs[if b < k then b else b - 1];
      } else if a == k {
        assert ys[b] == xs[b - 1];
      } else {
        assert ys[a] == xs[a];
      }
    }
  }

  /** Inserting a record with a new seq into both indexes keeps them on the
      same records. */
  lemma SpliceRecords(m: map<SeqNo, Time>, xs: seq<SeqTimeout>, k: nat, e: SeqTimeout)
    requires SameRecords(m, xs)
    requires e.seqNo !in m
    requires k <= |xs|
    ensures SameRecords(m[e.seqNo := e.time], xs[..k] + [e] + xs[k..])
  {
    var ys := xs[..k] + [e] + xs[k..];
    var m' := m[e.seqNo := e.time];
    assert ys[k] == e;
    forall j | 0 <= j < |ys|
      ensures ys[j].seqNo in m' && m'[ys[j].seqNo] == ys[j].time
    {
      if j != k {
        assert ys[j] == xs[if j < k then j else j - 1];
      }
    }
    forall q | q in m'
      ensures SeqTimeout(q, m'[q]) in ys
    {
      if q != e.seqNo {
        var j :| 0 <= j < |xs| && xs[j] == SeqTimeout(q, m[q]);
        assert ys[if j < k then j else j + 1] == xs[j];
      }
    }
  }

  /** Inserting a record with a new seq at position `k` of a valid
      container's time index, and under its seq in the seq index, leaves a
      valid container when `k` is the upper bound of the record's time. */
  lemma SpliceValid(r: Registry, k: nat, e: SeqTimeout)
    requires Valid(r)
    requires e.seqNo !in r.bySeq
    requires k <= |r.byTime|
    requires forall i :: 0 <= i < k ==> r.byTime[i].time <= e.time
    requires forall i :: k <= i < |r.byTime| ==> e.time < r.byTime[i].time
    ensures Valid(Registry(r.bySeq[e.seqNo := e.time], r.byTime[..k] + [e] + r.byTime[k..]))
  {
    SpliceOrdered(r.byTime, k, e);
    SpliceDistinct(r.byTime, k, e);
    SpliceRecords(r.bySeq, r.byTime, k, e);
  }

  /** `insert(SeqTimeout(s, t))`: refused, leaving the container unchanged,
      when the seq index already holds `s`; otherwise the record is
      indexed under `s` and placed in the time index after every record
      whose time is at most `t` and before every later one. */
  function Insert(r: Registry, s: SeqNo, t: Time): (res: InsertResult)
    requires Valid(r)
    ensures Valid(res.reg)
    ensures res.inserted <==> !Contains(r, s)
    ensures !res.inserted ==> res.reg == r
    ensures res.inserted ==> Contains(res.reg, s) && res.reg.bySeq[s] == t
    ensures res.inserted ==> res.reg.bySeq.Keys == r.bySeq.Keys + {s}
    ensures forall q :: q in r.bySeq ==> q in res.reg.bySeq && res.reg.bySeq[q] == r.bySeq[q]
  {
    if s in r.bySeq then
      InsertResult(r, false)
    else
      var e := SeqTimeout(s, t);
      var k := UpperBound(r.byTime, t);
      SpliceValid(r, k, e);
      InsertResult(Registry(r.bySeq[s := t], r.byTime[..k] + [e] + r.byTime[k..]), true)
  }

  /** `erase(s)` on the seq index: the record for `s` leaves both indexes,
      the time index keeps the order of the other records, and erasing an
      absent seq changes nothing. */
  function EraseBySeq(r: Registry, s: SeqNo): (r': Registry)
    requires Valid(r)
    ensures Valid(r')
    ensures !Contains(r', s)
    ensures r'.bySeq.Keys == r.bySeq.Keys - {s}
    ensures forall q :: q in r'.bySeq ==> r'.bySeq[q] == r.bySeq[q]
    ensures !Contains(r, s) ==> r' == r
  {
    var i := FindSeq(r.byTime, s);
    if i == |r.byTime| then
      r
    else
      CutValid(r, i);
      Registry(r.bySeq - {s}, r.byTime[..i] + r.byTime[i + 1..])
  }

  /** A successful insert places the new record after every record whose
      time is at most `t` and before every later one (the position of a
      new element in an ordered non-unique index), and leaves the other
      records in their order. */
  lemma InsertPlacement(r: Registry, s: SeqNo, t: Time)
    requires Valid(r)
    requires !Contains(r, s)
    ensures exists k :: 0 <= k <= |r.byTime|
                        && Insert(r, s, t).reg.byTime == r.byTime[..k] + [SeqTimeout(s, t)] + r.byTime[k..]
                        && (forall i :: 0 <= i < k ==> r.byTime[i].time <= t)
                        && (forall i :: k <= i < |r.byTime| ==> t < r.byTime[i].time)
  {
    InsertAt(r, s, t);
    SplicePlacement(r.byTime, Insert(r, s, t).reg.byTime, SeqTimeout(s, t));
  }

  /** The index spliced at the upper bound of a record's time places that
      record after every record stamped no later and before every later one. */
  lemma SplicePlacement(xs: seq<SeqTimeout>, ys: seq<SeqTimeout>, e: SeqTimeout)
    requires TimeOrdered(xs)
    requires var k := UpperBound(xs, e.time); ys == xs[..k] + [e] + xs[k..]
    ensures exists k :: 0 <= k <= |xs|
                        && ys == xs[..k] + [e] + xs[k..]
                        && (forall i :: 0 <= i < k ==> xs[i].time <= e.time)
                        && (forall i :: k <= i < |xs| ==> e.time < xs[i].time)
  {
    var k := UpperBound(xs, e.time);
    assert ys == xs[..k] + [e] + xs[k..];
  }

  /** The insert of an absent seq, written out: the record goes at the
      upper bound of its time. */
  lemma InsertAt(r: Registry, s: SeqNo, t: Time)
    requires Valid(r)
    requires !Contains(r, s)
    ensures var k := UpperBound(r.byTime, t);
            Insert(r, s, t) == InsertResult(Registry(r.bySeq[s := t], r.byTime[..k] + [SeqTimeout(s, t)] + r.byTime[k..]), true)
  {
  }

  /** The erase of a seq found at position `i`, written out. */
  lemma EraseFound(r: Registry, s: SeqNo, i: nat)
    requires Valid(r)
    requires i < |r.byTime| && FindSeq(r.byTime, s) == i
    ensures EraseBySeq(r, s) == Registry(r.bySeq - {s}, r.byTime[..i] + r.byTime[i + 1..])
  {
  }

  /** Erasing a registered seq cuts its one record out of the time index
      and leaves the other records in their order. */
  lemma EraseCut(r: Registry, s: SeqNo)
    requires Valid(r)
    requires Contains(r, s)
    ensures exists i :: 0 <= i < |r.byTime|
                        && r.byTime[i] == SeqTimeout(s, r.bySeq[s])
                        && EraseBySeq(r, s).byTime == r.byTime[..i] + r.byTime[i + 1..]
  {
    var i := FindSeq(r.byTime, s);
    ViewsAgree(r, s);
    assert r.byTime[i] == SeqTimeout(s, r.bySeq[s]);
  }

  /** The records stamped at or before `cutoff`: the prefix of the time
      index up to `upper_bound(cutoff)`. */
  function Expired(r: Registry, cutoff: Time): (xs: seq<SeqTimeout>)
    requires Valid(r)
    ensures |xs| <= |r.byTime| && xs == r.byTime[..|xs|]
    ensures TimeOrdered(xs)
    ensures forall i :: 0 <= i < |xs| ==> xs[i].time <= cutoff
    ensures forall i :: |xs| <= i < |r.byTime| ==> cutoff < r.byTime[i].time
    ensures forall s :: s in r.bySeq ==> (r.bySeq[s] <= cutoff <==> SeqTimeout(s, r.bySeq[s]) in xs)
  {
    var k := UpperBound(r.byTime, cutoff);
    var xs := r.byTime[..k];
    forall s | s in r.bySeq
      ensures r.bySeq[s] <= cutoff <==> SeqTimeout(s, r.bySeq[s]) in xs
    {
      var j :| 0 <= j < |r.byTime| && r.byTime[j] == SeqTimeout(s, r.bySeq[s]);
      if r.bySeq[s] <= cutoff {
        assert xs[j] == r.byTime[j];
      }
    }
    xs
  }

  /** The seqs of that prefix are exactly the seqs whose time is
      at most `cutoff`. */
  lemma ExpiredSeqs(r: Registry, cutoff: Time)
    requires Valid(r)
    ensures SeqsOf(Expired(r, cutoff)) == set q | q in r.bySeq && r.bySeq[q] <= cutoff
  {
    var k := UpperBound(r.byTime, cutoff);
    PrefixSeqs(r.bySeq, r.byTime, k, cutoff);
  }

  /** When the first `k` records are exactly those stamped at or before
      `cutoff`, their seqs are the keys whose time is at most `cutoff`. */
  lemma PrefixSeqs(m: map<SeqNo, Time>, xs: seq<SeqTimeout>, k: nat, cutoff: Time)
    requires SameRecords(m, xs)
    requires k <= |xs|
    requires forall i :: 0 <= i < k ==> xs[i].time <= cutoff
    requires forall i :: k <= i < |xs| ==> cutoff < xs[i].time
    ensures SeqsOf(xs[..k]) == set q | q in m && m[q] <= cutoff
  {
    var ys := xs[..k];
    var want := set q | q in m && m[q] <= cutoff;
    assert SeqsOf(ys) <= want by {
      forall q | q in SeqsOf(ys)
        ensures q in want
      {
        var e :| e in ys && e.seqNo == q;
        var j :| 0 <= j < |ys| && ys[j] == e;
        assert xs[j] == e;
      }
    }
    assert want <= SeqsOf(ys) by {
      forall q | q in want
        ensures q in SeqsOf(ys)
      {
        var e := SeqTimeout(q, m[q]);
        var j :| 0 <= j < |xs| && xs[j] == e;
        assert j < k;
        assert ys[j] == e;
      }
    }
  }

  /** The records still pending after `cutoff`: the seq index restricted
      to times later than `cutoff`. */
  function Pending(m: map<SeqNo, Time>, cutoff: Time): (m': map<SeqNo, Time>)
    ensures forall q :: q in m' <==> q in m && cutoff < m[q]
    ensures forall q :: q in m' ==> m'[q] == m[q]
  {
    map q | q in m && cutoff < m[q] :: m[q]
  }

  /** Dropping a prefix keeps a time index ordered and free of duplicate
      seqs. */
  lemma SuffixOrdered(xs: seq<SeqTimeout>, k: nat)
    requires TimeOrdered(xs) && DistinctSeqs(xs)
    requires k <= |xs|
    ensures TimeOrdered(xs[k..]) && DistinctSeqs(xs[k..])
  {
    assert forall j :: 0 <= j < |xs[k..]| ==> xs[k..][j] == xs[j + k];
  }

  /** Dropping the prefix of records at most `cutoff` from the time index
      leaves it on the same records as the pending part of the seq index. */
  lemma SuffixRecords(m: map<SeqNo, Time>, xs: seq<SeqTimeout>, k: nat, cutoff: Time)
    requires SameRecords(m, xs)
    requires k <= |xs|
    requires forall i :: 0 <= i < k ==> xs[i].time <= cutoff
    requires forall i :: k <= i < |xs| ==> cutoff < xs[i].time
    ensures SameRecords(Pending(m, cutoff), xs[k..])
  {
    var m' := Pending(m, cutoff);
    var ys := xs[k..];
    forall j | 0 <= j < |ys|
      ensures ys[j].seqNo in m' && m'[ys[j].seqNo] == ys[j].time
    {
      assert ys[j] == xs[j + k];
    }
    forall q | q in m'
      ensures SeqTimeout(q, m'[q]) in ys
    {
      var j :| 0 <= j < |xs| && xs[j] == SeqTimeout(q, m[q]);
      assert ys[j - k] == xs[j];
    }
  }

  /** Erasing the expired range `[begin, upper_bound(cutoff))` of the time
      index: the container keeps exactly the records later than `cutoff`, and
      the time index keeps their order. */
  function EraseExpired(r: Registry, cutoff: Time): (r': Registry)
    requires Valid(r)
    ensures Valid(r')
    ensures forall q :: Contains(r', q) <==> Contains(r, q) && cutoff < r.bySeq[q]
    ensures forall q :: q in r'.bySeq ==> q in r.bySeq && r'.bySeq[q] == r.bySeq[q]
    ensures r'.byTime == r.byTime[|Expired(r, cutoff)|..]
  {
    var k := |Expired(r, cutoff)|;
    SuffixOrdered(r.byTime, k);
    SuffixRecords(r.bySeq, r.byTime, k, cutoff);
    Registry(Pending(r.bySeq, cutoff), r.byTime[k..])
  }

  /** The container with the first `n` records of the time index removed,
      from both indexes. */
  function DropFront(r: Registry, n: nat): Registry
    requires n <= |r.byTime|
  {
    Registry(r.bySeq - SeqsOf(r.byTime[..n]), r.byTime[n..])
  }

  /** Extending a prefix by one record adds that record's seq. */
  lemma SeqsOfSnoc(xs: seq<SeqTimeout>, n: nat)
    requires n < |xs|
    ensures SeqsOf(xs[..n + 1]) == SeqsOf(xs[..n]) + {xs[n].seqNo}
  {
    assert xs[..n + 1] == xs[..n] + [xs[n]];
  }

  /** Erasing the seq of the earliest remaining record drops one more
      record from the front. */
  lemma EraseFrontStep(r: Registry, n: nat)
    requires n < |r.byTime|
    requires Valid(DropFront(r, n))
    ensures EraseBySeq(DropFront(r, n), r.byTime[n].seqNo) == DropFront(r, n + 1)
  {
    var d := DropFront(r, n);
    var s := r.byTime[n].seqNo;
    EraseHead(d);
    assert d.byTime[0] == r.byTime[n];
    assert d.byTime[1..] == r.byTime[n + 1..];
    assert d.bySeq - {s} == r.bySeq - SeqsOf(r.byTime[..n + 1]) by {
      SeqsOfSnoc(r.byTime, n);
      RemoveOneMore(r.bySeq, SeqsOf(r.byTime[..n]), s);
    }
  }

  /** Erasing the seq of the earliest record drops that record. */
  lemma EraseHead(d: Registry)
    requires Valid(d)
    requires 0 < |d.byTime|
    ensures EraseBySeq(d, d.byTime[0].seqNo) == Registry(d.bySeq - {d.byTime[0].seqNo}, d.byTime[1..])
  {
    FindSeqHead(d.byTime);
    EraseFound(d, d.byTime[0].seqNo, 0);
    assert d.byTime[..0] + d.byTime[1..] == d.byTime[1..];
  }

  /** The search for the seq of the first record stops at once. */
  lemma FindSeqHead(xs: seq<SeqTimeout>)
    requires 0 < |xs|
    ensures FindSeq(xs, xs[0].seqNo) == 0
  {
  }

  /** Removing one more key is removing the enlarged key set. */
  lemma RemoveOneMore(m: map<SeqNo, Time>, a: set<SeqNo>, s: SeqNo)
    ensures (m - a) - {s} == m - (a + {s})
  {
  }

  /** Dropping the expired prefix from the front is erasing the expired
      range. */
  lemma DropExpired(r: Registry, cutoff: Time)
    requires Valid(r)
    ensures |Expired(r, cutoff)| <= |r.byTime|
    ensures DropFront(r, |Expired(r, cutoff)|) == EraseExpired(r, cutoff)
  {
    var xs := Expired(r, cutoff);
    var k := |xs|;
    var m := r.bySeq;
    assert DropFront(r, k).bySeq == m - SeqsOf(xs);
    assert m - SeqsOf(xs) == Pending(m, cutoff) by {
      ExpiredSeqs(r, cutoff);
      RemoveExpiredKeys(m, cutoff);
    }
    assert DropFront(r, k).byTime == EraseExpired(r, cutoff).byTime;
  }

  /** Removing the keys whose time is at most `cutoff` leaves the pending
      part of the map. */
  lemma RemoveExpiredKeys(m: map<SeqNo, Time>, cutoff: Time)
    ensures m - (set q | q in m && m[q] <= cutoff) == Pending(m, cutoff)
  {
    var a := m - (set q | q in m && m[q] <= cutoff);
    assert forall q :: q in a <==> q in Pending(m, cutoff);
  }

  /** Erasing twice is erasing once. */
  lemma EraseIdempotent(r: Registry, s: SeqNo)
    requires Valid(r)
    ensures EraseBySeq(EraseBySeq(r, s), s) == EraseBySeq(r, s)
  {
  }

  /** Erasing a freshly inserted seq gives back the container it went into. */
  lemma EraseUndoesInsert(r: Registry, s: SeqNo, t: Time)
    requires Valid(r)
    requires !Contains(r, s)
    ensures Insert(r, s, t).inserted
    ensures EraseBySeq(Insert(r, s, t).reg, s) == r
  {
    var k := UpperBound(r.byTime, t);
    InsertAt(r, s, t);
    EraseSpliced(r, k, SeqTimeout(s, t));
  }

  /** Erasing the seq of a record spliced into a valid container at
      position `k` gives back that container. */
  lemma EraseSpliced(r: Registry, k: nat, e: SeqTimeout)
    requires k <= |r.byTime|
    requires e.seqNo !in r.bySeq
    requires Valid(Registry(r.bySeq[e.seqNo := e.time], r.byTime[..k] + [e] + r.byTime[k..]))
    ensures EraseBySeq(Registry(r.bySeq[e.seqNo := e.time], r.byTime[..k] + [e] + r.byTime[k..]), e.seqNo) == r
  {
    var xs := r.byTime[..k] + [e] + r.byTime[k..];
    var r1 := Registry(r.bySeq[e.seqNo := e.time], xs);
    SplicedAt(r.byTime, k, e);
    FindSeqAt(xs, k);
    EraseFound(r1, e.seqNo, k);
    Unsplice(r.byTime, k, e);
    UnsetKey(r.bySeq, e.seqNo, e.time);
  }

  /** A record spliced in at position `k` sits at position `k`. */
  lemma SplicedAt(xs: seq<SeqTimeout>, k: nat, e: SeqTimeout)
    requires k <= |xs|
    ensures (xs[..k] + [e] + xs[k..])[k] == e
  {
  }

  /** Removing a key just added to a map that lacked it restores the map. */
  lemma UnsetKey(m: map<SeqNo, Time>, s: SeqNo, t: Time)
    requires s !in m
    ensures m[s := t] - {s} == m
  {
  }

  /** In a time index without duplicate seqs, the search for the seq at
      position `i` stops at `i`. */
  lemma FindSeqAt(xs: seq<SeqTimeout>, i: nat)
    requires DistinctSeqs(xs)
    requires i < |xs|
    ensures FindSeq(xs, xs[i].seqNo) == i
  {
  }

  /** Cutting out a spliced-in record restores the original index. */
  lemma Unsplice(xs: seq<SeqTimeout>, k: nat, e: SeqTimeout)
    requires k <= |xs|
    ensures var ys := xs[..k] + [e] + xs[k..]; ys[..k] + ys[k + 1..] == xs
  {
    var ys := xs[..k] + [e] + xs[k..];
    assert ys[..k] == xs[..k];
    assert ys[k + 1..] == xs[k..];
  }
}
