/** The retransmission queue `RetxSeqsContainer`: an ordered set of
    sequence numbers waiting to be sent again. Being a set, it holds each
    seq at most once; being ordered, it is enumerated in ascending order,
    so its first element is the smallest pending seq. */
module RetxSeqs {
  import opened Types

  /** `m` is the smallest element of `q`. */
  predicate IsLeast(m: SeqNo, q: set<SeqNo>) {
    m in q && forall x :: x in q ==> m <= x
  }

  /** A nonempty set of sequence numbers has a least element. */
  lemma {:induction false} LeastExists(q: set<SeqNo>)
    requires q != {}
    ensures exists m :: IsLeast(m, q)
    decreases |q|
  {
    var y :| y in q;
    if q == {y} {
      assert IsLeast(y, q);
    } else {
      var rest := q - {y};
      assert |rest| < |q|;
      LeastExists(rest);
      var m :| IsLeast(m, rest);
      assert forall x :: x in q ==> x == y || x in rest;
      if y < m {
        assert IsLeast(y, q);
      } else {
        assert IsLeast(m, q);
      }
    }
  }

  /** The smallest pending seq: `*begin()`. */
  function Min(q: set<SeqNo>): (m: SeqNo)
    requires q != {}
    ensures m in q
    ensures forall x :: x in q ==> m <= x
  {
    LeastExists(q);
    var m :| IsLeast(m, q);
    m
  }

  /** The seqs in iteration order. */
  function Ascending(q: set<SeqNo>): (xs: seq<SeqNo>)
    ensures forall i, j :: 0 <= i < j < |xs| ==> xs[i] < xs[j]
    ensures forall x :: x in xs <==> x in q
    ensures |xs| == |q|
    decreases |q|
  {
    if q == {} then []
    else
      var m := Min(q);
      var rest := Ascending(q - {m});
      assert forall j :: 0 <= j < |rest| ==> rest[j] in q - {m};
      [m] + rest
  }

  /** `insert(s)`: afterwards `s` is pending; inserting a pending seq
      changes nothing. */
  function Insert(q: set<SeqNo>, s: SeqNo): (q': set<SeqNo>)
    ensures s in q'
    ensures forall x :: x != s ==> (x in q' <==> x in q)
    ensures s in q ==> q' == q
  {
    q + {s}
  }

  /** `erase(s)`: afterwards `s` is not pending; erasing a seq that is not
      pending changes nothing. */
  function Remove(q: set<SeqNo>, s: SeqNo): (q': set<SeqNo>)
    ensures s !in q'
    ensures forall x :: x != s ==> (x in q' <==> x in q)
    ensures s !in q ==> q' == q
  {
    q - {s}
  }

  /** Taking the first element: the smallest pending seq, with the others
      left pending. */
  function PopMin(q: set<SeqNo>): (res: (SeqNo, set<SeqNo>))
    requires q != {}
    ensures IsLeast(res.0, q)
    ensures q == Insert(res.1, res.0) && res.0 !in res.1
  {
    var m := Min(q);
    (m, Remove(q, m))
  }

  /** Taking the first element follows the enumeration: the element taken
      is its head and the rest enumerates its tail. */
  lemma PopMinEnumerates(q: set<SeqNo>)
    requires q != {}
    ensures PopMin(q).0 == Ascending(q)[0]
    ensures Ascending(PopMin(q).1) == Ascending(q)[1..]
  {
  }

  /** The enumeration starts at the smallest pending seq. */
  lemma FirstIsMin(q: set<SeqNo>)
    requires q != {}
    ensures Ascending(q)[0] == Min(q)
    ensures forall x :: x in q ==> Ascending(q)[0] <= x
  {
  }

  /** Inserting then erasing a seq that was not pending restores the set;
      erasing then inserting one that was pending restores it too. */
  lemma InsertRemoveInverse(q: set<SeqNo>, s: SeqNo)
    ensures s !in q ==> Remove(Insert(q, s), s) == q
    ensures s in q ==> Insert(Remove(q, s), s) == q
  {
  }

  /** Each seq is enumerated at most once: inserting grows the
      enumeration by one exactly when the seq was not pending. */
  lemma InsertCount(q: set<SeqNo>, s: SeqNo)
    ensures |Ascending(Insert(q, s))| == if s in q then |q| else |q| + 1
  {
  }
}
