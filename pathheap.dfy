// The search frontier of the walker (PathHeap.h, PathHeap.cpp): shortlist entries kept in an
// ordered set under a lexicographic comparator, with removal of the least entry, a prune that
// drops entries with far more errors than the last one of a kept prefix, and a scan for the
// entry with the lowest error rate.
module PathHeaps {
  import opened Wrappers

  /** MyArc: the arc an entry was reached by. Weights are the composition's scaled integers. */
  datatype MyArc = MyArc(ilabel: int, olabel: int, weight: int, nextstate: int)

  /** ShortlistEntry: a search node. The shared pointer to the node it was reached from is the
    * node value itself (nodes are never changed once made); None is the null pointer. */
  datatype ShortlistEntry = ShortlistEntry(
    currentState: int,
    whereTo: int,
    numErrors: int,
    numWords: int,
    numInsert: int,
    costToGoThere: int,
    costSoFar: int,
    localArc: Option<MyArc>,
    linkToHere: Option<ShortlistEntry>)

  /** A default-constructed entry: zero counters and costs, no arc, null link. */
  const DEFAULT_ENTRY: ShortlistEntry := ShortlistEntry(0, 0, 0, 0, 0, 0, 0, None, None)

  /** The hard-coded prune offset, and the defaults of the two public fields. */
  const PRUNE_OFFSET: int := 20
  const DEFAULT_PRUNING_ERROR_OFFSET: int := 20

  // ---------------------------------------------------------------------------------------
  // The comparator.

  /** What the comparator looks at: (numWords, numErrors, costSoFar, currentState). */
  function Key(e: ShortlistEntry): (int, int, int, int)
  {
    (e.numWords, e.numErrors, e.costSoFar, e.currentState)
  }

  /** shortlistComparatorSharedPtr: fewer words first, then fewer errors, then lower cost, then
    * the lower state id. */
  predicate Less(a: ShortlistEntry, b: ShortlistEntry)
  {
    if a.numWords == b.numWords then
      if a.numErrors == b.numErrors then
        if a.costSoFar == b.costSoFar then a.currentState < b.currentState
        else a.costSoFar < b.costSoFar
      else a.numErrors < b.numErrors
    else a.numWords < b.numWords
  }

  /** A strict weak order whose equivalence is equality of keys: irreflexive, transitive, and
    * any two entries are ordered one way or the other unless their keys agree. */
  lemma LessIsStrictOrder(a: ShortlistEntry, b: ShortlistEntry, c: ShortlistEntry)
    ensures !Less(a, a)
    ensures Less(a, b) && Less(b, c) ==> Less(a, c)
    ensures Less(a, b) || Less(b, a) || Key(a) == Key(b)
    ensures Key(a) == Key(b) ==> !Less(a, b) && !Less(b, a)
    ensures Less(a, b) ==> !Less(b, a)
  {
  }

  // ---------------------------------------------------------------------------------------
  // The ordered set, as the sequence of its elements in order.

  /** Each entry is below the next. */
  ghost predicate Sorted(s: seq<ShortlistEntry>)
  {
    forall i :: 0 <= i < |s| - 1 ==> Less(s[i], s[i + 1])
  }

  /** In a sorted sequence every entry is below every later one. */
  lemma {:induction false} SortedPairwise(s: seq<ShortlistEntry>, i: nat, j: nat)
    requires Sorted(s) && i < j < |s|
    ensures Less(s[i], s[j])
    decreases j - i
  {
    if i + 1 < j {
      SortedPairwise(s, i + 1, j);
      LessIsStrictOrder(s[i], s[i + 1], s[j]);
    }
  }

  /** An element with the same key as `e` is present. */
  ghost predicate HasKey(s: seq<ShortlistEntry>, e: ShortlistEntry)
  {
    exists i :: 0 <= i < |s| && Key(s[i]) == Key(e)
  }

  /** std::set::insert: `e` goes to its place in the order, unless an equivalent entry is
    * already there. */
  function InsertSorted(s: seq<ShortlistEntry>, e: ShortlistEntry): seq<ShortlistEntry>
  {
    if |s| == 0 then [e]
    else if Less(e, s[0]) then [e] + s
    else if Key(e) == Key(s[0]) then s
    else [s[0]] + InsertSorted(s[1..], e)
  }

  /** Insertion keeps the order; the result holds the old entries and, unless an equivalent
    * one was there, `e`; so the size grows by at most one. */
  lemma {:induction false} InsertSortedSpec(s: seq<ShortlistEntry>, e: ShortlistEntry)
    requires Sorted(s)
    ensures var r := InsertSorted(s, e);
      && Sorted(r)
      && |r| == |s| + (if HasKey(s, e) then 0 else 1)
      && (forall x :: x in r <==> x in s || (x == e && !HasKey(s, e)))
      && (|r| > 0 && |s| > 0 ==> r[0] == s[0] || r[0] == e)
  {
    if |s| == 0 {
    } else if Less(e, s[0]) {
      var r := [e] + s;
      assert !HasKey(s, e) by {
        forall i | 0 <= i < |s|
          ensures Key(s[i]) != Key(e)
        {
          if i > 0 {
            SortedPairwise(s, 0, i);
            LessIsStrictOrder(e, s[0], s[i]);
          }
          LessIsStrictOrder(e, s[i], e);
        }
      }
    } else if Key(e) == Key(s[0]) {
      assert HasKey(s, e) by {
        assert Key(s[0]) == Key(e);
      }
    } else {
      var t := s[1..];
      InsertSortedSpec(t, e);
      var r := InsertSorted(s, e);
      assert r == [s[0]] + InsertSorted(t, e);
      assert HasKey(s, e) <==> HasKey(t, e) by {
        if HasKey(s, e) {
          var i :| 0 <= i < |s| && Key(s[i]) == Key(e);
          assert i > 0 && Key(t[i - 1]) == Key(e);
        }
        if HasKey(t, e) {
          var i :| 0 <= i < |t| && Key(t[i]) == Key(e);
          assert Key(s[i + 1]) == Key(e);
        }
      }
      LessIsStrictOrder(s[0], e, e);
      if |t| > 0 {
        assert Less(s[0], t[0]);
      }
      forall x
        ensures x in r <==> x in s || (x == e && !HasKey(s, e))
      {
        assert x in s <==> x == s[0] || x in t;
      }
    }
  }

  // ---------------------------------------------------------------------------------------
  // The prune.

  /** The entries of `s`, in order, whose numErrors does not exceed `bound`. */
  function KeepWithin(s: seq<ShortlistEntry>, bound: int): (r: seq<ShortlistEntry>)
    ensures |r| <= |s|
  {
    if |s| == 0 then []
    else KeepWithin(s[..|s| - 1], bound) + (if s[|s| - 1].numErrors <= bound then [s[|s| - 1]] else [])
  }

  /** The first min(targetSz, |s|) entries are kept; beyond them an entry is dropped iff its
    * numErrors exceeds the last kept one's by more than 20. */
  function Pruned(s: seq<ShortlistEntry>, targetSz: int): seq<ShortlistEntry>
    requires targetSz >= 1 && |s| >= 1
  {
    var k := Min(targetSz, |s|);
    s[..k] + KeepWithin(s[k..], s[k - 1].numErrors + PRUNE_OFFSET)
  }

  /** KeepWithin keeps exactly the entries within the bound. */
  lemma {:induction false} KeepWithinMembers(s: seq<ShortlistEntry>, bound: int)
    ensures forall x :: x in KeepWithin(s, bound) <==> x in s && x.numErrors <= bound
  {
    if |s| > 0 {
      var init := s[..|s| - 1];
      KeepWithinMembers(init, bound);
      forall x
        ensures x in KeepWithin(s, bound) <==> x in s && x.numErrors <= bound
      {
        assert x in s <==> x in init || x == s[|s| - 1];
      }
    }
  }

  /** KeepWithin keeps the order. */
  lemma {:induction false} KeepWithinSorted(s: seq<ShortlistEntry>, bound: int)
    requires Sorted(s)
    ensures Sorted(KeepWithin(s, bound))
  {
    if |s| > 0 {
      var init := s[..|s| - 1];
      assert Sorted(init);
      KeepWithinSorted(init, bound);
      var p := KeepWithin(init, bound);
      if |p| > 0 && s[|s| - 1].numErrors <= bound {
        KeepWithinMembers(init, bound);
        assert p[|p| - 1] in init;
        var j :| 0 <= j < |init| && init[j] == p[|p| - 1];
        SortedPairwise(s, j, |s| - 1);
      }
    }
  }

  /** The prune keeps the first min(targetSz, size) entries and the order, removes nothing when
    * targetSz covers the heap, and beyond the prefix removes exactly the entries with more
    * than 20 errors over the last kept one. */
  lemma PrunedSpec(s: seq<ShortlistEntry>, targetSz: int)
    requires Sorted(s) && targetSz >= 1 && |s| >= 1
    ensures var r := Pruned(s, targetSz); var k := Min(targetSz, |s|);
      && Sorted(r) && |r| <= |s| && r[..k] == s[..k]
      && (targetSz >= |s| ==> r == s)
      && (forall x :: x in r[k..] <==> x in s[k..] && x.numErrors <= s[k - 1].numErrors + PRUNE_OFFSET)
  {
    var k := Min(targetSz, |s|);
    var bound := s[k - 1].numErrors + PRUNE_OFFSET;
    var tail := s[k..];
    var kept := KeepWithin(tail, bound);
    var r := Pruned(s, targetSz);
    assert Sorted(tail);
    KeepWithinMembers(tail, bound);
    KeepWithinSorted(tail, bound);
    assert r[..k] == s[..k] && r[k..] == kept;
    if |kept| > 0 {
      assert kept[0] in tail;
      var i :| 0 <= i < |tail| && tail[i] == kept[0];
      SortedPairwise(s, k - 1, k + i);
    }
    if targetSz >= |s| {
      assert tail == [];
      assert s[..k] == s;
    }
  }

  /** One step of the in-place prune: erasing the entry under the cursor, or stepping over it,
    * extends the filtered part by one entry of the original. */
  lemma PruneStep(s: seq<ShortlistEntry>, k: int, j: int, bound: int, h: seq<ShortlistEntry>, iter: int)
    requires 0 <= k <= j < |s|
    requires h == s[..k] + KeepWithin(s[k..j], bound) + s[j..]
    requires iter == k + |KeepWithin(s[k..j], bound)|
    ensures iter < |h| && h[iter] == s[j]
    ensures bound < s[j].numErrors ==>
      h[..iter] + h[iter + 1..] == s[..k] + KeepWithin(s[k..j + 1], bound) + s[j + 1..]
    ensures s[j].numErrors <= bound ==>
      h == s[..k] + KeepWithin(s[k..j + 1], bound) + s[j + 1..]
      && iter + 1 == k + |KeepWithin(s[k..j + 1], bound)|
    ensures |KeepWithin(s[k..j + 1], bound)| == |KeepWithin(s[k..j], bound)| + (if s[j].numErrors <= bound then 1 else 0)
  {
    assert s[k..j + 1][..j - k] == s[k..j];
    assert s[j..] == [s[j]] + s[j + 1..];
  }

  // ---------------------------------------------------------------------------------------
  // The error rate of an entry, as the source's float division numErrors / numWords compares:
  // an exact quotient for a positive word count; for zero words +infinity, -infinity or NaN.
  // Comparisons with NaN are false.

  datatype Quotient = Ratio(num: int, den: int) | PlusInfinity | MinusInfinity | NotANumber

  function WerOf(e: ShortlistEntry): (q: Quotient)
    ensures q.Ratio? ==> q.den > 0
  {
    if e.numWords > 0 then Ratio(e.numErrors, e.numWords)
    else if e.numWords < 0 then Ratio(-e.numErrors, -e.numWords)
    else if e.numErrors > 0 then PlusInfinity
    else if e.numErrors < 0 then MinusInfinity
    else NotANumber
  }

  predicate QuotientLess(x: Quotient, y: Quotient)
  {
    match (x, y)
    case (NotANumber, _) => false
    case (_, NotANumber) => false
    case (PlusInfinity, _) => false
    case (_, MinusInfinity) => false
    case (MinusInfinity, _) => true
    case (_, PlusInfinity) => true
    case (Ratio(a, b), Ratio(c, d)) => a * d < c * b
  }

  /** The candidate kept by the scan over `s`: the first entry, replaced by any later one whose
    * rate is strictly lower. */
  function BestOf(s: seq<ShortlistEntry>): Option<ShortlistEntry>
  {
    if |s| == 0 then None
    else match BestOf(s[..|s| - 1])
      case None => Some(s[|s| - 1])
      case Some(b) => if RateLess(s[|s| - 1], b) then Some(s[|s| - 1]) else Some(b)
  }

  /** The rate comparison the scan makes between two entries. */
  predicate RateLess(x: ShortlistEntry, y: ShortlistEntry)
  {
    QuotientLess(WerOf(x), WerOf(y))
  }

  /** With positive word counts the rate comparison is asymmetric and negatively transitive, so
    * a strict weak order. */
  lemma {:induction false} RateOrder(x: ShortlistEntry, y: ShortlistEntry, z: ShortlistEntry)
    requires x.numWords > 0 && y.numWords > 0 && z.numWords > 0
    ensures !(RateLess(x, y) && RateLess(y, x))
    ensures RateLess(x, y) ==> RateLess(x, z) || RateLess(z, y)
  {
    var a, b, c, d, e, f := x.numErrors, x.numWords, y.numErrors, y.numWords, z.numErrors, z.numWords;
    assert RateLess(x, y) <==> a * d < c * b;
    assert RateLess(x, z) <==> a * f < e * b;
    assert RateLess(z, y) <==> e * d < c * f;
    if a * d < c * b && e * b <= a * f {
      MulLeq(e * b, a * f, d);
      MulLess(a * d, c * b, f);
      assert (e * d) * b == (e * b) * d;
      assert (a * f) * d == (a * d) * f;
      assert (c * b) * f == (c * f) * b;
      CancelLess(e * d, c * f, b);
    }
  }

  lemma MulLess(u: int, v: int, m: int)
    requires u < v && m > 0
    ensures u * m < v * m
  {
  }

  lemma CancelLess(u: int, v: int, m: int)
    requires u * m < v * m && m > 0
    ensures u < v
  {
    if v <= u {
      MulLeq(v, u, m);
    }
  }

  lemma MulLeq(u: int, v: int, m: int)
    requires u <= v && m > 0
    ensures u * m <= v * m
  {
  }

  /** Entry k has a rate no other entry beats, and every entry before it has a higher one. */
  ghost predicate EarliestMinimum(s: seq<ShortlistEntry>, k: int)
    requires 0 <= k < |s|
  {
    && (forall j :: 0 <= j < |s| ==> !RateLess(s[j], s[k]))
    && (forall j :: 0 <= j < k ==> RateLess(s[k], s[j]))
  }

  /** A last entry below the earliest minimum of the rest is the earliest minimum of all. */
  lemma TakeLast(s: seq<ShortlistEntry>, k: int)
    requires |s| >= 2 && 0 <= k < |s| - 1 && forall i :: 0 <= i < |s| ==> s[i].numWords > 0
    requires EarliestMinimum(s[..|s| - 1], k) && RateLess(s[|s| - 1], s[k])
    ensures EarliestMinimum(s, |s| - 1)
  {
    var n := |s| - 1;
    forall j | 0 <= j < |s|
      ensures !RateLess(s[j], s[n])
      ensures j < n ==> RateLess(s[n], s[j])
    {
      RateOrder(s[j], s[n], s[j]);
      if j < n {
        assert s[j] == s[..n][j];
        RateOrder(s[n], s[k], s[j]);
        RateOrder(s[j], s[n], s[k]);
      }
    }
  }

  /** A last entry not below the earliest minimum of the rest leaves it the earliest minimum. */
  lemma KeepPrevious(s: seq<ShortlistEntry>, k: int)
    requires |s| >= 2 && 0 <= k < |s| - 1
    requires EarliestMinimum(s[..|s| - 1], k) && !RateLess(s[|s| - 1], s[k])
    ensures EarliestMinimum(s, k)
  {
    forall j | 0 <= j < |s| - 1
      ensures s[j] == s[..|s| - 1][j]
    {
    }
  }

  /** On entries with positive word counts the candidate is an entry of minimal rate, and the
    * earliest such: no entry has a lower rate, and every earlier entry has a higher one. */
  lemma {:induction false} BestOfIsEarliestMinimum(s: seq<ShortlistEntry>)
    requires forall i :: 0 <= i < |s| ==> s[i].numWords > 0
    ensures |s| == 0 <==> BestOf(s).None?
    ensures |s| > 0 ==> exists k :: 0 <= k < |s| && BestOf(s) == Some(s[k]) && EarliestMinimum(s, k)
  {
    if |s| == 1 {
      RateOrder(s[0], s[0], s[0]);
      assert BestOf(s[..0]) == None;
      assert EarliestMinimum(s, 0);
    } else if |s| > 1 {
      var init := s[..|s| - 1];
      BestOfIsEarliestMinimum(init);
      var k :| 0 <= k < |init| && BestOf(init) == Some(init[k]) && EarliestMinimum(init, k);
      assert init[k] == s[k];
      if RateLess(s[|s| - 1], s[k]) {
        TakeLast(s, k);
      } else {
        KeepPrevious(s, k);
      }
    }
  }

  // ---------------------------------------------------------------------------------------
  // The heap object.

  class PathHeap {
    /** The elements of the ordered set, least first. */
    var heap: seq<ShortlistEntry>
    var pruningErrorOffset: int
    var pruningIncludeInsInThreshold: bool

    ghost predicate Valid()
      reads this
    {
      Sorted(heap)
    }

    constructor ()
      ensures Valid() && heap == []
      ensures pruningErrorOffset == DEFAULT_PRUNING_ERROR_OFFSET && pruningIncludeInsInThreshold
    {
      heap := [];
      pruningErrorOffset := DEFAULT_PRUNING_ERROR_OFFSET;
      pruningIncludeInsInThreshold := true;
    }

    function Size(): (n: nat)
      reads this
      ensures n == |heap|
    {
      |heap|
    }

    method Insert(entry: ShortlistEntry)
      requires Valid()
      modifies this
      ensures Valid() && heap == InsertSorted(old(heap), entry)
      ensures pruningErrorOffset == old(pruningErrorOffset) && pruningIncludeInsInThreshold == old(pruningIncludeInsInThreshold)
    {
      InsertSortedSpec(heap, entry);
      heap := InsertSorted(heap, entry);
    }

    /** The least entry, removed; every entry left is above it. */
    method RemoveFirst() returns (first: ShortlistEntry)
      requires Valid() && |heap| > 0
      modifies this
      ensures Valid() && old(heap) == [first] + heap
      ensures forall x :: x in heap ==> Less(first, x)
      ensures pruningErrorOffset == old(pruningErrorOffset) && pruningIncludeInsInThreshold == old(pruningIncludeInsInThreshold)
    {
      first := heap[0];
      forall j | 0 < j < |heap|
        ensures Less(first, heap[j])
      {
        SortedPairwise(heap, 0, j);
      }
      heap := heap[1..];
    }

    /** Scans the heap in order keeping the first entry of strictly lowest rate; the first
      * entry is looked at twice, since the scan does not advance after taking it. */
    method GetBestWerCandidate() returns (best: Option<ShortlistEntry>)
      requires Valid()
      ensures best == BestOf(heap)
    {
      best := None;
      var bestWer := NotANumber;
      var i := 0;
      while i < |heap|
        invariant 0 <= i <= |heap|
        invariant i > 0 ==> best == BestOf(heap[..i])
        invariant i == 0 ==> best == None || (|heap| > 0 && best == Some(heap[0]))
        invariant best.Some? ==> bestWer == WerOf(best.value)
        decreases |heap| - i, if best.None? then 1 else 0
      {
        var entry := heap[i];
        var localWer := WerOf(entry);
        if best.None? {
          best := Some(entry);
          bestWer := localWer;
          continue;
        }
        if QuotientLess(localWer, bestWer) {
          bestWer := localWer;
          best := Some(entry);
        }
        assert heap[..i + 1][..i] == heap[..i];
        i := i + 1;
      }
      assert heap[..i] == heap;
    }

    /** Advances over the first min(targetSz, size) entries, then erases, in place, each later
      * entry whose numErrors exceeds the last passed entry's by more than 20; answers how
      * many were erased. */
    method Prune(targetSz: int) returns (pruned: int)
      requires Valid() && targetSz >= 1 && |heap| >= 1
      modifies this
      ensures Valid() && heap == Pruned(old(heap), targetSz)
      ensures pruned == |old(heap)| - |heap|
      ensures pruningErrorOffset == old(pruningErrorOffset) && pruningIncludeInsInThreshold == old(pruningIncludeInsInThreshold)
    {
      var sz := |heap|;
      var iter := 0;
      while iter < targetSz && iter < sz
        invariant 0 <= iter <= sz && iter <= targetSz
        invariant iter == Min(targetSz, sz) || (iter < targetSz && iter < sz)
        invariant heap == old(heap)
        invariant pruningErrorOffset == old(pruningErrorOffset) && pruningIncludeInsInThreshold == old(pruningIncludeInsInThreshold)
      {
        iter := iter + 1;
      }
      var last := heap[iter - 1];
      ghost var s := heap;
      ghost var k := iter;
      pruned := 0;
      ghost var j := k;
      while iter < |heap|
        invariant k <= j <= |s| && k <= iter <= |heap|
        invariant heap == s[..k] + KeepWithin(s[k..j], last.numErrors + PRUNE_OFFSET) + s[j..]
        invariant iter == k + |KeepWithin(s[k..j], last.numErrors + PRUNE_OFFSET)|
        invariant pruned == (j - k) - |KeepWithin(s[k..j], last.numErrors + PRUNE_OFFSET)|
        invariant |heap| - iter == |s| - j
        invariant pruningErrorOffset == old(pruningErrorOffset) && pruningIncludeInsInThreshold == old(pruningIncludeInsInThreshold)
        decreases |heap| - iter
      {
        PruneStep(s, k, j, last.numErrors + PRUNE_OFFSET, heap, iter);
        if last.numErrors + PRUNE_OFFSET < heap[iter].numErrors {
          heap := heap[..iter] + heap[iter + 1..];
          pruned := pruned + 1;
        } else {
          iter := iter + 1;
        }
        j := j + 1;
      }
      assert s[j..] == [] && s[k..j] == s[k..];
      assert k == Min(targetSz, |s|) && last == s[k - 1];
      assert heap == s[..k] + KeepWithin(s[k..], s[k - 1].numErrors + PRUNE_OFFSET);
      assert heap == Pruned(s, targetSz);
      PrunedSpec(s, targetSz);
    }
  }
}
