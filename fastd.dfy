// The Levenshtein pre-pass of src/fast-d.cpp: a unit-cost edit distance over
// integer token sequences, computed row by row, with a backtrack that marks the
// positions of both sequences that take part in a match.
module FastD {

  /** The three-way `min` of fast-d.cpp: the least of its arguments. */
  function Min3(a: int, b: int, c: int): (m: int)
    ensures m <= a && m <= b && m <= c
    ensures m == a || m == b || m == c
  {
    if a < b then (if a < c then a else c)
    else if b < c then b
    else c
  }

  /** The value the row recurrence of GetEditDistance holds in cell (i, j): the distance
    * between the first i tokens of `a` and the first j tokens of `b`. Equal tokens take
    * the diagonal; otherwise one more than the least of left, up and diagonal. */
  function D(a: seq<int>, b: seq<int>, i: nat, j: nat): nat
    requires i <= |a| && j <= |b|
    decreases i + j
  {
    if i == 0 then j
    else if j == 0 then i
    else if a[i - 1] == b[j - 1] then D(a, b, i - 1, j - 1)
    else Min3(D(a, b, i - 1, j), D(a, b, i, j - 1), D(a, b, i - 1, j - 1)) + 1
  }

  /** The edit distance GetEditDistance returns. */
  function Dist(a: seq<int>, b: seq<int>): nat
  {
    D(a, b, |a|, |b|)
  }

  /** The textbook Levenshtein distance, which always takes the cheapest of deleting,
    * inserting and substituting (a substitution of equal tokens costs nothing). */
  function Lev(a: seq<int>, b: seq<int>, i: nat, j: nat): nat
    requires i <= |a| && j <= |b|
    decreases i + j
  {
    if i == 0 then j
    else if j == 0 then i
    else Min3(Lev(a, b, i - 1, j) + 1, Lev(a, b, i, j - 1) + 1,
              Lev(a, b, i - 1, j - 1) + (if a[i - 1] == b[j - 1] then 0 else 1))
  }

  /** Cells (i, j) and (i2, j2) of the Levenshtein table differ by at most one. */
  ghost predicate LevNear(a: seq<int>, b: seq<int>, i: nat, j: nat, i2: nat, j2: nat)
    requires i <= |a| && j <= |b| && i2 <= |a| && j2 <= |b|
  {
    Lev(a, b, i, j) <= Lev(a, b, i2, j2) + 1 && Lev(a, b, i2, j2) <= Lev(a, b, i, j) + 1
  }

  /** Neighbouring cells of the Levenshtein table differ by at most one. */
  lemma {:induction false} LevAdjacent(a: seq<int>, b: seq<int>, i: nat, j: nat)
    requires i <= |a| && j <= |b|
    ensures i > 0 ==> LevNear(a, b, i - 1, j, i, j)
    ensures j > 0 ==> LevNear(a, b, i, j - 1, i, j)
    decreases i + j
  {
    if i > 0 && j > 0 {
      LevAdjacent(a, b, i - 1, j);
      LevAdjacent(a, b, i, j - 1);
    }
  }

  /** The row table and the Levenshtein table hold the same value in cell (i, j). */
  ghost predicate Agree(a: seq<int>, b: seq<int>, i: nat, j: nat)
    requires i <= |a| && j <= |b|
  {
    D(a, b, i, j) == Lev(a, b, i, j)
  }

  /** The recurrence of fast-d.cpp computes the Levenshtein distance: on equal tokens the
    * diagonal is never worse than a deletion or an insertion. */
  lemma {:induction false} DIsLev(a: seq<int>, b: seq<int>, i: nat, j: nat)
    requires i <= |a| && j <= |b|
    ensures Agree(a, b, i, j)
    decreases i + j, 1
  {
    if i > 0 && j > 0 {
      if a[i - 1] == b[j - 1] {
        DIsLevOnMatch(a, b, i, j);
      } else {
        DIsLevOnMismatch(a, b, i, j);
      }
    }
  }

  /** DIsLev at a cell whose tokens are equal. */
  lemma {:induction false} DIsLevOnMatch(a: seq<int>, b: seq<int>, i: nat, j: nat)
    requires 0 < i <= |a| && 0 < j <= |b| && a[i - 1] == b[j - 1]
    ensures Agree(a, b, i, j)
    decreases i + j, 0
  {
    DIsLev(a, b, i - 1, j - 1);
    LevAdjacent(a, b, i - 1, j);
    LevAdjacent(a, b, i, j - 1);
    AgreeOnMatch(a, b, i, j);
  }

  /** DIsLev at a cell whose tokens differ. */
  lemma {:induction false} DIsLevOnMismatch(a: seq<int>, b: seq<int>, i: nat, j: nat)
    requires 0 < i <= |a| && 0 < j <= |b| && a[i - 1] != b[j - 1]
    ensures Agree(a, b, i, j)
    decreases i + j, 0
  {
    DIsLev(a, b, i - 1, j - 1);
    DIsLev(a, b, i - 1, j);
    DIsLev(a, b, i, j - 1);
    AgreeOnMismatch(a, b, i, j);
  }

  /** On equal tokens the diagonal is the Levenshtein minimum. */
  lemma AgreeOnMatch(a: seq<int>, b: seq<int>, i: nat, j: nat)
    requires 0 < i <= |a| && 0 < j <= |b| && a[i - 1] == b[j - 1]
    requires Agree(a, b, i - 1, j - 1)
    requires LevNear(a, b, i - 1, j - 1, i - 1, j) && LevNear(a, b, i - 1, j - 1, i, j - 1)
    ensures Agree(a, b, i, j)
  {
  }

  /** On different tokens both recurrences add one to the least neighbour. */
  lemma AgreeOnMismatch(a: seq<int>, b: seq<int>, i: nat, j: nat)
    requires 0 < i <= |a| && 0 < j <= |b| && a[i - 1] != b[j - 1]
    requires Agree(a, b, i - 1, j - 1) && Agree(a, b, i - 1, j) && Agree(a, b, i, j - 1)
    ensures Agree(a, b, i, j)
  {
  }

  /** Cells (i, j) and (i2, j2) of the row table differ by at most one. */
  ghost predicate Near(a: seq<int>, b: seq<int>, i: nat, j: nat, i2: nat, j2: nat)
    requires i <= |a| && j <= |b| && i2 <= |a| && j2 <= |b|
  {
    D(a, b, i, j) <= D(a, b, i2, j2) + 1 && D(a, b, i2, j2) <= D(a, b, i, j) + 1
  }

  /** Neighbouring cells of the row table differ by at most one. */
  lemma DAdjacent(a: seq<int>, b: seq<int>, i: nat, j: nat)
    requires i <= |a| && j <= |b|
    ensures i > 0 ==> Near(a, b, i - 1, j, i, j)
    ensures j > 0 ==> Near(a, b, i, j - 1, i, j)
  {
    LevAdjacent(a, b, i, j);
    DIsLev(a, b, i, j);
    if i > 0 {
      DIsLev(a, b, i - 1, j);
    }
    if j > 0 {
      DIsLev(a, b, i, j - 1);
    }
  }

  /** Swapping the sequences transposes cell (i, j) of the table. */
  ghost predicate Transposed(a: seq<int>, b: seq<int>, i: nat, j: nat)
    requires i <= |a| && j <= |b|
  {
    D(a, b, i, j) == D(b, a, j, i)
  }

  /** The distance is symmetric: swapping the sequences transposes the table. */
  lemma {:induction false} DSymmetric(a: seq<int>, b: seq<int>, i: nat, j: nat)
    requires i <= |a| && j <= |b|
    ensures Transposed(a, b, i, j)
    decreases i + j, 1
  {
    if i > 0 && j > 0 {
      if a[i - 1] == b[j - 1] {
        DSymmetric(a, b, i - 1, j - 1);
      } else {
        DSymmetricOnMismatch(a, b, i, j);
      }
    }
  }

  /** DSymmetric at a cell whose tokens differ. */
  lemma {:induction false} DSymmetricOnMismatch(a: seq<int>, b: seq<int>, i: nat, j: nat)
    requires 0 < i <= |a| && 0 < j <= |b| && a[i - 1] != b[j - 1]
    ensures Transposed(a, b, i, j)
    decreases i + j, 0
  {
    DSymmetric(a, b, i - 1, j);
    DSymmetric(a, b, i, j - 1);
    DSymmetric(a, b, i - 1, j - 1);
  }

  lemma DistSymmetric(a: seq<int>, b: seq<int>)
    ensures Dist(a, b) == Dist(b, a)
  {
    DSymmetric(a, b, |a|, |b|);
  }

  /** A sequence is at distance 0 from itself. */
  lemma {:induction false} DistSelf(a: seq<int>, i: nat)
    requires i <= |a|
    ensures D(a, a, i, i) == 0
  {
    if i > 0 {
      DistSelf(a, i - 1);
    }
  }

  /** Cell (i, j) lies between the difference of i and j and the larger of the two. */
  ghost predicate Bounded(a: seq<int>, b: seq<int>, i: nat, j: nat)
    requires i <= |a| && j <= |b|
  {
    (if i < j then j - i else i - j) <= D(a, b, i, j) <= (if i < j then j else i)
  }

  /** The distance lies between the difference of the lengths and the longer length. */
  lemma {:induction false} DBounds(a: seq<int>, b: seq<int>, i: nat, j: nat)
    requires i <= |a| && j <= |b|
    ensures Bounded(a, b, i, j)
    decreases i + j, 1
  {
    if i > 0 && j > 0 {
      if a[i - 1] == b[j - 1] {
        DBounds(a, b, i - 1, j - 1);
      } else {
        DBoundsOnMismatch(a, b, i, j);
      }
    }
  }

  /** DBounds at a cell whose tokens differ. */
  lemma {:induction false} DBoundsOnMismatch(a: seq<int>, b: seq<int>, i: nat, j: nat)
    requires 0 < i <= |a| && 0 < j <= |b| && a[i - 1] != b[j - 1]
    ensures Bounded(a, b, i, j)
    decreases i + j, 0
  {
    DBounds(a, b, i - 1, j);
    DBounds(a, b, i, j - 1);
    DBounds(a, b, i - 1, j - 1);
  }

  /** Equal prefixes are at distance zero. */
  lemma {:induction false} DZeroOfEqual(a: seq<int>, b: seq<int>, i: nat)
    requires i <= |a| && i <= |b| && a[..i] == b[..i]
    ensures D(a, b, i, i) == 0
  {
    if i > 0 {
      assert a[i - 1] == a[..i][i - 1];
      assert a[..i - 1] == a[..i][..i - 1] && b[..i - 1] == b[..i][..i - 1];
      DZeroOfEqual(a, b, i - 1);
    }
  }

  /** Only equal prefixes are at distance zero. */
  lemma {:induction false} DZeroOnlyEqual(a: seq<int>, b: seq<int>, i: nat, j: nat)
    requires i <= |a| && j <= |b| && D(a, b, i, j) == 0
    ensures i == j && a[..i] == b[..j]
    decreases i
  {
    DBounds(a, b, i, j);
    if i > 0 {
      assert a[i - 1] == b[j - 1];
      DZeroOnlyEqual(a, b, i - 1, j - 1);
      assert a[..i] == a[..i - 1] + [a[i - 1]];
      assert b[..j] == b[..j - 1] + [b[j - 1]];
    }
  }

  /** Distance zero means the prefixes are equal. */
  lemma DZero(a: seq<int>, b: seq<int>, i: nat, j: nat)
    requires i <= |a| && j <= |b|
    ensures D(a, b, i, j) == 0 <==> i == j && a[..i] == b[..j]
  {
    if D(a, b, i, j) == 0 {
      DZeroOnlyEqual(a, b, i, j);
    }
    if i == j && a[..i] == b[..j] {
      DZeroOfEqual(a, b, i);
    }
  }

  lemma DistZeroIff(a: seq<int>, b: seq<int>)
    ensures Dist(a, b) == 0 <==> a == b
  {
    DZero(a, b, |a|, |b|);
    assert a[..|a|] == a && b[..|b|] == b;
  }

  /** The number of positions where two sequences of the same length differ. */
  function Mismatches(a: seq<int>, b: seq<int>): nat
    requires |a| == |b|
  {
    if |a| == 0 then 0
    else Mismatches(a[..|a| - 1], b[..|b| - 1]) + (if a[|a| - 1] == b[|b| - 1] then 0 else 1)
  }

  /** Substituting every mismatch is one way to edit, so the distance is at most the number
    * of mismatches. */
  lemma {:induction false} DAtMostMismatches(a: seq<int>, b: seq<int>, i: nat)
    requires |a| == |b| && i <= |a|
    ensures D(a, b, i, i) <= Mismatches(a[..i], b[..i])
  {
    if i > 0 {
      DAtMostMismatches(a, b, i - 1);
      assert a[..i][..i - 1] == a[..i - 1];
      assert b[..i][..i - 1] == b[..i - 1];
    }
  }

  /** The first worked example: one substituted token. */
  lemma OneSubstitution()
    ensures Dist([1, 2, 3, 4, 5], [1, 2, 8, 4, 5]) == 1
  {
    var a, b := [1, 2, 3, 4, 5], [1, 2, 8, 4, 5];
    DAtMostMismatches(a, b, 5);
    assert a[..5] == a && b[..5] == b;
    DistZeroIff(a, b);
  }

  /** The same example the other way round. */
  lemma OneSubstitutionSwapped()
    ensures Dist([1, 2, 8, 4, 5], [1, 2, 3, 4, 5]) == 1
  {
    OneSubstitution();
    DistSymmetric([1, 2, 3, 4, 5], [1, 2, 8, 4, 5]);
  }

  /** One token against five: four deletions, whichever token it is. */
  lemma OneTargetExamples()
    ensures Dist([1, 2, 3, 4, 5], [1]) == 4 && Dist([1, 2, 3, 4, 5], [2]) == 4
    ensures Dist([1, 2, 3, 4, 5], [3]) == 4 && Dist([1, 2, 3, 4, 5], [4]) == 4
    ensures Dist([1, 2, 3, 4, 5], [5]) == 4
  {
  }

  /** A common suffix costs nothing, so a token inserted in front costs one. */
  lemma SingleInsertExample()
    ensures Dist([1, 1, 2, 3, 4, 5], [1, 2, 3, 4, 5]) == 1
  {
    var a, b := [1, 1, 2, 3, 4, 5], [1, 2, 3, 4, 5];
    assert D(a, b, 6, 5) == D(a, b, 5, 4) == D(a, b, 4, 3) == D(a, b, 3, 2) == D(a, b, 2, 1) == D(a, b, 1, 0);
  }

  /** Ten tokens in front of a common suffix cost ten. */
  lemma LeftInsertExamples()
    ensures Dist([1, 2, 3, 4, 5], [8, 8, 8, 8, 8, 8, 8, 8, 8, 8, 1, 2, 3, 4, 5]) == 10
    ensures Dist([1, 2, 3, 4, 5], [8, 8, 8, 8, 8, 1, 8, 8, 8, 8, 1, 2, 3, 4, 5]) == 10
  {
    var a, b := [1, 2, 3, 4, 5], [8, 8, 8, 8, 8, 8, 8, 8, 8, 8, 1, 2, 3, 4, 5];
    assert D(a, b, 5, 15) == D(a, b, 4, 14) == D(a, b, 3, 13) == D(a, b, 2, 12) == D(a, b, 1, 11) == D(a, b, 0, 10);
    var c := [8, 8, 8, 8, 8, 1, 8, 8, 8, 8, 1, 2, 3, 4, 5];
    assert D(a, c, 5, 15) == D(a, c, 4, 14) == D(a, c, 3, 13) == D(a, c, 2, 12) == D(a, c, 1, 11) == D(a, c, 0, 10);
  }

  /** Deleting every token of one sequence costs its length. */
  lemma EmptyDistances(a: seq<int>)
    ensures Dist(a, []) == |a| && Dist([], a) == |a|
  {
  }

  /** The shorter sequence goes first in the row table. */
  lemma ShorterFirst(a: seq<int>, b: seq<int>)
    ensures |a| > |b| ==> Dist(a, b) == D(b, a, |b|, |a|)
  {
    DSymmetric(a, b, |a|, |b|);
  }

  // ---------------------------------------------------------------------------
  // Maps

  /** std::vector::resize(n, -1): entries that fit are kept, new slots hold -1. */
  function Resize(m: seq<int>, n: nat): (r: seq<int>)
    ensures |r| == n
    ensures forall k :: 0 <= k < n ==> r[k] == if k < |m| then m[k] else -1
  {
    if |m| >= n then m[..n] else m + seq(n - |m|, _ => -1)
  }

  /** The slots of `m` named in `ks` set to 1. */
  function Mark(m: seq<int>, ks: set<int>): (r: seq<int>)
    ensures |r| == |m|
    ensures forall k :: 0 <= k < |m| ==> r[k] == if k in ks then 1 else m[k]
  {
    seq(|m|, k requires 0 <= k < |m| => if k in ks then 1 else m[k])
  }

  function Firsts(marks: seq<(int, int)>): set<int>
  {
    set p | p in marks :: p.0
  }

  function Seconds(marks: seq<(int, int)>): set<int>
  {
    set p | p in marks :: p.1
  }

  function Swap(marks: seq<(int, int)>): (r: seq<(int, int)>)
    ensures |r| == |marks|
    ensures forall k :: 0 <= k < |marks| ==> r[k] == (marks[k].1, marks[k].0)
  {
    seq(|marks|, k requires 0 <= k < |marks| => (marks[k].1, marks[k].0))
  }

  /** The pairs a backtrack may mark: positions of equal tokens, strictly decreasing in
    * both sequences, so they never cross. */
  ghost predicate Pairing(a: seq<int>, b: seq<int>, marks: seq<(int, int)>)
  {
    && (forall k :: 0 <= k < |marks| ==> 0 <= marks[k].0 < |a| && 0 <= marks[k].1 < |b| && a[marks[k].0] == b[marks[k].1])
    && (forall k, l :: 0 <= k < l < |marks| ==> marks[l].0 < marks[k].0 && marks[l].1 < marks[k].1)
  }

  lemma SwapPairing(a: seq<int>, b: seq<int>, marks: seq<(int, int)>)
    requires Pairing(a, b, marks)
    ensures Pairing(b, a, Swap(marks))
    ensures Firsts(Swap(marks)) == Seconds(marks) && Seconds(Swap(marks)) == Firsts(marks)
  {
    FirstsOfSwap(marks);
    SecondsOfSwap(marks);
  }

  lemma FirstsOfSwap(marks: seq<(int, int)>)
    ensures Firsts(Swap(marks)) == Seconds(marks)
  {
    var s := Swap(marks);
    forall x | x in Firsts(s) ensures x in Seconds(marks) {
      var p :| p in s && p.0 == x;
      var k :| 0 <= k < |s| && s[k] == p;
      assert marks[k] in marks;
    }
    forall x | x in Seconds(marks) ensures x in Firsts(s) {
      var p :| p in marks && p.1 == x;
      var k :| 0 <= k < |marks| && marks[k] == p;
      assert s[k] in s;
    }
  }

  lemma SecondsOfSwap(marks: seq<(int, int)>)
    ensures Seconds(Swap(marks)) == Firsts(marks)
  {
    var s := Swap(marks);
    forall x | x in Seconds(s) ensures x in Firsts(marks) {
      var p :| p in s && p.1 == x;
      var k :| 0 <= k < |s| && s[k] == p;
      assert marks[k] in marks;
    }
    forall x | x in Firsts(marks) ensures x in Seconds(s) {
      var p :| p in marks && p.0 == x;
      var k :| 0 <= k < |marks| && marks[k] == p;
      assert s[k] in s;
    }
  }

  // ---------------------------------------------------------------------------
  // The backtrack path

  /** The four cells one backtrack step reads at (i, j): up-left, up, left and the current
    * cell. After a step to the left ("stale") both arrays hold the row above, so the left
    * cell reads as the up-left one and the current cell as the one above. */
  function StepCells(a: seq<int>, b: seq<int>, i: nat, j: nat, stale: bool): (int, int, int, int)
    requires 0 < i <= |a| && 0 < j <= |b|
  {
    if stale then (D(a, b, i - 1, j - 1), D(a, b, i, j - 1), D(a, b, i - 1, j - 1), D(a, b, i, j - 1))
    else (D(a, b, i - 1, j - 1), D(a, b, i, j - 1), D(a, b, i - 1, j), D(a, b, i, j))
  }

  /** The pair one step from (i, j) records: (i - 1, j - 1) when the up-left cell is least
    * and equals the current one, else none. */
  function StepMark(a: seq<int>, b: seq<int>, i: nat, j: nat, stale: bool): seq<(int, int)>
    requires 0 < i <= |a| && 0 < j <= |b|
  {
    var (nw, n, w, cs) := StepCells(a, b, i, j, stale);
    if Min3(nw, n, w) == nw && nw == cs then [(i - 1, j - 1)] else []
  }

  /** Where one step from (i, j) moves: up-left when that cell is least, else left (the
    * arrays then go stale), else up. */
  function StepMove(a: seq<int>, b: seq<int>, i: nat, j: nat, stale: bool): (r: (nat, nat, bool))
    requires 0 < i <= |a| && 0 < j <= |b|
    ensures r.0 + r.1 < i + j && r.0 <= i && r.1 <= j
  {
    var (nw, n, w, cs) := StepCells(a, b, i, j, stale);
    var m := Min3(nw, n, w);
    if m == nw then (i - 1, j - 1, false) else if m == w then (i - 1, j, true) else (i, j - 1, false)
  }

  /** The pairs the backtrack records from cell (i, j) on, in the order it records them; it
    * stops as soon as either index reaches 0. */
  function BacktrackFrom(a: seq<int>, b: seq<int>, i: nat, j: nat, stale: bool): seq<(int, int)>
    requires i <= |a| && j <= |b|
    decreases i + j
  {
    if i == 0 || j == 0 then []
    else
      var (i', j', stale') := StepMove(a, b, i, j, stale);
      StepMark(a, b, i, j, stale) + BacktrackFrom(a, b, i', j', stale')
  }

  /** The pairs GetEditDistance marks: the backtrack from the bottom-right cell with the
    * shorter sequence first, swapped back when the call swapped the sequences. */
  function BacktrackMarks(a: seq<int>, b: seq<int>): seq<(int, int)>
    decreases if |a| > |b| then 1 else 0
  {
    if |a| > |b| then Swap(BacktrackMarks(b, a)) else BacktrackFrom(a, b, |a|, |b|, false)
  }

  /** One step from a cell that keeps the stale condition: a recorded pair links equal
    * tokens, and a step to the left lands on a cell one below its upper neighbour. */
  lemma StepSound(a: seq<int>, b: seq<int>, i: nat, j: nat, stale: bool)
    requires 0 < i <= |a| && 0 < j <= |b|
    requires stale ==> D(a, b, i, j) + 1 == D(a, b, i, j - 1)
    ensures |StepMark(a, b, i, j, stale)| == 1 ==>
      StepMark(a, b, i, j, stale) == [(i - 1, j - 1)] && a[i - 1] == b[j - 1]
      && StepMove(a, b, i, j, stale) == (i - 1, j - 1, false)
    ensures var (i', j', stale') := StepMove(a, b, i, j, stale);
      stale' && 0 < i' && 0 < j' ==> D(a, b, i', j') + 1 == D(a, b, i', j' - 1)
  {
    var (nw, n, w, cs) := StepCells(a, b, i, j, stale);
    if Min3(nw, n, w) == nw && nw == cs {
      if stale {
        StaleMatch(a, b, i, j);
      } else {
        FreshMatch(a, b, i, j);
      }
    }
    DAdjacent(a, b, i - 1, j);
  }

  /** A pair of equal tokens in front of a pairing that lies above and to the left of all of it. */
  lemma PairingCons(a: seq<int>, b: seq<int>, p: (int, int), rest: seq<(int, int)>)
    requires 0 <= p.0 < |a| && 0 <= p.1 < |b| && a[p.0] == b[p.1] && Pairing(a, b, rest)
    requires forall k :: 0 <= k < |rest| ==> rest[k].0 < p.0 && rest[k].1 < p.1
    ensures Pairing(a, b, [p] + rest)
  {
    var r := [p] + rest;
    forall k, l | 0 <= k < l < |r| ensures r[l].0 < r[k].0 && r[l].1 < r[k].1 {
      assert r[l] == rest[l - 1];
      if k > 0 {
        assert r[k] == rest[k - 1];
      }
    }
  }

  /** Every pair the backtrack records from (i, j) lies above and to the left of (i, j). */
  lemma {:induction false} BacktrackFromBelow(a: seq<int>, b: seq<int>, i: nat, j: nat, stale: bool)
    requires i <= |a| && j <= |b|
    ensures forall k :: 0 <= k < |BacktrackFrom(a, b, i, j, stale)| ==>
      BacktrackFrom(a, b, i, j, stale)[k].0 < i && BacktrackFrom(a, b, i, j, stale)[k].1 < j
    decreases i + j
  {
    if i > 0 && j > 0 {
      var m := StepMove(a, b, i, j, stale);
      BacktrackFromBelow(a, b, m.0, m.1, m.2);
      var head, rest := StepMark(a, b, i, j, stale), BacktrackFrom(a, b, m.0, m.1, m.2);
      assert BacktrackFrom(a, b, i, j, stale) == head + rest;
    }
  }

  /** Every pair the backtrack records from (i, j) links equal tokens, and the pairs never
    * cross. */
  lemma {:induction false} BacktrackFromPairing(a: seq<int>, b: seq<int>, i: nat, j: nat, stale: bool)
    requires i <= |a| && j <= |b|
    requires stale && 0 < i && 0 < j ==> D(a, b, i, j) + 1 == D(a, b, i, j - 1)
    ensures Pairing(a, b, BacktrackFrom(a, b, i, j, stale))
    decreases i + j
  {
    if i > 0 && j > 0 {
      StepSound(a, b, i, j, stale);
      var m := StepMove(a, b, i, j, stale);
      BacktrackFromPairing(a, b, m.0, m.1, m.2);
      var head, rest := StepMark(a, b, i, j, stale), BacktrackFrom(a, b, m.0, m.1, m.2);
      assert BacktrackFrom(a, b, i, j, stale) == head + rest;
      if |head| == 1 {
        BacktrackFromBelow(a, b, m.0, m.1, m.2);
        PairingCons(a, b, (i - 1, j - 1), rest);
      } else {
        assert head + rest == rest;
      }
    }
  }

  /** One step of the backtrack moves its own mark from the rest of the path to the
    * pairs recorded so far. */
  lemma BacktrackAdvance(a: seq<int>, b: seq<int>, marks: seq<(int, int)>, i: nat, j: nat, stale: bool)
    requires 0 < i <= |a| && 0 < j <= |b|
    ensures var (i', j', stale') := StepMove(a, b, i, j, stale);
      marks + BacktrackFrom(a, b, i, j, stale) == (marks + StepMark(a, b, i, j, stale)) + BacktrackFrom(a, b, i', j', stale')
  {
  }

  /** The pairs GetEditDistance marks link equal tokens and never cross. */
  lemma BacktrackMarksPairing(a: seq<int>, b: seq<int>)
    ensures Pairing(a, b, BacktrackMarks(a, b))
  {
    if |a| > |b| {
      BacktrackFromPairing(b, a, |b|, |a|, false);
      SwapPairing(b, a, BacktrackMarks(b, a));
    } else {
      BacktrackFromPairing(a, b, |a|, |b|, false);
    }
  }

  /** The backtrack along the diagonal of a sequence against itself. */
  function Diagonal(i: nat): (r: seq<(int, int)>)
    ensures |r| == i && forall k :: 0 <= k < i ==> r[k] == (i - 1 - k, i - 1 - k)
  {
    if i == 0 then [] else [(i - 1, i - 1)] + Diagonal(i - 1)
  }

  /** Against itself the backtrack walks the diagonal and records every position. */
  lemma {:induction false} BacktrackSelf(a: seq<int>, i: nat)
    requires i <= |a|
    ensures BacktrackFrom(a, a, i, i, false) == Diagonal(i)
    decreases i
  {
    if i > 0 {
      DistSelf(a, i - 1);
      DistSelf(a, i);
      DBounds(a, a, i, i - 1);
      DBounds(a, a, i - 1, i);
      assert StepCells(a, a, i, i, false) == (0, D(a, a, i, i - 1), D(a, a, i - 1, i), 0);
      assert StepMove(a, a, i, i, false) == (i - 1, i - 1, false);
      BacktrackSelf(a, i - 1);
    }
  }

  /** Aligning a sequence with itself marks every slot of both maps. */
  lemma SelfMarksEverySlot(a: seq<int>, m: seq<int>)
    requires |m| == |a|
    ensures forall k :: 0 <= k < |a| ==> Mark(m, Firsts(BacktrackMarks(a, a)))[k] == 1
    ensures forall k :: 0 <= k < |a| ==> Mark(m, Seconds(BacktrackMarks(a, a)))[k] == 1
  {
    BacktrackSelf(a, |a|);
    var d := Diagonal(|a|);
    forall k | 0 <= k < |a| ensures k in Firsts(d) && k in Seconds(d) {
      assert d[|a| - 1 - k] == (k, k);
      assert d[|a| - 1 - k] in d;
    }
  }

  // ---------------------------------------------------------------------------
  // The computation

  /** GetEditDistance(seqA, seqB): the distance, with throw-away maps. */
  method GetEditDistanceNoMaps(seqA: seq<int>, seqB: seq<int>) returns (d: int)
    ensures d == Dist(seqA, seqB)
  {
    var mapA, mapB;
    ghost var marks;
    d, mapA, mapB, marks := GetEditDistance(seqA, [], seqB, []);
  }

  /** GetEditDistance(seqA, mapA, seqB, mapB): the distance, and the maps resized to the
    * sequences with 1 written at every position the backtrack pairs with an equal token. */
  method GetEditDistance(seqA: seq<int>, mapA: seq<int>, seqB: seq<int>, mapB: seq<int>)
      returns (d: int, mapA': seq<int>, mapB': seq<int>, ghost marks: seq<(int, int)>)
    ensures d == Dist(seqA, seqB)
    ensures marks == BacktrackMarks(seqA, seqB) && Pairing(seqA, seqB, marks)
    ensures mapA' == Mark(Resize(mapA, |seqA|), Firsts(marks))
    ensures mapB' == Mark(Resize(mapB, |seqB|), Seconds(marks))
    decreases if |seqA| > |seqB| then 1 else 0
  {
    if |seqA| > |seqB| {
      ghost var swapped;
      d, mapB', mapA', swapped := GetEditDistance(seqB, mapB, seqA, mapA);
      DistSymmetric(seqA, seqB);
      SwapPairing(seqB, seqA, swapped);
      marks := Swap(swapped);
      return;
    }
    mapA' := Resize(mapA, |seqA|);
    mapB' := Resize(mapB, |seqB|);
    marks := [];
    // The source also returns |seqA| for an empty seqB; with seqA the shorter one that
    // case is already the empty-seqA case.
    if |seqA| == 0 {
      assert mapA' == Mark(Resize(mapA, |seqA|), {});
      assert mapB' == Mark(Resize(mapB, |seqB|), {});
      return |seqB|, mapA', mapB', marks;
    }
    var distance, distancePrev, allDistances := FillRows(seqA, seqB);
    d := distance[|seqA|];
    mapA', mapB', marks := Backtrack(seqA, seqB, distance, distancePrev, allDistances, mapA', mapB');
  }

  /** GetEditDistanceOnly: the same distance, keeping a single row and no maps. */
  method GetEditDistanceOnly(seqA: seq<int>, seqB: seq<int>) returns (d: int)
    ensures d == Dist(seqA, seqB)
    decreases if |seqA| > |seqB| then 1 else 0
  {
    if |seqA| > |seqB| {
      d := GetEditDistanceOnly(seqB, seqA);
      DistSymmetric(seqA, seqB);
      return;
    }
    if |seqA| == 0 {
      return |seqB|;
    }
    var lengthA := |seqA|;
    var distance := new int[lengthA + 1];
    for i := 0 to lengthA + 1
      invariant forall x :: 0 <= x < i ==> distance[x] == x
    {
      distance[i] := i;
    }
    for j := 1 to |seqB| + 1
      invariant IsRow(seqA, seqB, distance[..], j - 1)
    {
      NextRow(seqA, seqB, distance, j);
    }
    d := distance[lengthA];
  }

  /** Cells 0..|a| of row j of the table. */
  ghost predicate IsRow(a: seq<int>, b: seq<int>, row: seq<int>, j: nat)
    requires j <= |b|
  {
    |row| == |a| + 1 && forall x {:trigger row[x]} :: 0 <= x <= |a| ==> CellIs(a, b, x, j, row[x])
  }

  /** The forward pass: every row of the table is kept, and the last two rows are left in
    * `distance` and `distancePrev`. */
  method FillRows(seqA: seq<int>, seqB: seq<int>) returns (distance: array<int>, distancePrev: array<int>, allDistances: seq<seq<int>>)
    requires 0 < |seqA| <= |seqB|
    ensures fresh(distance) && fresh(distancePrev) && distance != distancePrev
    ensures IsRow(seqA, seqB, distance[..], |seqB|)
    ensures IsRow(seqA, seqB, distancePrev[..], |seqB| - 1)
    ensures |allDistances| == |seqB| + 1
    ensures forall k :: 0 <= k <= |seqB| ==> IsRow(seqA, seqB, allDistances[k], k)
  {
    var lengthA, lengthB := |seqA|, |seqB|;
    distance := new int[lengthA + 1];
    distancePrev := new int[lengthA + 1];
    for i := 0 to lengthA + 1
      invariant forall x :: 0 <= x < i ==> distance[x] == x
    {
      distance[i] := i;
    }
    allDistances := [];
    for j := 1 to lengthB + 1
      invariant |allDistances| == j - 1
      invariant forall k :: 0 <= k < j - 1 ==> IsRow(seqA, seqB, allDistances[k], k)
      invariant IsRow(seqA, seqB, distance[..], j - 1)
      invariant j >= 2 ==> IsRow(seqA, seqB, distancePrev[..], j - 2)
    {
      allDistances := allDistances + [distance[..]];
      CopyRow(distance, distancePrev);
      NextRow(seqA, seqB, distance, j);
    }
    allDistances := allDistances + [distance[..]];
  }

  /** One pass of the inner loop: row j - 1 of the table becomes row j, in place, with
    * `prevDiag` carrying the old value of the cell up and to the left. */
  method NextRow(seqA: seq<int>, seqB: seq<int>, distance: array<int>, j: nat)
    requires 0 < j <= |seqB|
    requires IsRow(seqA, seqB, distance[..], j - 1)
    modifies distance
    ensures IsRow(seqA, seqB, distance[..], j)
  {
    var lengthA := |seqA|;
    var prevDiag := distance[0];
    distance[0] := distance[0] + 1;
    for i := 1 to lengthA + 1
      invariant distance.Length == lengthA + 1
      invariant forall x {:trigger distance[x]} :: 0 <= x < i ==> CellIs(seqA, seqB, x, j, distance[x])
      invariant forall x {:trigger distance[x]} :: i <= x <= lengthA ==> CellIs(seqA, seqB, x, j - 1, distance[x])
      invariant CellIs(seqA, seqB, i - 1, j - 1, prevDiag)
    {
      var prevDiagSave := distance[i];
      var cell := Cell(seqA, seqB, i, j, distance[i - 1], distance[i], prevDiag);
      distance[i] := cell;
      prevDiag := prevDiagSave;
    }
  }

  /** Cell (i, j) of the table holds v. */
  ghost predicate CellIs(a: seq<int>, b: seq<int>, i: nat, j: nat, v: int)
    requires i <= |a| && j <= |b|
  {
    v == D(a, b, i, j)
  }

  /** The value of cell (i, j) from its left, upper and diagonal neighbours. */
  method Cell(seqA: seq<int>, seqB: seq<int>, i: nat, j: nat, left: int, up: int, diag: int) returns (cell: int)
    requires 0 < i <= |seqA| && 0 < j <= |seqB|
    requires CellIs(seqA, seqB, i - 1, j, left) && CellIs(seqA, seqB, i, j - 1, up) && CellIs(seqA, seqB, i - 1, j - 1, diag)
    ensures CellIs(seqA, seqB, i, j, cell)
  {
    if seqA[i - 1] == seqB[j - 1] {
      cell := diag;
    } else {
      cell := Min3(left, up, diag) + 1;
    }
  }

  /** std::copy of one row into another. */
  method CopyRow(src: array<int>, dst: array<int>)
    requires src.Length == dst.Length && src != dst
    modifies dst
    ensures dst[..] == src[..]
  {
    for x := 0 to src.Length
      invariant forall y :: 0 <= y < x ==> dst[y] == src[y]
    {
      dst[x] := src[x];
    }
  }

  /** Copy a kept row back into an array. */
  method LoadRow(v: seq<int>, dst: array<int>)
    requires |v| == dst.Length
    modifies dst
    ensures dst[..] == v
  {
    for j := 0 to dst.Length
      invariant forall y :: 0 <= y < j ==> dst[y] == v[y]
    {
      dst[j] := v[j];
    }
  }

  /** A diagonal step whose cell value equals its diagonal neighbour, the least of the three
    * neighbours, pairs equal tokens. */
  lemma FreshMatch(a: seq<int>, b: seq<int>, i: nat, j: nat)
    requires 0 < i <= |a| && 0 < j <= |b|
    requires D(a, b, i - 1, j - 1) == D(a, b, i, j)
    requires D(a, b, i - 1, j - 1) <= D(a, b, i - 1, j) && D(a, b, i - 1, j - 1) <= D(a, b, i, j - 1)
    ensures a[i - 1] == b[j - 1]
  {
  }

  /** The same after a step to the left, when the arrays hold the row above: the cell to
    * the left of the last deletion is one below the cell above it, and the row above
    * shows no change across the pair. */
  lemma StaleMatch(a: seq<int>, b: seq<int>, i: nat, j: nat)
    requires 0 < i <= |a| && 0 < j <= |b|
    requires D(a, b, i, j) + 1 == D(a, b, i, j - 1)
    requires D(a, b, i - 1, j - 1) == D(a, b, i, j - 1)
    ensures a[i - 1] == b[j - 1]
  {
    DAdjacent(a, b, i - 1, j);
  }

  /** Where the backtrack stands: at cell (i, j), with `row` and `prev` holding rows j and
    * j - 1 of the table, or, after a step to the left ("stale"), both holding row j - 1;
    * a stale cell is one below its upper neighbour. */
  ghost predicate Cursor(a: seq<int>, b: seq<int>, row: seq<int>, prev: seq<int>, i: int, j: int, stale: bool)
  {
    && 0 <= i <= |a| && 0 < j <= |b|
    && IsRow(a, b, row, if stale then j - 1 else j) && IsRow(a, b, prev, j - 1)
    && (stale ==> D(a, b, i, j) + 1 == D(a, b, i, j - 1))
  }

  /** What one backtrack step may conclude from the four cells it reads: in the current
    * row table (`stale` false) or with the row above loaded into both arrays. */
  lemma StepFacts(a: seq<int>, b: seq<int>, row: seq<int>, prev: seq<int>, i: int, j: int, stale: bool)
    requires 0 < i && Cursor(a, b, row, prev, i, j, stale)
    ensures var nw, n, w, cs := prev[i - 1], prev[i], row[i - 1], row[i];
      && (Min3(nw, n, w) == nw && nw == cs ==> a[i - 1] == b[j - 1])
      && (Min3(nw, n, w) != nw && Min3(nw, n, w) == w ==> D(a, b, i - 1, j) + 1 == D(a, b, i - 1, j - 1))
      && (nw, n, w, cs) == StepCells(a, b, i, j, stale)
  {
    var nw, n, w, cs := prev[i - 1], prev[i], row[i - 1], row[i];
    assert nw == D(a, b, i - 1, j - 1) && n == D(a, b, i, j - 1);
    if stale {
      assert w == nw && cs == n;
    } else {
      assert w == D(a, b, i - 1, j) && cs == D(a, b, i, j);
    }
    if Min3(nw, n, w) == nw && nw == cs {
      if stale {
        StaleMatch(a, b, i, j);
      } else {
        FreshMatch(a, b, i, j);
      }
    }
    DAdjacent(a, b, i - 1, j);
  }

  /** After a step and the reload of the arrays (the old row above moves down, the row above
    * the new cell is loaded), the backtrack stands at its new cell. */
  lemma Reloaded(a: seq<int>, b: seq<int>, above: seq<int>, next: seq<int>, i: int, j: int, j0: int, stale: bool)
    requires 0 <= i <= |a| && 0 < j <= |b| && 0 < j0 <= |b|
    requires IsRow(a, b, above, j0 - 1) && IsRow(a, b, next, j - 1)
    requires if stale then j == j0 && D(a, b, i, j) + 1 == D(a, b, i, j - 1) else j == j0 - 1
    ensures Cursor(a, b, above, next, i, j, stale)
  {
  }

  /** The marks all lie below and to the right of cell (i, j). */
  ghost predicate Behind(marks: seq<(int, int)>, i: int, j: int)
  {
    forall k :: 0 <= k < |marks| ==> i <= marks[k].0 && j <= marks[k].1
  }

  /** Recording one more pair below and to the left of every earlier one. */
  lemma AddMark(a: seq<int>, b: seq<int>, mapA: seq<int>, mapB: seq<int>, marks: seq<(int, int)>, p: (int, int))
    requires Pairing(a, b, marks)
    requires forall k :: 0 <= k < |marks| ==> p.0 < marks[k].0 && p.1 < marks[k].1
    requires 0 <= p.0 < |a| && 0 <= p.1 < |b| && a[p.0] == b[p.1]
    requires |mapA| == |a| && |mapB| == |b|
    ensures Pairing(a, b, marks + [p])
    ensures Mark(mapA, Firsts(marks + [p])) == Mark(mapA, Firsts(marks))[p.0 := 1]
    ensures Mark(mapB, Seconds(marks + [p])) == Mark(mapB, Seconds(marks))[p.1 := 1]
  {
    PairingSnoc(a, b, marks, p);
    SidesSnoc(marks, p);
    MarkOneMore(mapA, Firsts(marks), p.0);
    MarkOneMore(mapB, Seconds(marks), p.1);
  }

  lemma PairingSnoc(a: seq<int>, b: seq<int>, marks: seq<(int, int)>, p: (int, int))
    requires Pairing(a, b, marks)
    requires forall k :: 0 <= k < |marks| ==> p.0 < marks[k].0 && p.1 < marks[k].1
    requires 0 <= p.0 < |a| && 0 <= p.1 < |b| && a[p.0] == b[p.1]
    ensures Pairing(a, b, marks + [p])
  {
  }

  lemma SidesSnoc(marks: seq<(int, int)>, p: (int, int))
    ensures Firsts(marks + [p]) == Firsts(marks) + {p.0}
    ensures Seconds(marks + [p]) == Seconds(marks) + {p.1}
  {
  }

  /** Marking one more slot is an update of that slot to 1. */
  lemma MarkOneMore(m: seq<int>, ks: set<int>, x: int)
    requires 0 <= x < |m|
    ensures Mark(m, ks + {x}) == Mark(m, ks)[x := 1]
  {
  }

  /** The backtrack from the bottom-right cell. After a step to the left the code reloads
    * the row above into both arrays, so until the next diagonal or upward step both hold
    * the row above the current cell ("stale"); the pairing still only links equal tokens. */
  method Backtrack(seqA: seq<int>, seqB: seq<int>, distance: array<int>, distancePrev: array<int>,
                   allDistances: seq<seq<int>>, mapA: seq<int>, mapB: seq<int>)
      returns (mapA': seq<int>, mapB': seq<int>, ghost marks: seq<(int, int)>)
    requires 0 < |seqA| <= |seqB| && distance != distancePrev
    requires IsRow(seqA, seqB, distance[..], |seqB|)
    requires IsRow(seqA, seqB, distancePrev[..], |seqB| - 1)
    requires |allDistances| == |seqB| + 1
    requires forall k :: 0 <= k <= |seqB| ==> IsRow(seqA, seqB, allDistances[k], k)
    requires |mapA| == |seqA| && |mapB| == |seqB|
    modifies distance, distancePrev
    ensures marks == BacktrackFrom(seqA, seqB, |seqA|, |seqB|, false)
    ensures Pairing(seqA, seqB, marks)
    ensures mapA' == Mark(mapA, Firsts(marks)) && mapB' == Mark(mapB, Seconds(marks))
  {
    var lengthA := |seqA|;
    var currentPos, seqBTrack := lengthA, |seqB|;
    ghost var stale := false;
    mapA', mapB', marks := mapA, mapB, [];
    while currentPos > 0 && seqBTrack >= 0
      invariant Cursor(seqA, seqB, distance[..], distancePrev[..], currentPos, seqBTrack, stale)
      invariant Pairing(seqA, seqB, marks) && Behind(marks, currentPos, seqBTrack)
      invariant mapA' == Mark(mapA, Firsts(marks)) && mapB' == Mark(mapB, Seconds(marks))
      invariant marks + BacktrackFrom(seqA, seqB, currentPos, seqBTrack, stale) == BacktrackFrom(seqA, seqB, |seqA|, |seqB|, false)
      decreases currentPos + seqBTrack
    {
      var currentPosScore := distance[currentPos];
      var nw := distancePrev[currentPos - 1];
      var n := distancePrev[currentPos];
      var w := distance[currentPos - 1];
      StepFacts(seqA, seqB, distance[..], distancePrev[..], currentPos, seqBTrack, stale);
      ghost var j0 := seqBTrack;
      ghost var i0, s0, marks0 := currentPos, stale, marks;
      currentPos, seqBTrack, mapA', mapB', marks, stale :=
        Step(seqA, seqB, nw, n, w, currentPosScore, currentPos, seqBTrack, mapA', mapB', mapA, mapB, marks);
      BacktrackAdvance(seqA, seqB, marks0, i0, j0, s0);
      if currentPos < 0 || seqBTrack == 0 {
        break;
      }
      ReloadRows(seqA, seqB, distance, distancePrev, allDistances, currentPos, seqBTrack, j0, stale);
    }
  }

  /** The decision of one backtrack step from the cells read around (i, j): up and to the
    * left when the diagonal is least, recording a match when the score does not change;
    * else to the left when that cell is least; else up. */
  method Step(ghost a: seq<int>, ghost b: seq<int>, nw: int, n: int, w: int, currentPosScore: int,
              i: int, j: int, mapA: seq<int>, mapB: seq<int>,
              ghost mapA0: seq<int>, ghost mapB0: seq<int>, ghost marks: seq<(int, int)>)
      returns (i': int, j': int, mapA': seq<int>, mapB': seq<int>, ghost marks': seq<(int, int)>, ghost stale: bool)
    requires 0 < i <= |a| && 0 < j <= |b| && |mapA0| == |a| && |mapB0| == |b|
    requires Min3(nw, n, w) == nw && nw == currentPosScore ==> a[i - 1] == b[j - 1]
    requires Min3(nw, n, w) != nw && Min3(nw, n, w) == w ==> D(a, b, i - 1, j) + 1 == D(a, b, i - 1, j - 1)
    requires Pairing(a, b, marks) && Behind(marks, i, j)
    requires mapA == Mark(mapA0, Firsts(marks)) && mapB == Mark(mapB0, Seconds(marks))
    ensures Pairing(a, b, marks') && Behind(marks', i', j')
    ensures mapA' == Mark(mapA0, Firsts(marks')) && mapB' == Mark(mapB0, Seconds(marks'))
    ensures var m := Min3(nw, n, w);
      (i', j', stale) == if m == nw then (i - 1, j - 1, false) else if m == w then (i - 1, j, true) else (i, j - 1, false)
    ensures stale ==> D(a, b, i', j') + 1 == D(a, b, i', j' - 1)
    ensures marks' == marks + if Min3(nw, n, w) == nw && nw == currentPosScore then [(i - 1, j - 1)] else []
  {
    i', j', mapA', mapB', marks', stale := i, j, mapA, mapB, marks, false;
    var minPathScore := Min3(nw, n, w);
    if minPathScore == nw {
      if minPathScore == currentPosScore {
        mapA' := mapA'[i - 1 := 1];
        mapB' := mapB'[j - 1 := 1];
        AddMark(a, b, mapA0, mapB0, marks, (i - 1, j - 1));
        marks' := marks + [(i - 1, j - 1)];
      }
      i' := i - 1;
      j' := j - 1;
    } else if minPathScore == w {
      i' := i - 1;
      stale := true;
    } else {
      j' := j - 1;
    }
  }

  /** The end of a backtrack step: the old row above moves down into `distance` and the
    * kept row above the new cell is loaded into `distancePrev`. */
  method ReloadRows(seqA: seq<int>, seqB: seq<int>, distance: array<int>, distancePrev: array<int>,
                    allDistances: seq<seq<int>>, i: int, j: int, ghost j0: int, ghost stale: bool)
    requires distance != distancePrev && distance.Length == distancePrev.Length
    requires 0 <= i <= |seqA| && 0 < j <= |seqB| && 0 < j0 <= |seqB|
    requires IsRow(seqA, seqB, distancePrev[..], j0 - 1)
    requires |allDistances| == |seqB| + 1
    requires forall k :: 0 <= k <= |seqB| ==> IsRow(seqA, seqB, allDistances[k], k)
    requires if stale then j == j0 && D(seqA, seqB, i, j) + 1 == D(seqA, seqB, i, j - 1) else j == j0 - 1
    modifies distance, distancePrev
    ensures Cursor(seqA, seqB, distance[..], distancePrev[..], i, j, stale)
  {
    CopyRow(distancePrev, distance);
    LoadRow(allDistances[j - 1], distancePrev);
    Reloaded(seqA, seqB, distance[..], distancePrev[..], i, j, j0, stale);
  }
}
