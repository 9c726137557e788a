// The alignment driver of src/fstalign.cpp: the relaxation of the Levenshtein match maps, the
// walk over the adapted composition of the reference and hypothesis graphs, and the choice of
// the alignment with the lowest WER.
module FstAlign {
  import opened Wrappers
  import opened Alignment
  import opened Fst
  import opened Symbols
  import opened Composition
  import opened PathHeaps
  import opened Walking
  import FastD

  // ---------------------------------------------------------------------------------------
  // The match-map relaxation

  /** The in-place pass over positions x .. end-1, left to right: a slot whose left neighbour
    * (already relaxed) and right neighbour (not yet visited) are both negative becomes -1. */
  function Relax(s: seq<int>, x: nat, end: int): (r: seq<int>)
    requires 1 <= x && end < |s|
    ensures |r| == |s|
    decreases end - x
  {
    if x >= end then s
    else Relax(if s[x - 1] < 0 && s[x + 1] < 0 then s[x := -1] else s, x + 1, end)
  }

  /** How many slots the pass clears (already negative ones included). */
  function Hits(s: seq<int>, x: nat, end: int): nat
    requires 1 <= x && end < |s|
    decreases end - x
  {
    if x >= end then 0
    else (if s[x - 1] < 0 && s[x + 1] < 0 then 1 else 0)
         + Hits(if s[x - 1] < 0 && s[x + 1] < 0 then s[x := -1] else s, x + 1, end)
  }

  /** The positions x .. end-1 whose relaxed left neighbour and original right neighbour are
    * both negative. */
  function Cleared(r: seq<int>, s: seq<int>, x: nat, end: int): nat
    requires 1 <= x && end < |s| && |r| == |s|
    decreases end - x
  {
    if x >= end then 0 else (if r[x - 1] < 0 && s[x + 1] < 0 then 1 else 0) + Cleared(r, s, x + 1, end)
  }

  /** The pass as a recurrence: slots before x and from end on are kept; a visited slot is -1
    * when its relaxed left neighbour and its original right neighbour are negative, else it
    * keeps its value; so a slot only ever changes to -1, and the clears cascade rightwards. */
  lemma {:induction false} RelaxShape(s: seq<int>, x: nat, end: int)
    requires 1 <= x && end < |s|
    ensures var r := Relax(s, x, end);
      && |r| == |s|
      && (forall k :: 0 <= k < x && k < |s| ==> r[k] == s[k])
      && (forall k :: x <= k < |s| && end <= k ==> r[k] == s[k])
      && (forall k :: x <= k < end ==> r[k] == if r[k - 1] < 0 && s[k + 1] < 0 then -1 else s[k])
      && (forall k :: 0 <= k < |s| && r[k] != s[k] ==> r[k] == -1)
    decreases end - x
  {
    if x < end {
      var s' := if s[x - 1] < 0 && s[x + 1] < 0 then s[x := -1] else s;
      RelaxShape(s', x + 1, end);
    }
  }

  lemma {:induction false} ClearedAgree(r: seq<int>, s: seq<int>, t: seq<int>, x: nat, end: int)
    requires 1 <= x && end < |s| && |r| == |s| == |t|
    requires forall k :: x < k < |s| ==> s[k] == t[k]
    ensures Cleared(r, s, x, end) == Cleared(r, t, x, end)
    decreases end - x
  {
    if x < end {
      ClearedAgree(r, s, t, x + 1, end);
    }
  }

  /** The count of the pass is the number of visited slots whose relaxed left neighbour and
    * original right neighbour are negative. */
  lemma {:induction false} HitsCleared(s: seq<int>, x: nat, end: int)
    requires 1 <= x && end < |s|
    ensures Hits(s, x, end) == Cleared(Relax(s, x, end), s, x, end)
    decreases end - x
  {
    if x < end {
      var s' := if s[x - 1] < 0 && s[x + 1] < 0 then s[x := -1] else s;
      var r := Relax(s, x, end);
      HitsCleared(s', x + 1, end);
      RelaxShape(s', x + 1, end);
      ClearedAgree(r, s', s, x + 1, end);
    }
  }

  /** One relaxation loop of Fstalign over positions 1 .. end-1 of a match map, counting every
    * cleared slot on top of `dist`. */
  method RelaxMatches(m: array<int>, end: int, dist: int) returns (distPrime: int)
    requires end < m.Length
    modifies m
    ensures m[..] == Relax(old(m[..]), 1, end)
    ensures distPrime == dist + Hits(old(m[..]), 1, end)
  {
    distPrime := dist;
    var x := 1;
    while x < end
      invariant 1 <= x && (1 <= end ==> x <= end)
      invariant Relax(m[..], x, end) == Relax(old(m[..]), 1, end)
      invariant distPrime + Hits(m[..], x, end) == dist + Hits(old(m[..]), 1, end)
      decreases end - x
    {
      if m[x - 1] < 0 && m[x + 1] < 0 {
        distPrime := distPrime + 1;
        m[x] := -1;
      }
      x := x + 1;
    }
  }

  /** The optional Levenshtein pre-pass of Fstalign: only with more than ten tokens on both
    * sides, the edit distance and its match maps, the reference map relaxed over every interior
    * slot with the cleared slots counted, the hypothesis map over all but the last interior slot
    * without counting. Otherwise both maps stay empty. */
  method LevenshteinFirstPass(vA: seq<int>, vB: seq<int>)
    returns (mapA: seq<int>, mapB: seq<int>, dist: int, distPrime: int, ghost marks: seq<(int, int)>)
    ensures !(|vA| > 10 && |vB| > 10) ==> mapA == [] && mapB == [] && dist == 0
    ensures |vA| > 10 && |vB| > 10 ==>
      && dist == FastD.Dist(vA, vB)
      && marks == FastD.BacktrackMarks(vA, vB) && FastD.Pairing(vA, vB, marks)
      && mapA == Relax(FastD.Mark(FastD.Resize([], |vA|), FastD.Firsts(marks)), 1, |vA| - 1)
      && mapB == Relax(FastD.Mark(FastD.Resize([], |vB|), FastD.Seconds(marks)), 1, |vB| - 2)
      && distPrime == dist + Hits(FastD.Mark(FastD.Resize([], |vA|), FastD.Firsts(marks)), 1, |vA| - 1)
  {
    mapA, mapB, dist, distPrime, marks := [], [], 0, 0, [];
    if |vA| > 10 && |vB| > 10 {
      var ma, mb;
      dist, ma, mb, marks := FastD.GetEditDistance(vA, [], vB, []);
      mapA, mapB, distPrime := RelaxBoth(ma, mb, dist);
    }
  }

  /** The two relaxation loops of the pre-pass, on copies of the match maps. */
  method RelaxBoth(ma: seq<int>, mb: seq<int>, dist: int) returns (mapA: seq<int>, mapB: seq<int>, distPrime: int)
    ensures mapA == Relax(ma, 1, |ma| - 1) && mapB == Relax(mb, 1, |mb| - 2)
    ensures distPrime == dist + Hits(ma, 1, |ma| - 1)
  {
    var a := new int[|ma|](i requires 0 <= i < |ma| => ma[i]);
    var b := new int[|mb|](i requires 0 <= i < |mb| => mb[i]);
    assert a[..] == ma && b[..] == mb;
    distPrime := RelaxMatches(a, a.Length - 1, dist);
    var _ := RelaxMatches(b, b.Length - 2, 0);
    mapA, mapB := a[..], b[..];
  }

  // ---------------------------------------------------------------------------------------
  // The choice of the best alignment

  /** sort_alignment: a lower WER, as the float comparison orders it (+inf above every ratio). */
  predicate RateBelow(x: Rate, y: Rate)
  {
    match (x, y)
    case (Infinity, _) => false
    case (Ratio(_, _), Infinity) => true
    case (Ratio(a, b), Ratio(c, d)) => a * d < c * b
  }

  /** With positive denominators the comparison is transitive. */
  lemma RateBelowTransitive(x: Rate, y: Rate, z: Rate)
    requires x.Ratio? ==> x.den > 0
    requires y.Ratio? ==> y.den > 0
    requires z.Ratio? ==> z.den > 0
    requires RateBelow(x, y) && RateBelow(y, z)
    ensures RateBelow(x, z)
  {
    if z.Ratio? {
      var a, b, c, d, e, f := x.num, x.den, y.num, y.den, z.num, z.den;
      MulLess(a * d, c * b, f);
      MulLess(c * f, e * d, b);
      assert (c * b) * f == (c * f) * b;
      assert (a * d) * f == (a * f) * d;
      assert (e * d) * b == (e * b) * d;
      CancelLess(a * f, e * b, d);
    }
  }

  /** The first alignment of lowest WER. */
  function FirstBest(s: seq<WerAlignment>): Option<WerAlignment>
  {
    if |s| == 0 then None
    else match FirstBest(s[..|s| - 1])
      case None => Some(s[|s| - 1])
      case Some(b) => if RateBelow(Wer(s[|s| - 1]), Wer(b)) then Some(s[|s| - 1]) else Some(b)
  }

  /** The chosen alignment exists iff there is one, is one of them, and none has a lower WER. */
  lemma {:induction false} FirstBestIsMinimal(s: seq<WerAlignment>)
    ensures FirstBest(s).None? <==> |s| == 0
    ensures FirstBest(s).Some? ==> FirstBest(s).value in s
    ensures FirstBest(s).Some? ==> forall a :: a in s ==> !RateBelow(Wer(a), Wer(FirstBest(s).value))
  {
    if |s| > 0 {
      var init := s[..|s| - 1];
      var last := s[|s| - 1];
      FirstBestIsMinimal(init);
      assert s == init + [last];
      match FirstBest(init)
      case None =>
      case Some(b) =>
        if RateBelow(Wer(last), Wer(b)) {
          forall a | a in s
            ensures !RateBelow(Wer(a), Wer(last))
          {
            if a in init && RateBelow(Wer(a), Wer(last)) {
              RateBelowTransitive(Wer(a), Wer(last), Wer(b));
            }
          }
        }
    }
  }

  /** RmEpsilon's result: no arc of the graph has epsilon (0) on both sides. */
  predicate EpsilonFree(g: Graph)
  {
    forall s, j :: 0 <= s < |g.arcs| && 0 <= j < |g.arcs[s]| ==> g.arcs[s][j].ilabel != 0 || g.arcs[s][j].olabel != 0
  }

  /** ReverseOLabelCompare: arc x goes before arc y when (olabel, ilabel) of x is larger. */
  predicate ReverseOLabelBefore(x: Arc, y: Arc)
  {
    x.olabel > y.olabel || (x.olabel == y.olabel && x.ilabel > y.ilabel)
  }

  /** ArcSort with ReverseOLabelCompare's result: every state's arcs in non-increasing
    * (olabel, ilabel) order. */
  predicate ReverseOLabelSorted(g: Graph)
  {
    forall s, j :: 0 <= s < |g.arcs| && 0 < j < |g.arcs[s]| ==> !ReverseOLabelBefore(g.arcs[s][j], g.arcs[s][j - 1])
  }

  /** The alignment step of Fstalign on graphs already built: the reserved symbols registered,
    * the adapted composition walked by a walker whose pruning target is the given one, and the
    * alignment of lowest WER returned; an unknown composition approach or an empty walk is an
    * error. */
  method AlignGraphs(approach: string, refFst: Graph, hypFst: Graph, symbol: SymbolTable,
                     numBests: int, heapPruningTarget: int, fuel: nat)
    returns (r: Result<WerAlignment>, candidates: seq<WerAlignment>, ghost options: FstAlignOption,
             ghost entries: seq<ShortlistEntry>, ghost tables: Tables, ghost ctx: Ctx)
    requires symbol.Valid() && approach != "standard" && heapPruningTarget >= 1
    requires EpsilonFree(refFst) && ReverseOLabelSorted(refFst)
    modifies symbol
    ensures approach != "adapted" ==> r == Err("invalid composition approach specified")
    ensures approach == "adapted" ==> (r.Err? <==> |candidates| == 0)
    ensures approach == "adapted" && 0 <= numBests ==> |candidates| <= numBests
    ensures approach == "adapted" ==>
      r == (if |candidates| == 0 then Err("no alignment produced") else Ok(FirstBest(candidates).value))
    ensures r.Ok? ==> r.value in candidates && forall c :: c in candidates ==> !RateBelow(Wer(c), Wer(r.value))
    ensures Recorded(refFst, hypFst, tables, entries) && |entries| == |candidates|
    ensures forall i :: 0 <= i < |candidates| ==> candidates[i] == Details(entries[i], symbol.symbols, Special(options))
    ensures ctx.a == refFst && ctx.b == hypFst
    ensures approach == "adapted" ==>
      entries == SearchRun(ctx, Intern(EmptyTables, (refFst.start, hypFst.start)).0, Layers([FIRST_ENTRY], [], map[], 0),
                           [], numBests, NUMBER_OF_LOOPS_BEFORE_PRUNING, heapPruningTarget, fuel).tops
  {
    var opts := new FstAlignOption();
    options := opts;
    opts.RegisterSymbols(symbol);
    candidates, entries, tables := [], [], EmptyTables;
    ctx := Ctx(refFst, hypFst, false, [], [], 0);
    if approach != "adapted" {
      r := Err("invalid composition approach specified");
      return;
    }
    candidates, entries, tables, ctx := Walk(refFst, hypFst, symbol, opts, numBests, heapPruningTarget, fuel);
    FirstBestIsMinimal(candidates);
    match FirstBest(candidates)
    case None => r := Err("no alignment produced");
    case Some(best) => r := Ok(best);
  }

  /** The adapted composition of the two graphs walked by a fresh walker with the given
    * pruning target; every recorded node is turned into an alignment. */
  method Walk(refFst: Graph, hypFst: Graph, symbol: SymbolTable, options: FstAlignOption,
              numBests: int, heapPruningTarget: int, fuel: nat)
    returns (candidates: seq<WerAlignment>, ghost entries: seq<ShortlistEntry>, ghost tables: Tables, ghost ctx: Ctx)
    requires symbol.Valid() && heapPruningTarget >= 1
    ensures 0 <= numBests ==> |candidates| <= numBests
    ensures Recorded(refFst, hypFst, tables, entries) && |entries| == |candidates|
    ensures forall i :: 0 <= i < |candidates| ==> candidates[i] == Details(entries[i], symbol.symbols, Special(options))
    ensures ctx.a == refFst && ctx.b == hypFst
    ensures entries == SearchRun(ctx, Intern(EmptyTables, (refFst.start, hypFst.start)).0, Layers([FIRST_ENTRY], [], map[], 0),
                                 [], numBests, NUMBER_OF_LOOPS_BEFORE_PRUNING, heapPruningTarget, fuel).tops
  {
    var composed := new AdaptedCompositionFst.WithSymbols(refFst, hypFst, symbol);
    ctx := composed.Context();
    var walker := new Walker();
    walker.pruningHeapSizeTarget := heapPruningTarget;
    assert InsertSorted(walker.heapA.heap, FIRST_ENTRY) == [FIRST_ENTRY];
    candidates, entries := walker.WalkComposed(composed, symbol, options, numBests, fuel);
    tables := composed.State();
  }
}
