// AdaptedCompositionFst: the composition of a reference graph A with a hypothesis graph B,
// built lazily while the search walks it. A composed state stands for a pair
// (reference state, hypothesis state); pairs are numbered densely in the order they are
// first met, and the out-arcs of a composed state are synthesised on demand as matches,
// insertions, substitutions, deletions, epsilon skips and entity/synonym arcs.
// The float costs of IComposition (insertion 1, deletion 1, substitution 1.5) are scaled
// by two to stay integral.
module Composition {
  import opened Wrappers
  import opened Strings
  import opened Fst
  import opened Symbols

  const INS_COST: int := 2
  const DEL_COST: int := 2
  const SUB_COST: int := 3

  /** The default label ids of the insertion, deletion and substitution markers. */
  const DEFAULT_INS_LABEL: int := 1
  const DEFAULT_DEL_LABEL: int := 2
  const DEFAULT_SUB_LABEL: int := 3

  type Pair = (int, int)

  /** The out-arcs of state `s`; none for a state the graph does not have. */
  function ArcsOf(g: Graph, s: int): (r: seq<Arc>)
    ensures 0 <= s < |g.arcs| ==> r == g.arcs[s]
  {
    if 0 <= s < |g.arcs| then g.arcs[s] else []
  }

  // ---------------------------------------------------------------------------------------
  // The bookkeeping of the composition as a value: the pair -> id map, its reverse, the next
  // id, and the memo of (state, entity label) pairs where an entity path was seen to exit.

  datatype Tables = Tables(composed: map<Pair, int>, reversed: map<int, Pair>, next: int, exits: set<Pair>)

  /** A freshly constructed composition. */
  const EmptyTables: Tables := Tables(map[], map[], 0, {})

  /** Ids are exactly 0 .. next-1 and the two maps are inverse to each other. */
  ghost predicate Dense(t: Tables)
  {
    && t.next >= 0
    && (forall k :: k in t.reversed <==> 0 <= k < t.next)
    && (forall k :: k in t.reversed ==> t.reversed[k] in t.composed && t.composed[t.reversed[k]] == k)
    && (forall p :: p in t.composed ==> t.composed[p] in t.reversed && t.reversed[t.composed[p]] == p)
  }

  /** `u` keeps every id, pair and memo entry of `t`. */
  ghost predicate Grows(t: Tables, u: Tables)
  {
    && t.next <= u.next
    && (forall k :: k in t.reversed ==> k in u.reversed && u.reversed[k] == t.reversed[k])
    && (forall p :: p in t.composed ==> p in u.composed && u.composed[p] == t.composed[p])
    && t.exits <= u.exits
  }

  lemma GrowsTrans(t: Tables, u: Tables, v: Tables)
    requires Grows(t, u) && Grows(u, v)
    ensures Grows(t, v)
  {
  }

  /** GetOrCreateComposedState on the value: the id of a known pair, else the next id, which
    * both maps record (the reverse map by emplace, which keeps an entry already present). */
  function Intern(t: Tables, p: Pair): (Tables, int)
  {
    if p in t.composed then (t, t.composed[p])
    else
      (t.(composed := t.composed[p := t.next],
          reversed := if t.next in t.reversed then t.reversed else t.reversed[t.next := p],
          next := t.next + 1),
       t.next)
  }

  /** Interning keeps the ids dense and the maps inverse, and the returned id maps to the pair
    * both ways; a new pair gets the old counter, which then moves on by one. */
  lemma InternKeeps(t: Tables, p: Pair)
    requires Dense(t)
    ensures var (u, id) := Intern(t, p);
      && Dense(u) && Grows(t, u) && u.exits == t.exits
      && p in u.composed && u.composed[p] == id && id in u.reversed && u.reversed[id] == p
      && (p !in t.composed ==> id == t.next && u.next == t.next + 1)
      && (p in t.composed ==> u == t)
  {
    if p !in t.composed {
      var (u, id) := Intern(t, p);
      assert t.next !in t.reversed;
      forall q | q in u.composed
        ensures u.composed[q] in u.reversed && u.reversed[u.composed[q]] == q
      {
        if q != p {
          assert q in t.composed;
        }
      }
    }
  }

  /** Asking twice for the same pair gives the same id and changes nothing the second time. */
  lemma InternIdempotent(t: Tables, p: Pair)
    ensures var (u, id) := Intern(t, p); Intern(u, p) == (u, id)
  {
  }

  /** On a fresh composition the first pair asked for is state 0. */
  lemma InternFirstIsZero(p: Pair)
    ensures Intern(EmptyTables, p).1 == 0 && Intern(EmptyTables, p).0.reversed == map[0 := p]
  {
  }

  /** DoesComposedStateExist(a, b): the pair has an id, equivalently some id maps back to it. */
  lemma PairExistsIff(t: Tables, p: Pair)
    ensures Dense(t) ==> (p in t.composed <==> exists k :: k in t.reversed && t.reversed[k] == p)
  {
    if Dense(t) && p in t.composed {
      var k := t.composed[p];
      assert k in t.reversed && t.reversed[k] == p;
    }
  }

  /** DoesComposedStateExist(id), as intended: the id was handed out. */
  predicate IdExists(t: Tables, id: int)
  {
    id in t.reversed
  }

  lemma IdExistsIff(t: Tables, id: int)
    requires Dense(t)
    ensures IdExists(t, id) <==> 0 <= id < t.next
  {
  }

  /** Final: One (weight 0) for an unknown id; otherwise One iff both component states are
    * final, else Zero (None). */
  function FinalWeight(a: Graph, b: Graph, t: Tables, id: int): (w: Option<int>)
    ensures w == None || w == Some(0)
  {
    if !IdExists(t, id) then Some(0)
    else if IsFinal(a, t.reversed[id].0) && IsFinal(b, t.reversed[id].1) then Some(0)
    else None
  }

  /** The composed state of a pair is final iff both of its states are. */
  lemma FinalOfPair(a: Graph, b: Graph, t: Tables, p: Pair)
    requires Dense(t) && p in t.composed
    ensures FinalWeight(a, b, t, t.composed[p]) == Some(0) <==> IsFinal(a, p.0) && IsFinal(b, p.1)
  {
  }

  // ---------------------------------------------------------------------------------------
  // The one-argument existence check as the source writes it looks up id 0 rather than its
  // argument, and Final then reads the reverse map with operator[], which inserts a default
  // (0, 0) entry for an unknown id. The emplace of a later new state with that id keeps the
  // stale entry, so that state reads as the pair (0, 0).

  predicate IdExistsAsWritten(t: Tables, id: int)
  {
    0 in t.reversed
  }

  function FinalAsWritten(a: Graph, b: Graph, t: Tables, id: int): (Tables, Option<int>)
  {
    if !IdExistsAsWritten(t, id) then (t, Some(0))
    else
      var u := if id in t.reversed then t else t.(reversed := t.reversed[id := (0, 0)]);
      var p := u.reversed[id];
      (u, if IsFinal(a, p.0) && IsFinal(b, p.1) then Some(0) else None)
  }

  /** After Start, asking Final about id 1 and then creating a second pair, the second pair's
    * id 1 maps back to (0, 0) instead of to that pair. */
  lemma StaleStateAsWritten(a: Graph, b: Graph, p: Pair, q: Pair)
    requires q != p && q != (0, 0)
    ensures var (t1, s) := Intern(EmptyTables, p);
      var (t2, _) := FinalAsWritten(a, b, t1, 1);
      var (t3, id) := Intern(t2, q);
      s == 0 && IdExistsAsWritten(t1, 1) && !IdExists(t1, 1)
      && id == 1 && t3.reversed[id] == (0, 0) && t3.reversed[id] != q && !Dense(t3)
  {
    var (t1, s) := Intern(EmptyTables, p);
    var (t2, _) := FinalAsWritten(a, b, t1, 1);
    var (t3, id) := Intern(t2, q);
    assert t3.reversed[1] == (0, 0);
    assert q in t3.composed && t3.composed[q] == 1;
  }

  // ---------------------------------------------------------------------------------------
  // IsEntityReacheable: a depth-first search from (sa, sb) for an arc of A carrying the target
  // label, following epsilon arcs of A alone and label-matched arc pairs of A and B. It
  // answers the state whose arc carries the target label. The source recursion has no visited set
  // and terminates on acyclic reference graphs; here it carries a fuel bound, and
  // FuelSuffices shows that on a ranked (acyclic) graph the number of reference states is
  // always enough fuel.

  function ExitFrom(a: Graph, b: Graph, fuel: nat, target: int, sa: int, sb: int): Option<int>
    decreases fuel, 0, 0
  {
    if fuel == 0 then None else ExitArcs(a, b, fuel - 1, target, sa, sb, ArcsOf(a, sa))
  }

  /** The first success among `arcs`, tried in order. */
  function ExitArcs(a: Graph, b: Graph, fuel: nat, target: int, sa: int, sb: int, arcs: seq<Arc>): Option<int>
    decreases fuel, 2, |arcs|
  {
    if |arcs| == 0 then None
    else
      match ExitArcs(a, b, fuel, target, sa, sb, arcs[..|arcs| - 1])
      case Some(s) => Some(s)
      case None => ExitArc(a, b, fuel, target, sa, sb, arcs[|arcs| - 1])
  }

  function ExitArc(a: Graph, b: Graph, fuel: nat, target: int, sa: int, sb: int, arc: Arc): Option<int>
    decreases fuel, 1, 0
  {
    if arc.olabel == target then Some(sa)
    else if arc.olabel == 0 then ExitFrom(a, b, fuel, target, arc.nextstate, sb)
    else ExitVia(a, b, fuel, target, arc, ArcsOf(b, sb))
  }

  /** The first success through a hypothesis arc whose input label matches `arc`. */
  function ExitVia(a: Graph, b: Graph, fuel: nat, target: int, arc: Arc, bs: seq<Arc>): Option<int>
    decreases fuel, 0, |bs|
  {
    if |bs| == 0 then None
    else
      match ExitVia(a, b, fuel, target, arc, bs[..|bs| - 1])
      case Some(s) => Some(s)
      case None =>
        if arc.olabel == bs[|bs| - 1].ilabel then ExitFrom(a, b, fuel, target, arc.nextstate, bs[|bs| - 1].nextstate)
        else None
  }

  /** The state a search answers has an out-arc carrying the target label. */
  ghost predicate ExitsThere(a: Graph, target: int, r: Option<int>)
  {
    r.Some? ==> exists k :: 0 <= k < |ArcsOf(a, r.value)| && ArcsOf(a, r.value)[k].olabel == target
  }

  lemma {:induction false} ExitFromFound(a: Graph, b: Graph, fuel: nat, target: int, sa: int, sb: int)
    ensures ExitsThere(a, target, ExitFrom(a, b, fuel, target, sa, sb))
    decreases fuel, 0, 0
  {
    if fuel > 0 {
      var arcs := ArcsOf(a, sa);
      assert arcs[..|arcs|] == arcs;
      ExitArcsFound(a, b, fuel - 1, target, sa, sb, arcs, |arcs|);
    }
  }

  lemma {:induction false} ExitArcsFound(a: Graph, b: Graph, fuel: nat, target: int, sa: int, sb: int, arcs: seq<Arc>, n: nat)
    requires n <= |arcs| && arcs == ArcsOf(a, sa)
    ensures ExitsThere(a, target, ExitArcs(a, b, fuel, target, sa, sb, arcs[..n]))
    decreases fuel, 2, n
  {
    if n > 0 {
      assert arcs[..n][..n - 1] == arcs[..n - 1] && arcs[..n][n - 1] == arcs[n - 1];
      ExitArcsFound(a, b, fuel, target, sa, sb, arcs, n - 1);
      var arc := arcs[n - 1];
      if ExitArcs(a, b, fuel, target, sa, sb, arcs[..n - 1]).None? {
        if arc.olabel == target {
          assert ExitArcs(a, b, fuel, target, sa, sb, arcs[..n]) == Some(sa);
          assert ArcsOf(a, sa)[n - 1].olabel == target;
        } else if arc.olabel == 0 {
          assert ExitArcs(a, b, fuel, target, sa, sb, arcs[..n]) == ExitFrom(a, b, fuel, target, arc.nextstate, sb);
          ExitFromFound(a, b, fuel, target, arc.nextstate, sb);
        } else {
          assert ExitArcs(a, b, fuel, target, sa, sb, arcs[..n]) == ExitVia(a, b, fuel, target, arc, ArcsOf(b, sb));
          ExitViaFound(a, b, fuel, target, arc, ArcsOf(b, sb));
        }
      }
    }
  }

  lemma {:induction false} ExitViaFound(a: Graph, b: Graph, fuel: nat, target: int, arc: Arc, bs: seq<Arc>)
    ensures ExitsThere(a, target, ExitVia(a, b, fuel, target, arc, bs))
    decreases fuel, 1, |bs|
  {
    if |bs| > 0 {
      ExitViaFound(a, b, fuel, target, arc, bs[..|bs| - 1]);
      ExitFromFound(a, b, fuel, target, arc.nextstate, bs[|bs| - 1].nextstate);
    }
  }

  /** Once a prefix of the arcs has answered, the whole list answers the same. */
  lemma {:induction false} ExitArcsSettled(a: Graph, b: Graph, fuel: nat, target: int, sa: int, sb: int, arcs: seq<Arc>, j: nat)
    requires j <= |arcs| && ExitArcs(a, b, fuel, target, sa, sb, arcs[..j]).Some?
    ensures ExitArcs(a, b, fuel, target, sa, sb, arcs) == ExitArcs(a, b, fuel, target, sa, sb, arcs[..j])
    decreases |arcs|
  {
    if j < |arcs| {
      var init := arcs[..|arcs| - 1];
      assert init[..j] == arcs[..j];
      ExitArcsSettled(a, b, fuel, target, sa, sb, init, j);
    } else {
      assert arcs[..j] == arcs;
    }
  }

  lemma {:induction false} ExitViaSettled(a: Graph, b: Graph, fuel: nat, target: int, arc: Arc, bs: seq<Arc>, j: nat)
    requires j <= |bs| && ExitVia(a, b, fuel, target, arc, bs[..j]).Some?
    ensures ExitVia(a, b, fuel, target, arc, bs) == ExitVia(a, b, fuel, target, arc, bs[..j])
    decreases |bs|
  {
    if j < |bs| {
      var init := bs[..|bs| - 1];
      assert init[..j] == bs[..j];
      ExitViaSettled(a, b, fuel, target, arc, init, j);
    } else {
      assert bs[..j] == bs;
    }
  }

  /** Every arc of A leads to an existing state of lower rank, and ranks are below the number
    * of states: A is acyclic. */
  ghost predicate Ranked(a: Graph, rank: seq<nat>)
  {
    && |rank| == |a.arcs|
    && (forall s :: 0 <= s < |rank| ==> rank[s] < |rank|)
    && (forall s, k :: 0 <= s < |a.arcs| && 0 <= k < |a.arcs[s]| ==>
          0 <= a.arcs[s][k].nextstate < |a.arcs| && rank[a.arcs[s][k].nextstate] < rank[s])
  }

  /** Arcs leading to states whose rank is below both fuels. */
  ghost predicate Below(a: Graph, rank: seq<nat>, arcs: seq<Arc>, f1: nat, f2: nat)
  {
    forall k :: 0 <= k < |arcs| ==>
      0 <= arcs[k].nextstate < |rank| && rank[arcs[k].nextstate] < f1 && rank[arcs[k].nextstate] < f2
  }

  lemma {:induction false} FuelFree(a: Graph, b: Graph, rank: seq<nat>, f1: nat, f2: nat, target: int, s: int, sb: int)
    requires Ranked(a, rank) && 0 <= s < |a.arcs| && f1 > rank[s] && f2 > rank[s]
    ensures ExitFrom(a, b, f1, target, s, sb) == ExitFrom(a, b, f2, target, s, sb)
    decreases f1, 0, 0
  {
    var arcs := a.arcs[s];
    assert Below(a, rank, arcs, f1 - 1, f2 - 1) by {
      forall k | 0 <= k < |arcs|
        ensures 0 <= arcs[k].nextstate < |rank| && rank[arcs[k].nextstate] < rank[s]
      {
      }
    }
    ArcsFuelFree(a, b, rank, f1 - 1, f2 - 1, target, s, sb, arcs);
  }

  lemma {:induction false} ArcsFuelFree(a: Graph, b: Graph, rank: seq<nat>, f1: nat, f2: nat, target: int, sa: int, sb: int, arcs: seq<Arc>)
    requires Ranked(a, rank) && Below(a, rank, arcs, f1, f2)
    ensures ExitArcs(a, b, f1, target, sa, sb, arcs) == ExitArcs(a, b, f2, target, sa, sb, arcs)
    decreases f1, 2, |arcs|
  {
    if |arcs| > 0 {
      var arc := arcs[|arcs| - 1];
      ArcsFuelFree(a, b, rank, f1, f2, target, sa, sb, arcs[..|arcs| - 1]);
      if arc.olabel != target {
        if arc.olabel == 0 {
          FuelFree(a, b, rank, f1, f2, target, arc.nextstate, sb);
        } else {
          ViaFuelFree(a, b, rank, f1, f2, target, arc, ArcsOf(b, sb));
        }
      }
    }
  }

  lemma {:induction false} ViaFuelFree(a: Graph, b: Graph, rank: seq<nat>, f1: nat, f2: nat, target: int, arc: Arc, bs: seq<Arc>)
    requires Ranked(a, rank) && 0 <= arc.nextstate < |rank| && rank[arc.nextstate] < f1 && rank[arc.nextstate] < f2
    ensures ExitVia(a, b, f1, target, arc, bs) == ExitVia(a, b, f2, target, arc, bs)
    decreases f1, 1, |bs|
  {
    if |bs| > 0 {
      ViaFuelFree(a, b, rank, f1, f2, target, arc, bs[..|bs| - 1]);
      FuelFree(a, b, rank, f1, f2, target, arc.nextstate, bs[|bs| - 1].nextstate);
    }
  }

  /** On an acyclic reference graph the search with as much fuel as there are reference
    * states answers what any deeper search answers. */
  lemma FuelSuffices(a: Graph, b: Graph, rank: seq<nat>, f: nat, target: int, s: int, sb: int)
    requires Ranked(a, rank) && 0 <= s < |a.arcs| && f > rank[s]
    ensures ExitFrom(a, b, |a.arcs|, target, s, sb) == ExitFrom(a, b, f, target, s, sb)
  {
    FuelFree(a, b, rank, |a.arcs|, f, target, s, sb);
  }

  // ---------------------------------------------------------------------------------------
  // TryGetArcsAtState as a value. The arcs are synthesised reference arc by reference arc,
  // the pair behind every arc target is interned as it is met, and the match counter is shared
  // by all reference arcs of the state (it is never reset between them).

  /** What the synthesis reads besides the tables: the two graphs, whether a symbol table was
    * set, the synonym and entity flags per label id, and the id of the deletion marker. */
  datatype Ctx = Ctx(a: Graph, b: Graph, hasSymbols: bool, synonymIds: seq<bool>, entityIds: seq<bool>, delLabel: int)

  /** IsSynonymLabel / IsEntityLabel on ids: false without a symbol table (and, here, for an id
    * beyond the flag vectors). */
  predicate SynonymId(c: Ctx, l: int)
  {
    c.hasSymbols && 0 <= l < |c.synonymIds| && c.synonymIds[l]
  }

  predicate EntityId(c: Ctx, l: int)
  {
    c.hasSymbols && 0 <= l < |c.entityIds| && c.entityIds[l]
  }

  /** The tables, the match counter and the arcs so far. */
  datatype Scan = Scan(t: Tables, matches: int, out: seq<Arc>)

  /** GetOrCreateComposedState for the target pair, then push_back of the arc. */
  function Emit(s: Scan, p: Pair, il: int, ol: int, w: int): Scan
  {
    var (t, id) := Intern(s.t, p);
    Scan(t, s.matches, s.out + [Arc(il, ol, w, id)])
  }

  /** One hypothesis arc against a plain reference arc: a match arc when the labels agree, and
    * while no match has been counted in this state, an insertion and a substitution. */
  function HypArc(s: Scan, refA: int, arcA: Arc, arcB: Arc): Scan
  {
    var s1 := if arcA.olabel == arcB.ilabel
      then Emit(s.(matches := s.matches + 1), (arcA.nextstate, arcB.nextstate), arcA.ilabel, arcB.olabel, 0)
      else s;
    if s1.matches == 0 then
      Emit(Emit(s1, (refA, arcB.nextstate), 0, arcB.olabel, INS_COST),
           (arcA.nextstate, arcB.nextstate), arcA.ilabel, arcB.olabel, SUB_COST)
    else s1
  }

  function HypArcs(s: Scan, refA: int, arcA: Arc, bs: seq<Arc>): Scan
  {
    if |bs| == 0 then s else HypArc(HypArcs(s, refA, arcA, bs[..|bs| - 1]), refA, arcA, bs[|bs| - 1])
  }

  /** The memo after a reachability search that answered `found`. */
  function Remember(t: Tables, found: Option<int>, l: int): Tables
  {
    if found.Some? then t.(exits := t.exits + {(found.value, l)}) else t
  }

  /** One reference arc: skipped if it is a self-loop; an epsilon skip for label 0; for an
    * entity or synonym label a zero-cost arc to (next, refB) when the exit is memoised, the
    * label is not a synonym, or the synonym's exit is reachable; otherwise the hypothesis
    * arcs, then a deletion if no match has been counted in this state. */
  function RefArc(c: Ctx, s: Scan, refA: int, refB: int, arcA: Arc): Scan
  {
    if arcA.nextstate == refA then s
    else if arcA.olabel == 0 then Emit(s, (arcA.nextstate, refB), 0, 0, 0)
    else if SynonymId(c, arcA.olabel) || EntityId(c, arcA.olabel) then
      var memo := (refA, arcA.olabel) in s.t.exits;
      var syn := SynonymId(c, arcA.olabel);
      var found := if memo || !syn then None else ExitFrom(c.a, c.b, |c.a.arcs|, arcA.olabel, arcA.nextstate, refB);
      if memo || !syn || found.Some? then
        Emit(Scan(Remember(s.t, found, arcA.olabel), s.matches + 1, s.out), (arcA.nextstate, refB), arcA.ilabel, c.delLabel, 0)
      else s
    else
      var h := HypArcs(s, refA, arcA, ArcsOf(c.b, refB));
      if h.matches == 0 then Emit(h, (arcA.nextstate, refB), arcA.ilabel, 0, DEL_COST) else h
  }

  function RefArcs(c: Ctx, s: Scan, refA: int, refB: int, as_: seq<Arc>): Scan
  {
    if |as_| == 0 then s else RefArc(c, RefArcs(c, s, refA, refB, as_[..|as_| - 1]), refA, refB, as_[|as_| - 1])
  }

  /** At the end of the reference graph: one insertion per hypothesis arc. */
  function InsTail(s: Scan, refA: int, bs: seq<Arc>): Scan
  {
    if |bs| == 0 then s
    else
      var b := bs[|bs| - 1];
      Emit(InsTail(s, refA, bs[..|bs| - 1]), (refA, b.nextstate), 0, b.olabel, INS_COST)
  }

  /** The arcs leaving the composed state of (refA, refB), and the tables after them. */
  function ArcsAt(c: Ctx, t: Tables, refA: int, refB: int): Scan
  {
    var s := RefArcs(c, Scan(t, 0, []), refA, refB, ArcsOf(c.a, refA));
    if |ArcsOf(c.a, refA)| == 0 then InsTail(s, refA, ArcsOf(c.b, refB)) else s
  }

  // ---------------------------------------------------------------------------------------
  // What every synthesised arc satisfies.

  /** Zero-cost, or an insertion (input epsilon), a deletion (output epsilon) or a
    * substitution with its cost. */
  predicate Priced(arc: Arc)
  {
    || arc.weight == 0
    || (arc.weight == INS_COST && arc.ilabel == 0)
    || (arc.weight == DEL_COST && arc.olabel == 0)
    || arc.weight == SUB_COST
  }

  /** Every memoised exit (s, l) is a state of A with an out-arc carrying l. */
  ghost predicate ExitsSound(a: Graph, exits: set<Pair>)
  {
    forall e :: e in exits ==> ExitsThere(a, e.1, Some(e.0))
  }

  /** The tables are dense, the memo is sound, every arc leads to an existing composed state
    * and is priced. */
  ghost predicate Sound(a: Graph, s: Scan)
  {
    && Dense(s.t) && ExitsSound(a, s.t.exits)
    && (forall k :: 0 <= k < |s.out| ==> s.out[k].nextstate in s.t.reversed && Priced(s.out[k]))
  }

  /** `r` extends `s`: the tables grow and the arcs so far are kept. */
  ghost predicate Extends(s: Scan, r: Scan)
  {
    Grows(s.t, r.t) && |s.out| <= |r.out| && r.out[..|s.out|] == s.out
  }

  lemma ExtendsTrans(s: Scan, r: Scan, q: Scan)
    requires Extends(s, r) && Extends(r, q)
    ensures Extends(s, q)
  {
    assert q.out[..|r.out|][..|s.out|] == q.out[..|s.out|];
  }

  lemma EmitSound(a: Graph, s: Scan, p: Pair, il: int, ol: int, w: int)
    requires Sound(a, s) && Priced(Arc(il, ol, w, 0))
    ensures var r := Emit(s, p, il, ol, w);
      && Sound(a, r) && Extends(s, r) && r.matches == s.matches && |r.out| == |s.out| + 1
      && r.out[|s.out|].ilabel == il && r.out[|s.out|].olabel == ol && r.out[|s.out|].weight == w
      && r.t.reversed[r.out[|s.out|].nextstate] == p
  {
    InternKeeps(s.t, p);
    var r := Emit(s, p, il, ol, w);
    assert r.out[..|s.out|] == s.out;
  }

  lemma {:induction false} HypArcsSound(a: Graph, s: Scan, refA: int, arcA: Arc, bs: seq<Arc>)
    requires Sound(a, s)
    ensures Sound(a, HypArcs(s, refA, arcA, bs)) && Extends(s, HypArcs(s, refA, arcA, bs))
  {
    if |bs| > 0 {
      var p := HypArcs(s, refA, arcA, bs[..|bs| - 1]);
      var b := bs[|bs| - 1];
      HypArcsSound(a, s, refA, arcA, bs[..|bs| - 1]);
      var s1 := p;
      if arcA.olabel == b.ilabel {
        s1 := Emit(p.(matches := p.matches + 1), (arcA.nextstate, b.nextstate), arcA.ilabel, b.olabel, 0);
        EmitSound(a, p.(matches := p.matches + 1), (arcA.nextstate, b.nextstate), arcA.ilabel, b.olabel, 0);
        ExtendsTrans(s, p, s1);
      }
      if s1.matches == 0 {
        var s2 := Emit(s1, (refA, b.nextstate), 0, b.olabel, INS_COST);
        EmitSound(a, s1, (refA, b.nextstate), 0, b.olabel, INS_COST);
        EmitSound(a, s2, (arcA.nextstate, b.nextstate), arcA.ilabel, b.olabel, SUB_COST);
        ExtendsTrans(s, s1, s2);
        ExtendsTrans(s, s2, HypArc(p, refA, arcA, b));
      }
    }
  }

  lemma RefArcSound(c: Ctx, s: Scan, refA: int, refB: int, arcA: Arc)
    requires Sound(c.a, s)
    ensures Sound(c.a, RefArc(c, s, refA, refB, arcA)) && Extends(s, RefArc(c, s, refA, refB, arcA))
  {
    if arcA.nextstate == refA {
    } else if arcA.olabel == 0 {
      EmitSound(c.a, s, (arcA.nextstate, refB), 0, 0, 0);
    } else if SynonymId(c, arcA.olabel) || EntityId(c, arcA.olabel) {
      var memo := (refA, arcA.olabel) in s.t.exits;
      var syn := SynonymId(c, arcA.olabel);
      var found := if memo || !syn then None else ExitFrom(c.a, c.b, |c.a.arcs|, arcA.olabel, arcA.nextstate, refB);
      if memo || !syn || found.Some? {
        var s1 := Scan(Remember(s.t, found, arcA.olabel), s.matches + 1, s.out);
        if found.Some? {
          ExitFromFound(c.a, c.b, |c.a.arcs|, arcA.olabel, arcA.nextstate, refB);
        }
        assert Sound(c.a, s1);
        EmitSound(c.a, s1, (arcA.nextstate, refB), arcA.ilabel, c.delLabel, 0);
        ExtendsTrans(s, s1, RefArc(c, s, refA, refB, arcA));
      }
    } else {
      var h := HypArcs(s, refA, arcA, ArcsOf(c.b, refB));
      HypArcsSound(c.a, s, refA, arcA, ArcsOf(c.b, refB));
      if h.matches == 0 {
        EmitSound(c.a, h, (arcA.nextstate, refB), arcA.ilabel, 0, DEL_COST);
        ExtendsTrans(s, h, RefArc(c, s, refA, refB, arcA));
      }
    }
  }

  lemma {:induction false} RefArcsSound(c: Ctx, s: Scan, refA: int, refB: int, as_: seq<Arc>)
    requires Sound(c.a, s)
    ensures Sound(c.a, RefArcs(c, s, refA, refB, as_)) && Extends(s, RefArcs(c, s, refA, refB, as_))
  {
    if |as_| > 0 {
      var p := RefArcs(c, s, refA, refB, as_[..|as_| - 1]);
      RefArcsSound(c, s, refA, refB, as_[..|as_| - 1]);
      RefArcSound(c, p, refA, refB, as_[|as_| - 1]);
      ExtendsTrans(s, p, RefArcs(c, s, refA, refB, as_));
    }
  }

  /** Arc `i` after `s` in `r` is the insertion of hypothesis arc `b` from reference state
    * refA: input epsilon, the hypothesis output label, the insertion cost, and a target whose
    * pair is (refA, b's target). */
  ghost predicate InsertionAt(s: Scan, r: Scan, refA: int, b: Arc, i: int)
    requires 0 <= |s.out| + i < |r.out|
  {
    var arc := r.out[|s.out| + i];
    && arc.ilabel == 0 && arc.olabel == b.olabel && arc.weight == INS_COST
    && arc.nextstate in r.t.reversed && r.t.reversed[arc.nextstate] == (refA, b.nextstate)
  }

  /** At the end of the reference graph, arc i is the insertion of hypothesis arc i. */
  ghost predicate InsertsEach(s: Scan, r: Scan, refA: int, bs: seq<Arc>)
  {
    && |r.out| == |s.out| + |bs|
    && forall i :: 0 <= i < |bs| ==> InsertionAt(s, r, refA, bs[i], i)
  }

  lemma InsertsEachStep(s: Scan, p: Scan, r: Scan, refA: int, bs: seq<Arc>)
    requires |bs| > 0 && InsertsEach(s, p, refA, bs[..|bs| - 1]) && Extends(p, r) && |r.out| == |p.out| + 1
    requires InsertionAt(s, r, refA, bs[|bs| - 1], |bs| - 1)
    ensures InsertsEach(s, r, refA, bs)
  {
    var n := |bs| - 1;
    forall i | 0 <= i < |bs|
      ensures InsertionAt(s, r, refA, bs[i], i)
    {
      if i < n {
        assert bs[..n][i] == bs[i];
        assert InsertionAt(s, p, refA, bs[i], i);
        assert r.out[|s.out| + i] == p.out[|s.out| + i];
      }
    }
  }

  lemma {:induction false} InsTailSound(a: Graph, s: Scan, refA: int, bs: seq<Arc>)
    requires Sound(a, s)
    ensures var r := InsTail(s, refA, bs); Sound(a, r) && Extends(s, r) && InsertsEach(s, r, refA, bs)
  {
    if |bs| > 0 {
      var n := |bs| - 1;
      var p := InsTail(s, refA, bs[..n]);
      var r := InsTail(s, refA, bs);
      InsTailSound(a, s, refA, bs[..n]);
      EmitSound(a, p, (refA, bs[n].nextstate), 0, bs[n].olabel, INS_COST);
      ExtendsTrans(s, p, r);
      assert InsertionAt(s, r, refA, bs[n], n);
      InsertsEachStep(s, p, r, refA, bs);
    }
  }

  /** On dense tables every synthesised arc leads to an existing composed state and is priced,
    * the tables stay dense and only grow, and the memo only records states with an out-arc
    * carrying the memoised label. */
  lemma ArcsAtSound(c: Ctx, t: Tables, refA: int, refB: int)
    requires Dense(t) && ExitsSound(c.a, t.exits)
    ensures Sound(c.a, ArcsAt(c, t, refA, refB)) && Grows(t, ArcsAt(c, t, refA, refB).t)
  {
    var s0 := Scan(t, 0, []);
    RefArcsSound(c, s0, refA, refB, ArcsOf(c.a, refA));
    if |ArcsOf(c.a, refA)| == 0 {
      var s := RefArcs(c, s0, refA, refB, ArcsOf(c.a, refA));
      InsTailSound(c.a, s, refA, ArcsOf(c.b, refB));
    }
  }

  /** A reference state without arcs yields exactly one insertion per hypothesis arc, in
    * order, each to (refA, that arc's target). */
  lemma NoRefArcsInsertEach(c: Ctx, t: Tables, refA: int, refB: int)
    requires Dense(t) && ExitsSound(c.a, t.exits) && |ArcsOf(c.a, refA)| == 0
    ensures InsertsEach(Scan(t, 0, []), ArcsAt(c, t, refA, refB), refA, ArcsOf(c.b, refB))
  {
    InsTailSound(c.a, Scan(t, 0, []), refA, ArcsOf(c.b, refB));
  }

  // ---------------------------------------------------------------------------------------
  // How many arcs a plain reference arc produces.

  /** The number of hypothesis arcs whose input label is `l`. */
  function CountMatches(l: int, bs: seq<Arc>): (n: nat)
    ensures n <= |bs|
  {
    if |bs| == 0 then 0 else CountMatches(l, bs[..|bs| - 1]) + (if bs[|bs| - 1].ilabel == l then 1 else 0)
  }

  /** The position of the first hypothesis arc whose input label is `l`, or |bs|. */
  function FirstMatch(l: int, bs: seq<Arc>): (k: nat)
    ensures k <= |bs| && (k < |bs| ==> bs[k].ilabel == l)
    ensures forall j :: 0 <= j < k ==> bs[j].ilabel != l
  {
    if |bs| == 0 then 0
    else if FirstMatch(l, bs[..|bs| - 1]) < |bs| - 1 then FirstMatch(l, bs[..|bs| - 1])
    else if bs[|bs| - 1].ilabel == l then |bs| - 1
    else |bs|
  }

  lemma {:induction false} NoMatchCount(l: int, bs: seq<Arc>)
    ensures CountMatches(l, bs) == 0 <==> FirstMatch(l, bs) == |bs|
  {
    if |bs| > 0 {
      NoMatchCount(l, bs[..|bs| - 1]);
    }
  }

  /** Over the hypothesis arcs, every match adds one zero-cost arc and bumps the counter;
    * while the counter of the state is still 0, each hypothesis arc before the first match
    * adds an insertion and a substitution. */
  lemma {:induction false} HypArcsCount(s: Scan, refA: int, arcA: Arc, bs: seq<Arc>)
    requires s.matches >= 0
    ensures var r := HypArcs(s, refA, arcA, bs);
      && r.matches == s.matches + CountMatches(arcA.olabel, bs)
      && |r.out| == |s.out| + CountMatches(arcA.olabel, bs) + (if s.matches == 0 then 2 * FirstMatch(arcA.olabel, bs) else 0)
  {
    if |bs| > 0 {
      HypArcsCount(s, refA, arcA, bs[..|bs| - 1]);
      NoMatchCount(arcA.olabel, bs[..|bs| - 1]);
    }
  }

  /** A plain reference arc (no self-loop, no epsilon, no entity label) from a state whose
    * counter is still 0 and where no hypothesis arc matches produces 2|bs| + 1 arcs, the last
    * being the deletion (ilabel, epsilon) to (next, refB); a deletion is produced only then. */
  lemma PlainArcDeletion(c: Ctx, s: Scan, refA: int, refB: int, arcA: Arc)
    requires Sound(c.a, s) && s.matches >= 0
    requires arcA.nextstate != refA && arcA.olabel != 0 && !SynonymId(c, arcA.olabel) && !EntityId(c, arcA.olabel)
    ensures var r := RefArc(c, s, refA, refB, arcA); var bs := ArcsOf(c.b, refB);
      var deleted := s.matches == 0 && CountMatches(arcA.olabel, bs) == 0;
      && r.matches == s.matches + CountMatches(arcA.olabel, bs)
      && |r.out| == |s.out| + CountMatches(arcA.olabel, bs)
                    + (if s.matches == 0 then 2 * FirstMatch(arcA.olabel, bs) else 0)
                    + (if deleted then 1 else 0)
      && (deleted ==> |bs| == FirstMatch(arcA.olabel, bs)
                      && r.out[|r.out| - 1].ilabel == arcA.ilabel && r.out[|r.out| - 1].olabel == 0
                      && r.out[|r.out| - 1].weight == DEL_COST
                      && r.out[|r.out| - 1].nextstate in r.t.reversed
                      && r.t.reversed[r.out[|r.out| - 1].nextstate] == (arcA.nextstate, refB))
  {
    var bs := ArcsOf(c.b, refB);
    HypArcsCount(s, refA, arcA, bs);
    NoMatchCount(arcA.olabel, bs);
    var h := HypArcs(s, refA, arcA, bs);
    HypArcsSound(c.a, s, refA, arcA, bs);
    if h.matches == 0 {
      EmitSound(c.a, h, (arcA.nextstate, refB), arcA.ilabel, 0, DEL_COST);
    }
  }

  /** The single-word case of a perfect match: one plain reference arc against one hypothesis
    * arc with the same label gives exactly one zero-cost arc, to the pair of their targets. */
  lemma PerfectMatchOneArc(c: Ctx, t: Tables, refA: int, refB: int)
    requires Dense(t) && ExitsSound(c.a, t.exits)
    requires |ArcsOf(c.a, refA)| == 1 && |ArcsOf(c.b, refB)| == 1
    requires var x := ArcsOf(c.a, refA)[0]; var y := ArcsOf(c.b, refB)[0];
      x.nextstate != refA && x.olabel != 0 && !SynonymId(c, x.olabel) && !EntityId(c, x.olabel) && y.ilabel == x.olabel
    ensures var x := ArcsOf(c.a, refA)[0]; var y := ArcsOf(c.b, refB)[0]; var r := ArcsAt(c, t, refA, refB);
      && |r.out| == 1 && r.out[0].ilabel == x.ilabel && r.out[0].olabel == y.olabel && r.out[0].weight == 0
      && r.out[0].nextstate in r.t.reversed && r.t.reversed[r.out[0].nextstate] == (x.nextstate, y.nextstate)
  {
    var x := ArcsOf(c.a, refA)[0];
    var y := ArcsOf(c.b, refB)[0];
    var s0 := Scan(t, 0, []);
    assert ArcsOf(c.a, refA)[..0] == [] && ArcsOf(c.b, refB)[..0] == [];
    assert RefArcs(c, s0, refA, refB, ArcsOf(c.a, refA)) == RefArc(c, s0, refA, refB, x);
    assert HypArcs(s0, refA, x, ArcsOf(c.b, refB)) == HypArc(s0, refA, x, y);
    EmitSound(c.a, s0.(matches := 1), (x.nextstate, y.nextstate), x.ilabel, y.olabel, 0);
  }

  /** The flags of a label id as SetSymbols computes them from its name. */
  ghost predicate FlagsOf(names: seq<string>, synonymIds: seq<bool>, entityIds: seq<bool>)
  {
    && |synonymIds| == |names| && |entityIds| == |names|
    && (forall k :: 0 <= k < |names| ==> synonymIds[k] == IsSynonymLabel(names[k]))
    && (forall k :: 0 <= k < |names| ==> entityIds[k] == (!IsSynonymLabel(names[k]) && IsEntityLabel(names[k])))
  }

  /** A label is treated as an entity (synonym or not) exactly when its name is an entity
    * label, and never as both a synonym and a plain entity. */
  lemma FlagsEntity(names: seq<string>, synonymIds: seq<bool>, entityIds: seq<bool>, l: int)
    requires FlagsOf(names, synonymIds, entityIds) && 0 <= l < |names|
    ensures synonymIds[l] || entityIds[l] <==> IsEntityLabel(names[l])
    ensures !(synonymIds[l] && entityIds[l])
  {
  }

  // ---------------------------------------------------------------------------------------
  // The composition object.

  class AdaptedCompositionFst {
    const fstA: Graph
    const fstB: Graph
    var composed: map<Pair, int>
    var reversed: map<int, Pair>
    var exits: set<Pair>
    var next: int
    var hasSymbols: bool
    var synonymIds: seq<bool>
    var entityIds: seq<bool>
    /** The names of the symbol table the flags were computed from. */
    ghost var names: seq<string>
    const insLabel: int
    const delLabel: int
    const subLabel: int

    function State(): Tables
      reads this
    {
      Tables(composed, reversed, next, exits)
    }

    function Context(): Ctx
      reads this
    {
      Ctx(fstA, fstB, hasSymbols, synonymIds, entityIds, delLabel)
    }

    ghost predicate Valid()
      reads this
    {
      Dense(State()) && ExitsSound(fstA, exits) && FlagsOf(names, synonymIds, entityIds)
    }

    /** Without a symbol table: no label is an entity, the marker ids are 1, 2, 3. */
    constructor (a: Graph, b: Graph)
      ensures Valid() && State() == EmptyTables && fstA == a && fstB == b && !hasSymbols
      ensures (insLabel, delLabel, subLabel) == (DEFAULT_INS_LABEL, DEFAULT_DEL_LABEL, DEFAULT_SUB_LABEL)
    {
      fstA, fstB := a, b;
      insLabel, delLabel, subLabel := DEFAULT_INS_LABEL, DEFAULT_DEL_LABEL, DEFAULT_SUB_LABEL;
      composed, reversed, exits, next := map[], map[], {}, 0;
      hasSymbols, synonymIds, entityIds, names := false, [], [], [];
    }

    /** With a symbol table: its flags, and the marker ids looked up in it. */
    constructor WithSymbols(a: Graph, b: Graph, table: SymbolTable)
      ensures Valid() && State() == EmptyTables && fstA == a && fstB == b
      ensures hasSymbols && names == table.symbols
      ensures (insLabel, delLabel, subLabel) == (table.Find(SYM_INS), table.Find(SYM_DEL), table.Find(SYM_SUB))
    {
      fstA, fstB := a, b;
      insLabel, delLabel, subLabel := table.Find(SYM_INS), table.Find(SYM_DEL), table.Find(SYM_SUB);
      composed, reversed, exits, next := map[], map[], {}, 0;
      hasSymbols, synonymIds, entityIds, names := false, [], [], [];
      new;
      SetSymbols(table);
    }

    /** The flag vectors are resized to the table and set from each symbol's name; a symbol
      * is flagged entity only if it is not a synonym. */
    method SetSymbols(table: SymbolTable)
      requires Valid()
      modifies this
      ensures Valid() && State() == old(State()) && hasSymbols && names == table.symbols
    {
      var syms := table.symbols;
      hasSymbols := true;
      names := syms;
      synonymIds := seq(|syms|, _ => false);
      entityIds := seq(|syms|, _ => false);
      for sid := 0 to |syms|
        invariant hasSymbols && names == syms && State() == old(State())
        invariant |synonymIds| == |syms| && |entityIds| == |syms|
        invariant forall k :: 0 <= k < |syms| ==> synonymIds[k] == (k < sid && IsSynonymLabel(syms[k]))
        invariant forall k :: 0 <= k < |syms| ==> entityIds[k] == (k < sid && !IsSynonymLabel(syms[k]) && IsEntityLabel(syms[k]))
      {
        var token := syms[sid];
        if IsSynonymLabel(token) {
          synonymIds := synonymIds[sid := true];
        } else if IsEntityLabel(token) {
          entityIds := entityIds[sid := true];
        }
      }
    }

    function IsSynonymLabelId(l: int): (b: bool)
      reads this
      ensures Valid() ==> (b <==> hasSymbols && 0 <= l < |names| && IsSynonymLabel(names[l]))
    {
      SynonymId(Context(), l)
    }

    function IsEntityLabelId(l: int): (b: bool)
      reads this
      ensures Valid() ==> (b <==> hasSymbols && 0 <= l < |names| && IsEntityLabel(names[l]) && !IsSynonymLabel(names[l]))
    {
      EntityId(Context(), l)
    }

    method GetOrCreateComposedState(a: int, b: int) returns (id: int)
      requires Valid()
      modifies this
      ensures Valid() && Context() == old(Context()) && names == old(names)
      ensures (State(), id) == Intern(old(State()), (a, b))
    {
      InternKeeps(State(), (a, b));
      if (a, b) in composed {
        id := composed[(a, b)];
      } else {
        id := next;
        next := next + 1;
        composed := composed[(a, b) := id];
        if id !in reversed {
          reversed := reversed[id := (a, b)];
        }
      }
    }

    method Start() returns (id: int)
      requires Valid()
      modifies this
      ensures Valid() && Context() == old(Context()) && names == old(names)
      ensures (State(), id) == Intern(old(State()), (fstA.start, fstB.start))
    {
      id := GetOrCreateComposedState(fstA.start, fstB.start);
    }

    function DoesComposedStateExist(a: int, b: int): (r: bool)
      reads this
      ensures Valid() ==> (r <==> exists k :: k in reversed && reversed[k] == (a, b))
    {
      PairExistsIff(State(), (a, b));
      (a, b) in composed
    }

    /** The one-argument check, with the id it is given (see IdExistsAsWritten). */
    function DoesComposedIdExist(id: int): (r: bool)
      reads this
      ensures Valid() ==> (r <==> 0 <= id < next)
    {
      IdExists(State(), id)
    }

    function Final(id: int): (w: Option<int>)
      reads this
      ensures w == FinalWeight(fstA, fstB, State(), id)
    {
      if !DoesComposedIdExist(id) then Some(0)
      else if IsFinal(fstA, reversed[id].0) && IsFinal(fstB, reversed[id].1) then Some(0)
      else None
    }

    /** The reachability search, with the fuel bound described at ExitFrom; a success records
      * (state, label) for the state whose arc carries the label. */
    method IsEntityReacheable(target: int, refA: int, refB: int, fuel: nat) returns (found: bool)
      requires Valid()
      modifies this
      ensures Valid() && Context() == old(Context()) && names == old(names)
      ensures found == ExitFrom(fstA, fstB, fuel, target, refA, refB).Some?
      ensures State() == Remember(old(State()), ExitFrom(fstA, fstB, fuel, target, refA, refB), target)
      decreases fuel, 0
    {
      if fuel == 0 {
        return false;
      }
      var arcs := ArcsOf(fstA, refA);
      found := false;
      var i := 0;
      while i < |arcs| && !found
        invariant 0 <= i <= |arcs|
        invariant Valid() && Context() == old(Context()) && names == old(names)
        invariant found == ExitArcs(fstA, fstB, fuel - 1, target, refA, refB, arcs[..i]).Some?
        invariant State() == Remember(old(State()), ExitArcs(fstA, fstB, fuel - 1, target, refA, refB, arcs[..i]), target)
      {
        assert arcs[..i + 1][..i] == arcs[..i];
        found := ReachArc(target, refA, refB, arcs[i], fuel - 1);
        i := i + 1;
      }
      if found {
        ExitArcsSettled(fstA, fstB, fuel - 1, target, refA, refB, arcs, i);
      } else {
        assert arcs[..i] == arcs;
      }
    }

    /** One reference arc of the search: the target label itself, an epsilon arc followed
      * alone, or an arc followed together with each matching hypothesis arc. */
    method ReachArc(target: int, refA: int, refB: int, arc: Arc, fuel: nat) returns (found: bool)
      requires Valid() && arc in ArcsOf(fstA, refA)
      modifies this
      ensures Valid() && Context() == old(Context()) && names == old(names)
      ensures found == ExitArc(fstA, fstB, fuel, target, refA, refB, arc).Some?
      ensures State() == Remember(old(State()), ExitArc(fstA, fstB, fuel, target, refA, refB, arc), target)
      decreases fuel, 2
    {
      if arc.olabel == target {
        ghost var k :| 0 <= k < |ArcsOf(fstA, refA)| && ArcsOf(fstA, refA)[k] == arc;
        exits := exits + {(refA, target)};
        found := true;
      } else if arc.olabel == 0 {
        found := IsEntityReacheable(target, arc.nextstate, refB, fuel);
      } else {
        found := ReachVia(target, arc, refB, fuel);
      }
    }

    method ReachVia(target: int, arc: Arc, refB: int, fuel: nat) returns (found: bool)
      requires Valid()
      modifies this
      ensures Valid() && Context() == old(Context()) && names == old(names)
      ensures found == ExitVia(fstA, fstB, fuel, target, arc, ArcsOf(fstB, refB)).Some?
      ensures State() == Remember(old(State()), ExitVia(fstA, fstB, fuel, target, arc, ArcsOf(fstB, refB)), target)
      decreases fuel, 1
    {
      var bs := ArcsOf(fstB, refB);
      found := false;
      var j := 0;
      while j < |bs| && !found
        invariant 0 <= j <= |bs|
        invariant Valid() && Context() == old(Context()) && names == old(names)
        invariant found == ExitVia(fstA, fstB, fuel, target, arc, bs[..j]).Some?
        invariant State() == Remember(old(State()), ExitVia(fstA, fstB, fuel, target, arc, bs[..j]), target)
      {
        assert bs[..j + 1][..j] == bs[..j];
        if arc.olabel == bs[j].ilabel {
          found := IsEntityReacheable(target, arc.nextstate, bs[j].nextstate, fuel);
        }
        j := j + 1;
      }
      if found {
        ExitViaSettled(fstA, fstB, fuel, target, arc, bs, j);
      } else {
        assert bs[..j] == bs;
      }
    }

    /** The arcs leaving composed state `id`: false and no arcs for an id that was not handed
      * out; otherwise the arcs ArcsAt describes, with the tables and memo it leaves. */
    method TryGetArcsAtState(id: int) returns (ok: bool, out: seq<Arc>)
      requires Valid()
      modifies this
      ensures Valid() && Context() == old(Context()) && names == old(names)
      ensures ok == IdExists(old(State()), id)
      ensures !ok ==> out == [] && State() == old(State())
      ensures ok ==> var p := old(reversed[id]); var r := ArcsAt(Context(), old(State()), p.0, p.1);
                     State() == r.t && out == r.out
    {
      if !DoesComposedIdExist(id) {
        return false, [];
      }
      var refA, refB := reversed[id].0, reversed[id].1;
      var arcs := ArcsOf(fstA, refA);
      ghost var s0 := Scan(State(), 0, []);
      var matches := 0;
      out := [];
      for i := 0 to |arcs|
        invariant Valid() && Context() == old(Context()) && names == old(names)
        invariant Scan(State(), matches, out) == RefArcs(Context(), s0, refA, refB, arcs[..i])
      {
        matches, out := NextRefArc(refA, refB, arcs, i, matches, out, s0);
      }
      assert arcs[..|arcs|] == arcs;
      if |arcs| == 0 {
        out := InsertEachHyp(refA, refB, matches, out);
      }
      ok := true;
    }

    method NextRefArc(refA: int, refB: int, arcs: seq<Arc>, i: nat, matches: int, out: seq<Arc>, ghost s0: Scan)
      returns (matches': int, out': seq<Arc>)
      requires Valid() && i < |arcs|
      requires Scan(State(), matches, out) == RefArcs(Context(), s0, refA, refB, arcs[..i])
      modifies this
      ensures Valid() && Context() == old(Context()) && names == old(names)
      ensures Scan(State(), matches', out') == RefArcs(Context(), s0, refA, refB, arcs[..i + 1])
    {
      assert arcs[..i + 1][..i] == arcs[..i];
      matches', out' := ExpandRefArc(refA, refB, arcs[i], matches, out);
    }

    /** One reference arc; see RefArc. */
    method ExpandRefArc(refA: int, refB: int, arcA: Arc, matches: int, out: seq<Arc>) returns (matches': int, out': seq<Arc>)
      requires Valid()
      modifies this
      ensures Valid() && Context() == old(Context()) && names == old(names)
      ensures Scan(State(), matches', out') == RefArc(Context(), Scan(old(State()), matches, out), refA, refB, arcA)
    {
      if arcA.nextstate == refA {
        return matches, out;
      }
      if arcA.olabel == 0 {
        var skip := GetOrCreateComposedState(arcA.nextstate, refB);
        return matches, out + [Arc(0, 0, 0, skip)];
      }
      var isSynonym := IsSynonymLabelId(arcA.olabel);
      var isEntity := isSynonym || IsEntityLabelId(arcA.olabel);
      if isEntity {
        var isExit := (refA, arcA.olabel) in exits;
        var emitted := isExit || !isSynonym;
        if !emitted {
          emitted := IsEntityReacheable(arcA.olabel, arcA.nextstate, refB, |fstA.arcs|);
        }
        if emitted {
          var del := GetOrCreateComposedState(arcA.nextstate, refB);
          return matches + 1, out + [Arc(arcA.ilabel, delLabel, 0, del)];
        }
        return matches, out;
      }
      matches', out' := ScanHypArcs(refA, refB, arcA, matches, out);
      if matches' == 0 {
        var del := GetOrCreateComposedState(arcA.nextstate, refB);
        out' := out' + [Arc(arcA.ilabel, 0, DEL_COST, del)];
      }
    }

    method ScanHypArcs(refA: int, refB: int, arcA: Arc, matches: int, out: seq<Arc>) returns (matches': int, out': seq<Arc>)
      requires Valid()
      modifies this
      ensures Valid() && Context() == old(Context()) && names == old(names)
      ensures Scan(State(), matches', out') == HypArcs(Scan(old(State()), matches, out), refA, arcA, ArcsOf(fstB, refB))
    {
      var bs := ArcsOf(fstB, refB);
      ghost var s0 := Scan(State(), matches, out);
      matches', out' := matches, out;
      for j := 0 to |bs|
        invariant Valid() && Context() == old(Context()) && names == old(names)
        invariant Scan(State(), matches', out') == HypArcs(s0, refA, arcA, bs[..j])
      {
        assert bs[..j + 1][..j] == bs[..j];
        matches', out' := ExpandHypArc(refA, arcA, bs[j], matches', out');
      }
      assert bs[..|bs|] == bs;
    }

    /** One hypothesis arc; see HypArc. */
    method ExpandHypArc(refA: int, arcA: Arc, arcB: Arc, matches: int, out: seq<Arc>) returns (matches': int, out': seq<Arc>)
      requires Valid()
      modifies this
      ensures Valid() && Context() == old(Context()) && names == old(names)
      ensures Scan(State(), matches', out') == HypArc(Scan(old(State()), matches, out), refA, arcA, arcB)
    {
      matches', out' := matches, out;
      if arcA.olabel == arcB.ilabel {
        matches' := matches' + 1;
        var c := GetOrCreateComposedState(arcA.nextstate, arcB.nextstate);
        out' := out' + [Arc(arcA.ilabel, arcB.olabel, 0, c)];
      }
      if matches' == 0 {
        var ins := GetOrCreateComposedState(refA, arcB.nextstate);
        var sub := GetOrCreateComposedState(arcA.nextstate, arcB.nextstate);
        out' := out' + [Arc(0, arcB.olabel, INS_COST, ins)] + [Arc(arcA.ilabel, arcB.olabel, SUB_COST, sub)];
      }
    }

    /** At the end of the reference graph: one insertion per hypothesis arc; see InsTail. */
    method InsertEachHyp(refA: int, refB: int, matches: int, out: seq<Arc>) returns (out': seq<Arc>)
      requires Valid()
      modifies this
      ensures Valid() && Context() == old(Context()) && names == old(names)
      ensures Scan(State(), matches, out') == InsTail(Scan(old(State()), matches, out), refA, ArcsOf(fstB, refB))
    {
      var bs := ArcsOf(fstB, refB);
      ghost var s0 := Scan(State(), matches, out);
      out' := out;
      for j := 0 to |bs|
        invariant Valid() && Context() == old(Context()) && names == old(names)
        invariant Scan(State(), matches, out') == InsTail(s0, refA, bs[..j])
      {
        assert bs[..j + 1][..j] == bs[..j];
        var ins := GetOrCreateComposedState(refA, bs[j].nextstate);
        out' := out' + [Arc(0, bs[j].olabel, INS_COST, ins)];
      }
      assert bs[..|bs|] == bs;
    }
  }
}
