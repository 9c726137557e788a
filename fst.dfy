// The weighted transducers every loader builds and the composition reads: OpenFst's
// StdVectorFst reduced to what the aligner uses (states, arcs with an input label, an
// output label, an integer weight and a target state, a start state and final weights).
// Tropical weights: One is 0, Zero (not final) is None.
module Fst {
  import opened Wrappers

  datatype Arc = Arc(ilabel: int, olabel: int, weight: int, nextstate: int)

  /** A transducer as a value: the out-arcs of every state, the final weight of every
    * state, and the start state (-1 until one is set). */
  datatype Graph = Graph(arcs: seq<seq<Arc>>, finals: seq<Option<int>>, start: int)

  ghost predicate WellFormed(g: Graph)
  {
    |g.arcs| == |g.finals|
  }

  /** The states a walk reaches by taking, at each step, the out-arc whose position is the
    * next choice: the input labels read, the summed weight and the last state; None when
    * a choice names no arc. */
  function Walk(g: Graph, from: int, choices: seq<nat>): Option<(seq<int>, int, int)>
    decreases |choices|
  {
    if |choices| == 0 then Some(([], 0, from))
    else if !(0 <= from < |g.arcs|) || choices[0] >= |g.arcs[from]| then None
    else
      var arc := g.arcs[from][choices[0]];
      match Walk(g, arc.nextstate, choices[1..])
      case None => None
      case Some(rest) => Some(([arc.ilabel] + rest.0, arc.weight + rest.1, rest.2))
  }

  /** The walk that always takes the first out-arc. */
  function FirstArcs(n: nat): seq<nat>
  {
    seq(n, _ => 0)
  }

  predicate IsFinal(g: Graph, s: int)
  {
    0 <= s < |g.finals| && g.finals[s].Some?
  }

  function Sum(w: seq<int>): int
  {
    if |w| == 0 then 0 else w[0] + Sum(w[1..])
  }

  /** The first `i` links of a linear graph: states 0..i, state k < i has the single arc
    * k -> k+1 carrying labels[k] on both sides with weights[k]; nothing is final yet. */
  function PartialChain(labels: seq<int>, weights: seq<int>, i: nat): (g: Graph)
    requires i <= |labels| == |weights|
    ensures WellFormed(g) && |g.arcs| == i + 1
  {
    Graph(seq(i + 1, k => if 0 <= k < i then [Arc(labels[k], labels[k], weights[k], k + 1)] else []),
          seq(i + 1, _ => None), 0)
  }

  /** The linear graph of a token sequence: start 0, one arc per label, the last state final
    * with weight One. */
  function ChainGraph(labels: seq<int>, weights: seq<int>): (g: Graph)
    requires |labels| == |weights|
    ensures WellFormed(g) && |g.arcs| == |labels| + 1
  {
    var g := PartialChain(labels, weights, |labels|);
    g.(finals := g.finals[|labels| := Some(0)])
  }

  /** One more link: the new arc on the old last state and a fresh empty state. */
  lemma ChainStep(labels: seq<int>, weights: seq<int>, i: nat)
    requires i < |labels| == |weights|
    ensures PartialChain(labels, weights, i + 1).arcs
         == PartialChain(labels, weights, i).arcs[i := [Arc(labels[i], labels[i], weights[i], i + 1)]] + [[]]
    ensures PartialChain(labels, weights, i + 1).finals == PartialChain(labels, weights, i).finals + [None]
  {
  }

  /** The last state of a chain is its only final state. */
  lemma ChainFinals(labels: seq<int>, weights: seq<int>, s: int)
    requires |labels| == |weights|
    ensures IsFinal(ChainGraph(labels, weights), s) <==> s == |labels|
  {
  }

  /** One step of a walk: the chosen arc, then the walk from its target. */
  lemma WalkStep(g: Graph, from: int, choices: seq<nat>, a: Arc, rest: (seq<int>, int, int))
    requires 0 <= from < |g.arcs| && |choices| > 0 && choices[0] < |g.arcs[from]|
    requires a == g.arcs[from][choices[0]] && Walk(g, a.nextstate, choices[1..]) == Some(rest)
    ensures Walk(g, from, choices) == Some(([a.ilabel] + rest.0, a.weight + rest.1, rest.2))
  {
  }

  /** The out-arcs of a state of a chain before its last. */
  lemma ChainArc(labels: seq<int>, weights: seq<int>, k: nat)
    requires k < |labels| == |weights|
    ensures ChainGraph(labels, weights).arcs[k] == [Arc(labels[k], labels[k], weights[k], k + 1)]
  {
  }

  lemma FirstArcsTail(n: nat)
    requires n > 0
    ensures FirstArcs(n)[0] == 0 && FirstArcs(n)[1..] == FirstArcs(n - 1)
  {
  }

  lemma SumHead(w: seq<int>, k: nat)
    requires k < |w|
    ensures Sum(w[k..]) == w[k] + Sum(w[k + 1..])
  {
    assert w[k..][1..] == w[k + 1..];
  }

  /** Taking the only arc at every state from state k reads the rest of the labels, sums the
    * rest of the weights and ends in the final state. */
  lemma {:induction false} ChainWalk(labels: seq<int>, weights: seq<int>, k: nat)
    requires k <= |labels| == |weights|
    ensures Walk(ChainGraph(labels, weights), k, FirstArcs(|labels| - k))
         == Some((labels[k..], Sum(weights[k..]), |labels|))
    decreases |labels| - k
  {
    var g := ChainGraph(labels, weights);
    var c := FirstArcs(|labels| - k);
    if k < |labels| {
      ChainWalk(labels, weights, k + 1);
      FirstArcsTail(|labels| - k);
      ChainArc(labels, weights, k);
      var a := Arc(labels[k], labels[k], weights[k], k + 1);
      var rest := (labels[k + 1..], Sum(weights[k + 1..]), |labels|);
      WalkStep(g, k, c, a, rest);
      ConsHead(labels[k..]);
      assert labels[k..][1..] == labels[k + 1..];
      SumHead(weights, k);
    } else {
      assert |c| == 0;
      assert labels[k..] == [] && weights[k..] == [];
    }
  }

  /** ... and it is the only walk from k that ends in a final state. */
  lemma {:induction false} ChainOnlyPath(labels: seq<int>, weights: seq<int>, k: nat, choices: seq<nat>)
    requires k <= |labels| == |weights|
    requires Walk(ChainGraph(labels, weights), k, choices).Some?
    requires IsFinal(ChainGraph(labels, weights), Walk(ChainGraph(labels, weights), k, choices).value.2)
    ensures choices == FirstArcs(|labels| - k)
    decreases |choices|
  {
    var g := ChainGraph(labels, weights);
    if |choices| > 0 {
      assert k < |labels|;
      assert choices[0] == 0;
      ChainOnlyPath(labels, weights, k + 1, choices[1..]);
      assert choices == [0] + choices[1..];
    }
  }

  /** Every arc leads to an existing state. */
  ghost predicate Closed(arcs: seq<seq<Arc>>)
  {
    forall s, j :: 0 <= s < |arcs| && 0 <= j < |arcs[s]| ==> 0 <= arcs[s][j].nextstate < |arcs|
  }

  ghost predicate NoneFinal(finals: seq<Option<int>>)
  {
    forall k :: 0 <= k < |finals| ==> finals[k].None?
  }

  lemma ClosedAddState(arcs: seq<seq<Arc>>)
    requires Closed(arcs)
    ensures Closed(arcs + [[]])
  {
    var arcs': seq<seq<Arc>> := arcs + [[]];
    forall s: int, j: int | 0 <= s < |arcs'| && 0 <= j < |arcs'[s]| ensures 0 <= arcs'[s][j].nextstate < |arcs'| {
      assert s < |arcs| && arcs'[s] == arcs[s];
    }
  }

  lemma ClosedAddArc(arcs: seq<seq<Arc>>, s: int, arc: Arc)
    requires Closed(arcs) && 0 <= s < |arcs| && 0 <= arc.nextstate < |arcs|
    ensures Closed(arcs[s := arcs[s] + [arc]])
  {
    var arcs': seq<seq<Arc>> := arcs[s := arcs[s] + [arc]];
    forall t: int, j: int | 0 <= t < |arcs'| && 0 <= j < |arcs'[t]| ensures 0 <= arcs'[t][j].nextstate < |arcs'| {
      if t == s && j == |arcs[s]| {
      } else {
        assert arcs'[t][j] == arcs[t][j];
      }
    }
  }

  /** StdVectorFst with its mutators. */
  class VectorFst {
    var arcs: seq<seq<Arc>>
    var finals: seq<Option<int>>
    var start: int

    ghost predicate Valid()
      reads this
    {
      |arcs| == |finals|
    }

    function Value(): (g: Graph)
      reads this
      ensures Valid() ==> WellFormed(g)
    {
      Graph(arcs, finals, start)
    }

    function NumStates(): nat
      reads this
    {
      |arcs|
    }

    constructor ()
      ensures Valid() && arcs == [] && finals == [] && start == -1
    {
      arcs, finals, start := [], [], -1;
    }

    /** A new state with no arcs and weight Zero; its id is the old number of states. */
    method AddState() returns (s: int)
      requires Valid()
      modifies this
      ensures Valid() && s == |old(arcs)|
      ensures arcs == old(arcs) + [[]] && finals == old(finals) + [None] && start == old(start)
    {
      s := |arcs|;
      arcs := arcs + [[]];
      finals := finals + [None];
    }

    method AddArc(s: int, arc: Arc)
      requires Valid() && 0 <= s < |arcs|
      modifies this
      ensures Valid()
      ensures arcs == old(arcs)[s := old(arcs)[s] + [arc]] && finals == old(finals) && start == old(start)
    {
      arcs := arcs[s := arcs[s] + [arc]];
    }

    method SetStart(s: int)
      requires Valid() && 0 <= s < |finals|
      modifies this
      ensures Valid()
      ensures arcs == old(arcs) && finals == old(finals) && start == s
    {
      start := s;
    }

    method SetFinal(s: int, w: int)
      requires Valid() && 0 <= s < |finals|
      modifies this
      ensures Valid()
      ensures arcs == old(arcs) && finals == old(finals)[s := Some(w)] && start == old(start)
    {
      finals := finals[s := Some(w)];
    }
  }
}
