// The layered best-first walk over the composed graph (src/Walker.cpp, src/Walker.h): nodes are
// popped from one ordered heap, their successors admitted through a cost logbook into the
// other, the heaps swapped when the first runs dry and the next one pruned every so many
// layers; each final node reached is then read back along its back-links into an alignment.
module Walking {
  import opened Wrappers
  import opened Strings
  import opened Fst
  import opened Symbols
  import opened Alignment
  import opened Composition
  import opened PathHeaps

  /** The defaults of the walker's two public tuning fields. */
  const NUMBER_OF_LOOPS_BEFORE_PRUNING: int := 50
  const PRUNING_HEAP_SIZE_TARGET: int := 20

  // ---------------------------------------------------------------------------------------
  // enqueueIfNeeded

  /** The node made for `arc` out of `parent`. An anchor costs nothing, keeps the word count and
    * starts its error count afresh; numInsert is never inherited. */
  function Child(parent: ShortlistEntry, arc: MyArc, isAnchor: bool): ShortlistEntry
  {
    var toGo := if isAnchor then 0 else arc.weight;
    ShortlistEntry(
      currentState := arc.nextstate,
      whereTo := 0,
      numErrors := if isAnchor then 0 else parent.numErrors + (if arc.weight > 0 then 1 else 0),
      numWords := if isAnchor then parent.numWords else parent.numWords + 1,
      numInsert := if !isAnchor && arc.weight > 0 && arc.ilabel == 0 then 1 else 0,
      costToGoThere := toGo,
      costSoFar := parent.costSoFar + toGo,
      localArc := Some(arc),
      linkToHere := Some(parent))
  }

  /** enqueueIfNeeded on values: nothing for an arc back to the parent's own state; otherwise a
    * new node when the target is not in the logbook or its logged cost is at least the
    * parent's cost plus the arc weight, and the logbook then records the new node's cost. */
  function Admit(logbook: map<int, int>, parent: ShortlistEntry, arc: MyArc, isAnchor: bool)
    : (Option<ShortlistEntry>, map<int, int>)
  {
    var target := arc.nextstate;
    if target == parent.currentState then (None, logbook)
    else if target in logbook && logbook[target] < parent.costSoFar + arc.weight then (None, logbook)
    else
      var e := Child(parent, arc, isAnchor);
      (Some(e), logbook[target := e.costSoFar])
  }

  /** A node is admitted exactly when the target is another state that is either new to the
    * logbook or logged at no less than the new cost; the logbook changes only then, and only
    * at the target. */
  lemma AdmitIff(logbook: map<int, int>, parent: ShortlistEntry, arc: MyArc, isAnchor: bool)
    ensures var (r, lb) := Admit(logbook, parent, arc, isAnchor);
      && (r.Some? <==> arc.nextstate != parent.currentState
                       && (arc.nextstate !in logbook || parent.costSoFar + arc.weight <= logbook[arc.nextstate]))
      && (r.None? ==> lb == logbook)
      && (r.Some? ==> r.value.linkToHere == Some(parent) && r.value.currentState == arc.nextstate
                      && lb.Keys == logbook.Keys + {arc.nextstate} && lb[arc.nextstate] == r.value.costSoFar
                      && forall k :: k in logbook && k != arc.nextstate ==> lb[k] == logbook[k])
  {
  }

  /** With non-negative weights a logged cost never goes up, and no state leaves the logbook. */
  lemma AdmitNeverRaises(logbook: map<int, int>, parent: ShortlistEntry, arc: MyArc, isAnchor: bool)
    requires arc.weight >= 0
    ensures var (r, lb) := Admit(logbook, parent, arc, isAnchor);
      forall k :: k in logbook ==> k in lb && lb[k] <= logbook[k]
  {
  }

  /** A node's counters agree with its back-links: the first node has none and zero counters;
    * every other one was reached by its arc from its parent, one word further, one error
    * further exactly when the arc has a cost, at the parent's cost plus the arc's, and counts
    * an insertion only for a costed arc without a reference word. */
  ghost predicate Consistent(e: ShortlistEntry)
    decreases e
  {
    match e.linkToHere
    case None => e.localArc.None? && e.numWords == 0 && e.numErrors == 0 && e.costSoFar == 0
    case Some(p) =>
      && e.localArc.Some?
      && Consistent(p)
      && e.currentState == e.localArc.value.nextstate
      && e.numWords == p.numWords + 1
      && e.numErrors == p.numErrors + (if e.localArc.value.weight > 0 then 1 else 0)
      && e.costSoFar == p.costSoFar + e.localArc.value.weight
      && e.numInsert == (if e.localArc.value.weight > 0 && e.localArc.value.ilabel == 0 then 1 else 0)
  }

  /** The node the walk starts from: state 0 with every counter at zero and no back-link. */
  const FIRST_ENTRY: ShortlistEntry := DEFAULT_ENTRY

  /** A node admitted from a consistent parent, not at an anchor, is consistent. */
  lemma AdmittedConsistent(logbook: map<int, int>, parent: ShortlistEntry, arc: MyArc)
    requires Consistent(parent)
    ensures var (r, _) := Admit(logbook, parent, arc, false); r.Some? ==> Consistent(r.value)
  {
  }

  /** The arcs from a node back to the first one, last arc first. */
  function ChainArcs(now: Option<ShortlistEntry>): seq<MyArc>
    decreases now
  {
    match now
    case None => []
    case Some(e) =>
      match e.localArc
      case None => []
      case Some(arc) => [arc] + ChainArcs(e.linkToHere)
  }

  function SumWeights(arcs: seq<MyArc>): int
  {
    if |arcs| == 0 then 0 else arcs[0].weight + SumWeights(arcs[1..])
  }

  function CountCosted(arcs: seq<MyArc>): nat
  {
    if |arcs| == 0 then 0 else (if arcs[0].weight > 0 then 1 else 0) + CountCosted(arcs[1..])
  }

  /** A consistent node's word count is the length of its path, its cost the sum of the path's
    * weights and its error count the number of costed arcs on it; the path ends at its state. */
  lemma {:induction false} ChainCounts(e: ShortlistEntry)
    requires Consistent(e)
    ensures var arcs := ChainArcs(Some(e));
      && e.numWords == |arcs| && e.costSoFar == SumWeights(arcs) && e.numErrors == CountCosted(arcs)
      && (|arcs| > 0 ==> arcs[0].nextstate == e.currentState)
    decreases e
  {
    match e.linkToHere
    case None =>
    case Some(p) =>
      ChainCounts(p);
      assert ChainArcs(Some(e)) == [e.localArc.value] + ChainArcs(Some(p));
  }

  /** All nodes of a heap are consistent. */
  ghost predicate AllConsistent(s: seq<ShortlistEntry>)
  {
    forall i :: 0 <= i < |s| ==> Consistent(s[i])
  }

  lemma InsertConsistent(s: seq<ShortlistEntry>, e: ShortlistEntry)
    requires Sorted(s) && AllConsistent(s) && Consistent(e)
    ensures AllConsistent(InsertSorted(s, e))
  {
    InsertSortedSpec(s, e);
    var r := InsertSorted(s, e);
    forall i | 0 <= i < |r|
      ensures Consistent(r[i])
    {
      assert r[i] in r;
    }
  }

  /** The composition's arc as the walker copies it. */
  function ToMyArc(arc: Arc): MyArc
  {
    MyArc(arc.ilabel, arc.olabel, arc.weight, arc.nextstate)
  }

  /** The successors of `cur` along `arcs`, in order: arcs back to `cur`'s own state are skipped,
    * the rest go through the admission test, and admitted nodes into the next heap. */
  function Relax(heap: seq<ShortlistEntry>, logbook: map<int, int>, cur: ShortlistEntry, arcs: seq<Arc>)
    : (seq<ShortlistEntry>, map<int, int>)
  {
    if |arcs| == 0 then (heap, logbook)
    else
      var (h, lb) := Relax(heap, logbook, cur, arcs[..|arcs| - 1]);
      var arc := arcs[|arcs| - 1];
      if arc.nextstate == cur.currentState then (h, lb)
      else
        var (r, lb') := Admit(lb, cur, ToMyArc(arc), false);
        if r.Some? then (InsertSorted(h, r.value), lb') else (h, lb')
  }

  /** Relaxing a consistent node keeps the next heap ordered and all its nodes consistent. */
  lemma {:induction false} RelaxKeeps(heap: seq<ShortlistEntry>, logbook: map<int, int>, cur: ShortlistEntry, arcs: seq<Arc>)
    requires Sorted(heap) && AllConsistent(heap) && Consistent(cur)
    ensures Sorted(Relax(heap, logbook, cur, arcs).0) && AllConsistent(Relax(heap, logbook, cur, arcs).0)
  {
    if |arcs| > 0 {
      RelaxKeeps(heap, logbook, cur, arcs[..|arcs| - 1]);
      var (h, lb) := Relax(heap, logbook, cur, arcs[..|arcs| - 1]);
      var arc := arcs[|arcs| - 1];
      if arc.nextstate != cur.currentState {
        var (r, _) := Admit(lb, cur, ToMyArc(arc), false);
        if r.Some? {
          AdmittedConsistent(lb, cur, ToMyArc(arc));
          InsertSortedSpec(h, r.value);
          InsertConsistent(h, r.value);
        }
      }
    }
  }

  /** A composed state whose two source states are both final, in the given tables. */
  ghost predicate FinalIn(a: Graph, b: Graph, t: Tables, state: int)
  {
    state in t.reversed && IsFinal(a, t.reversed[state].0) && IsFinal(b, t.reversed[state].1)
  }

  /** Recorded nodes: each consistent with its back-links and at a final composed state. */
  ghost predicate Recorded(a: Graph, b: Graph, t: Tables, tops: seq<ShortlistEntry>)
  {
    forall i :: 0 <= i < |tops| ==> Consistent(tops[i]) && FinalIn(a, b, t, tops[i].currentState)
  }

  /** Growing tables keep every final composed state final. */
  lemma KeepFinals(a: Graph, b: Graph, t0: Tables, t1: Tables, tops: seq<ShortlistEntry>)
    requires Grows(t0, t1) && Recorded(a, b, t0, tops)
    ensures Recorded(a, b, t1, tops)
  {
    forall i | 0 <= i < |tops|
      ensures FinalIn(a, b, t1, tops[i].currentState)
    {
    }
  }

  /** Pruning removes nodes and adds none, so all that remain stay consistent. */
  lemma PrunedConsistent(s: seq<ShortlistEntry>, targetSz: int)
    requires Sorted(s) && AllConsistent(s) && targetSz >= 1 && |s| >= 1
    ensures AllConsistent(Pruned(s, targetSz))
  {
    PrunedSpec(s, targetSz);
    var r := Pruned(s, targetSz);
    var k := Min(targetSz, |s|);
    forall i | 0 <= i < |r|
      ensures Consistent(r[i])
    {
      if i < k {
        assert r[i] == r[..k][i];
      } else {
        assert r[i] == r[k..][i - k];
        assert r[i] in r[k..];
        assert r[i] in s[k..];
      }
    }
  }

  /** topEntries.size() < numBests, with numBests converted to size_t as the comparison does: a
    * negative bound allows any number. */
  predicate WantsMore(count: nat, numBests: int)
  {
    count < numBests % SIZE_MODULUS
  }

  // ---------------------------------------------------------------------------------------
  // GetDetailsFromTopCandidates

  /** How the backtrack files an arc that is not an entity label. */
  datatype Kind = Insertion | Deletion | Substitution | Match | Skip

  /** Differing labels: an insertion without a reference word, a deletion without a hypothesis
    * word, else a substitution; equal labels: a match unless either is a reserved symbol. */
  function KindOf(arc: MyArc, special: set<int>): Kind
  {
    if arc.ilabel != arc.olabel then
      if arc.ilabel == 0 then Insertion
      else if arc.olabel == 0 then Deletion
      else Substitution
    else if arc.ilabel !in special && arc.olabel !in special then Match
    else Skip
  }

  /** SymbolTable::Find(int64): the name of a key, "" when unknown. */
  function NameIn(names: seq<string>, k: int): string
  {
    if 0 <= k < |names| then names[k] else ""
  }

  /** The counters and word lists an alignment takes for one arc of the given kind; its token is
    * added only when `withToken`. */
  function Record(w: WerAlignment, k: Kind, il: string, ol: string, withToken: bool): WerAlignment
  {
    match k
    case Insertion =>
      w.(insertions := w.insertions + 1, numWordsInHypothesis := w.numWordsInHypothesis + 1,
         hypWords := w.hypWords + [ol], refWords := w.refWords + [INS], insWords := w.insWords + [ol],
         tokens := if withToken then w.tokens + [(INS, ol)] else w.tokens)
    case Deletion =>
      w.(deletions := w.deletions + 1, numWordsInReference := w.numWordsInReference + 1,
         refWords := w.refWords + [il], hypWords := w.hypWords + [DEL], delWords := w.delWords + [il],
         tokens := if withToken then w.tokens + [(il, DEL)] else w.tokens)
    case Substitution =>
      w.(substitutions := w.substitutions + 1, numWordsInReference := w.numWordsInReference + 1,
         numWordsInHypothesis := w.numWordsInHypothesis + 1,
         refWords := w.refWords + [il], hypWords := w.hypWords + [ol], subWords := w.subWords + [(il, ol)],
         tokens := if withToken then w.tokens + [(il, ol)] else w.tokens)
    case Match =>
      w.(numWordsInHypothesis := w.numWordsInHypothesis + 1, numWordsInReference := w.numWordsInReference + 1,
         refWords := w.refWords + [il], hypWords := w.hypWords + [ol],
         tokens := if withToken then w.tokens + [(il, ol)] else w.tokens)
    case Skip => w
  }

  /** The backtrack's state: the global alignment and, while inside an entity section, the
    * position of that section among the global alignment's nested ones. */
  datatype Back = Back(g: WerAlignment, open: Option<nat>)

  /** One arc of the backtrack, with sections that collect their words: an entity label opens
    * a section on first sight (adding it and its token to the global alignment) and closes it
    * when it comes back; other labels inside are ignored. Any other arc counts in the global
    * alignment and, inside a section, in the section too; its token goes to the section when
    * one is open, else to the global alignment. */
  function Step(b: Back, arc: MyArc, names: seq<string>, special: set<int>): Back
  {
    var il := NameIn(names, arc.ilabel);
    var ol := NameIn(names, arc.olabel);
    var sections := b.g.labelAlignments;
    if IsEntityLabel(il) then
      if b.open.None? then
        Back(b.g.(labelAlignments := sections + [EmptyAlignment(il)], tokens := b.g.tokens + [(il, ol)]), Some(|sections|))
      else if b.open.value < |sections| && il == sections[b.open.value].classLabel then Back(b.g, None)
      else b
    else
      var k := KindOf(arc, special);
      if b.open.Some? && b.open.value < |sections| then
        var j := b.open.value;
        Back(Record(b.g, k, il, ol, false).(labelAlignments := sections[j := Record(sections[j], k, il, ol, true)]), b.open)
      else Back(Record(b.g, k, il, ol, true), b.open)
  }

  /** The backtrack over arcs, first to last. */
  function Fold(arcs: seq<MyArc>, names: seq<string>, special: set<int>, b: Back): Back
  {
    if |arcs| == 0 then b else Fold(arcs[1..], names, special, Step(b, arcs[0], names, special))
  }

  /** The backtrack from a final node: the path's arcs last to first, then every list reversed
    * into reading order. */
  function Details(top: ShortlistEntry, names: seq<string>, special: set<int>): WerAlignment
  {
    Reverse(Fold(ChainArcs(Some(top)), names, special, Back(EmptyAlignment(""), None)).g)
  }

  /** An alignment whose word lists pair up: as many reference as hypothesis words, the
    * reference words being the reference count plus insertions, the hypothesis words the
    * hypothesis count plus deletions. */
  ghost predicate Paired(w: WerAlignment)
  {
    && |w.refWords| == |w.hypWords|
    && w.numWordsInReference + w.insertions == |w.refWords|
    && w.numWordsInHypothesis + w.deletions == |w.hypWords|
  }

  /** The first components of the entity tokens, in order. */
  function EntityFirsts(tokens: seq<TokenPair>): seq<string>
  {
    if |tokens| == 0 then []
    else EntityFirsts(tokens[..|tokens| - 1]) + (if IsEntityLabel(tokens[|tokens| - 1].0) then [tokens[|tokens| - 1].0] else [])
  }

  function Labels(sections: seq<WerAlignment>): seq<string>
  {
    if |sections| == 0 then [] else Labels(sections[..|sections| - 1]) + [sections[|sections| - 1].classLabel]
  }

  function SumTokens(sections: seq<WerAlignment>): nat
  {
    if |sections| == 0 then 0 else SumTokens(sections[..|sections| - 1]) + |sections[|sections| - 1].tokens|
  }

  /** The shape the backtrack keeps: an open section exists; the global alignment and every
    * section are paired; the global entity tokens name the sections in order; every section
    * is labelled by an entity label. */
  ghost predicate WellFormed(b: Back)
  {
    && (b.open.Some? ==> b.open.value < |b.g.labelAlignments|)
    && Paired(b.g)
    && (forall j :: 0 <= j < |b.g.labelAlignments| ==> Paired(b.g.labelAlignments[j]))
    && EntityFirsts(b.g.tokens) == Labels(b.g.labelAlignments)
    && (forall j :: 0 <= j < |b.g.labelAlignments| ==> IsEntityLabel(b.g.labelAlignments[j].classLabel))
  }

  /** The arcs the backtrack files under a kind: arcs whose reference name is not an entity
    * label and whose labels classify as that kind. */
  function CountKind(arcs: seq<MyArc>, names: seq<string>, special: set<int>, k: Kind): nat
  {
    if |arcs| == 0 then 0
    else (if !IsEntityLabel(NameIn(names, arcs[0].ilabel)) && KindOf(arcs[0], special) == k then 1 else 0)
         + CountKind(arcs[1..], names, special, k)
  }

  /** The arcs whose token the backtrack keeps: entity labels that open a section, and all
    * other arcs that are not skipped. */
  function Tokened(arcs: seq<MyArc>, names: seq<string>, special: set<int>): nat
  {
    CountKind(arcs, names, special, Insertion) + CountKind(arcs, names, special, Deletion)
    + CountKind(arcs, names, special, Substitution) + CountKind(arcs, names, special, Match)
  }

  lemma RecordPaired(w: WerAlignment, k: Kind, il: string, ol: string, withToken: bool)
    requires Paired(w)
    ensures Paired(Record(w, k, il, ol, withToken))
    ensures Record(w, k, il, ol, withToken).labelAlignments == w.labelAlignments
    ensures Record(w, k, il, ol, withToken).classLabel == w.classLabel
    ensures |Record(w, k, il, ol, withToken).tokens| == |w.tokens| + (if withToken && k != Skip then 1 else 0)
    ensures withToken && k != Skip ==> Record(w, k, il, ol, withToken).tokens[..|w.tokens|] == w.tokens
    ensures withToken && k != Skip && !IsEntityLabel(il) ==> !IsEntityLabel(Record(w, k, il, ol, withToken).tokens[|w.tokens|].0)
    ensures !withToken || k == Skip ==> Record(w, k, il, ol, withToken).tokens == w.tokens
  {
    assert !IsEntityLabel(INS) by {
      assert INS[..3] == "<in";
    }
  }

  lemma EntityFirstsSnoc(tokens: seq<TokenPair>, t: TokenPair)
    ensures EntityFirsts(tokens + [t]) == EntityFirsts(tokens) + (if IsEntityLabel(t.0) then [t.0] else [])
  {
    assert (tokens + [t])[..|tokens|] == tokens;
  }

  lemma {:induction false} LabelsUpdate(sections: seq<WerAlignment>, j: nat, w: WerAlignment)
    requires j < |sections| && w.classLabel == sections[j].classLabel
    ensures Labels(sections[j := w]) == Labels(sections)
    ensures SumTokens(sections[j := w]) == SumTokens(sections) - |sections[j].tokens| + |w.tokens|
  {
    var n := |sections| - 1;
    var u := sections[j := w];
    if j < n {
      assert u[..n] == sections[..n][j := w];
      LabelsUpdate(sections[..n], j, w);
    } else {
      assert u[..n] == sections[..n];
    }
  }

  lemma LabelsSnoc(sections: seq<WerAlignment>, w: WerAlignment)
    ensures Labels(sections + [w]) == Labels(sections) + [w.classLabel]
    ensures SumTokens(sections + [w]) == SumTokens(sections) + |w.tokens|
  {
    assert (sections + [w])[..|sections|] == sections;
  }

  /** What one step does to the counters and the tokens: the arc's kind is added to the
    * counters when its reference name is not an entity label, and the global and section
    * tokens together grow by one for such an arc that is not skipped and by one for every
    * section opened. */
  ghost predicate Accounts(b: Back, r: Back, arc: MyArc, names: seq<string>, special: set<int>)
  {
    var counted := !IsEntityLabel(NameIn(names, arc.ilabel));
    var k := KindOf(arc, special);
    && r.g.insertions == b.g.insertions + (if counted && k == Insertion then 1 else 0)
    && r.g.deletions == b.g.deletions + (if counted && k == Deletion then 1 else 0)
    && r.g.substitutions == b.g.substitutions + (if counted && k == Substitution then 1 else 0)
    && r.g.numWordsInReference == b.g.numWordsInReference
         + (if counted && (k == Deletion || k == Substitution || k == Match) then 1 else 0)
    && r.g.numWordsInHypothesis == b.g.numWordsInHypothesis
         + (if counted && (k == Insertion || k == Substitution || k == Match) then 1 else 0)
    && |b.g.labelAlignments| <= |r.g.labelAlignments|
    && |r.g.tokens| + SumTokens(r.g.labelAlignments)
       == |b.g.tokens| + SumTokens(b.g.labelAlignments)
          + (if counted && k != Skip then 1 else 0)
          + (|r.g.labelAlignments| - |b.g.labelAlignments|)
  }

  lemma StepEntity(b: Back, arc: MyArc, names: seq<string>, special: set<int>)
    requires WellFormed(b) && IsEntityLabel(NameIn(names, arc.ilabel))
    ensures WellFormed(Step(b, arc, names, special)) && Accounts(b, Step(b, arc, names, special), arc, names, special)
  {
    var il := NameIn(names, arc.ilabel);
    var ol := NameIn(names, arc.olabel);
    var sections := b.g.labelAlignments;
    if b.open.None? {
      EntityFirstsSnoc(b.g.tokens, (il, ol));
      LabelsSnoc(sections, EmptyAlignment(il));
    }
  }

  lemma StepInSection(b: Back, arc: MyArc, names: seq<string>, special: set<int>)
    requires WellFormed(b) && !IsEntityLabel(NameIn(names, arc.ilabel)) && b.open.Some?
    ensures WellFormed(Step(b, arc, names, special)) && Accounts(b, Step(b, arc, names, special), arc, names, special)
  {
    var il := NameIn(names, arc.ilabel);
    var ol := NameIn(names, arc.olabel);
    var sections := b.g.labelAlignments;
    var k := KindOf(arc, special);
    var j := b.open.value;
    var w := Record(sections[j], k, il, ol, true);
    RecordPaired(b.g, k, il, ol, false);
    RecordPaired(sections[j], k, il, ol, true);
    LabelsUpdate(sections, j, w);
    var r := Step(b, arc, names, special);
    assert r.g.labelAlignments == sections[j := w];
    assert r.g.tokens == b.g.tokens;
  }

  lemma StepGlobal(b: Back, arc: MyArc, names: seq<string>, special: set<int>)
    requires WellFormed(b) && !IsEntityLabel(NameIn(names, arc.ilabel)) && b.open.None?
    ensures WellFormed(Step(b, arc, names, special)) && Accounts(b, Step(b, arc, names, special), arc, names, special)
  {
    var il := NameIn(names, arc.ilabel);
    var ol := NameIn(names, arc.olabel);
    var k := KindOf(arc, special);
    RecordPaired(b.g, k, il, ol, true);
    var r := Step(b, arc, names, special);
    if k != Skip {
      assert r.g.tokens == b.g.tokens + [r.g.tokens[|b.g.tokens|]];
      EntityFirstsSnoc(b.g.tokens, r.g.tokens[|b.g.tokens|]);
    }
  }

  /** One step keeps the shape and accounts for its arc. */
  lemma StepKeeps(b: Back, arc: MyArc, names: seq<string>, special: set<int>)
    requires WellFormed(b)
    ensures WellFormed(Step(b, arc, names, special)) && Accounts(b, Step(b, arc, names, special), arc, names, special)
  {
    if IsEntityLabel(NameIn(names, arc.ilabel)) {
      StepEntity(b, arc, names, special);
    } else if b.open.Some? {
      StepInSection(b, arc, names, special);
    } else {
      StepGlobal(b, arc, names, special);
    }
  }

  /** The backtrack keeps the shape; its counters are those of the arcs filed under each kind,
    * its reference count the deletions, substitutions and matches and its hypothesis count
    * the insertions, substitutions and matches; and no token is lost between the global
    * alignment and its sections. */
  lemma {:induction false} FoldCounts(arcs: seq<MyArc>, names: seq<string>, special: set<int>, b: Back)
    requires WellFormed(b)
    ensures var r := Fold(arcs, names, special, b);
      && WellFormed(r)
      && r.g.insertions == b.g.insertions + CountKind(arcs, names, special, Insertion)
      && r.g.deletions == b.g.deletions + CountKind(arcs, names, special, Deletion)
      && r.g.substitutions == b.g.substitutions + CountKind(arcs, names, special, Substitution)
      && r.g.numWordsInReference == b.g.numWordsInReference + CountKind(arcs, names, special, Deletion)
           + CountKind(arcs, names, special, Substitution) + CountKind(arcs, names, special, Match)
      && r.g.numWordsInHypothesis == b.g.numWordsInHypothesis + CountKind(arcs, names, special, Insertion)
           + CountKind(arcs, names, special, Substitution) + CountKind(arcs, names, special, Match)
      && |r.g.tokens| + SumTokens(r.g.labelAlignments)
         == |b.g.tokens| + SumTokens(b.g.labelAlignments) + Tokened(arcs, names, special)
            + (|r.g.labelAlignments| - |b.g.labelAlignments|)
      && |b.g.labelAlignments| <= |r.g.labelAlignments|
    decreases |arcs|
  {
    if |arcs| > 0 {
      StepKeeps(b, arcs[0], names, special);
      var s := Step(b, arcs[0], names, special);
      FoldCounts(arcs[1..], names, special, s);
    }
  }

  /** A start with nothing recorded is well formed. */
  lemma StartWellFormed(b: Back)
    requires b.g == EmptyAlignment(b.g.classLabel) && b.open.None?
    ensures WellFormed(b)
  {
    assert EntityFirsts(b.g.tokens) == [];
    assert Labels(b.g.labelAlignments) == [];
  }

  /** The backtrack from an empty start: paired word lists, counters by arc kind, one section
    * per entity token, and every kept token either global or in a section. */
  lemma FoldFromStart(arcs: seq<MyArc>, names: seq<string>, special: set<int>, lbl: string)
    ensures var r := Fold(arcs, names, special, Back(EmptyAlignment(lbl), None)).g;
      && Paired(r)
      && r.insertions == CountKind(arcs, names, special, Insertion)
      && r.deletions == CountKind(arcs, names, special, Deletion)
      && r.substitutions == CountKind(arcs, names, special, Substitution)
      && r.numWordsInReference == CountKind(arcs, names, special, Deletion)
           + CountKind(arcs, names, special, Substitution) + CountKind(arcs, names, special, Match)
      && r.numWordsInHypothesis == CountKind(arcs, names, special, Insertion)
           + CountKind(arcs, names, special, Substitution) + CountKind(arcs, names, special, Match)
      && EntityFirsts(r.tokens) == Labels(r.labelAlignments)
      && |r.tokens| + SumTokens(r.labelAlignments) == Tokened(arcs, names, special) + |r.labelAlignments|
  {
    var b := Back(EmptyAlignment(lbl), None);
    StartWellFormed(b);
    FoldCounts(arcs, names, special, b);
  }

  /** The alignment read back from a node: reference and hypothesis word lists of equal length;
    * insertions, deletions and substitutions counted by arc kind; reference words the
    * deletions, substitutions and matches, hypothesis words the insertions, substitutions and
    * matches; one nested section per entity token. */
  lemma DetailsCounts(top: ShortlistEntry, names: seq<string>, special: set<int>)
    ensures var d := Details(top, names, special); var arcs := ChainArcs(Some(top));
      && |d.refWords| == |d.hypWords|
      && d.insertions == CountKind(arcs, names, special, Insertion)
      && d.deletions == CountKind(arcs, names, special, Deletion)
      && d.substitutions == CountKind(arcs, names, special, Substitution)
      && d.numWordsInReference == d.deletions + d.substitutions + CountKind(arcs, names, special, Match)
      && d.numWordsInHypothesis == d.insertions + d.substitutions + CountKind(arcs, names, special, Match)
      && |d.labelAlignments| == |EntityFirsts(Fold(arcs, names, special, Back(EmptyAlignment(""), None)).g.tokens)|
  {
    var arcs := ChainArcs(Some(top));
    FoldFromStart(arcs, names, special, "");
    var g := Fold(arcs, names, special, Back(EmptyAlignment(""), None)).g;
    LabelsLength(g.labelAlignments);
  }

  lemma {:induction false} LabelsLength(sections: seq<WerAlignment>)
    ensures |Labels(sections)| == |sections|
  {
    if |sections| > 0 {
      LabelsLength(sections[..|sections| - 1]);
    }
  }

  // ---------------------------------------------------------------------------------------
  // The backtrack as written: the new section is moved into the global alignment's nested
  // list when it opens, so that list keeps an empty copy; the walk goes on filling the
  // moved-from object, whose label is left empty, so the section never closes.

  datatype BackAsWritten = BackAsWritten(g: WerAlignment, section: Option<WerAlignment>)

  function StepAsWritten(b: BackAsWritten, arc: MyArc, names: seq<string>, special: set<int>): BackAsWritten
  {
    var il := NameIn(names, arc.ilabel);
    var ol := NameIn(names, arc.olabel);
    if IsEntityLabel(il) then
      if b.section.None? then
        BackAsWritten(b.g.(labelAlignments := b.g.labelAlignments + [EmptyAlignment(il)], tokens := b.g.tokens + [(il, ol)]),
                      Some(EmptyAlignment("")))
      else if il == b.section.value.classLabel then BackAsWritten(b.g, None)
      else b
    else
      var k := KindOf(arc, special);
      if b.section.Some? then
        BackAsWritten(Record(b.g, k, il, ol, false), Some(Record(b.section.value, k, il, ol, true)))
      else BackAsWritten(Record(b.g, k, il, ol, true), None)
  }

  function FoldAsWritten(arcs: seq<MyArc>, names: seq<string>, special: set<int>, b: BackAsWritten): BackAsWritten
  {
    if |arcs| == 0 then b else FoldAsWritten(arcs[1..], names, special, StepAsWritten(b, arcs[0], names, special))
  }

  /** A path "w" wrapped in the entity label ___1_X___ (read back as the closing label, the
    * word, the opening label): as written the nested section keeps no token and the word's
    * token is nowhere in the result; with sections that collect their words it holds the
    * word. */
  lemma SectionLostAsWritten()
    ensures var names := ["<eps>", "w", "___1_X___"];
      var arcs := [MyArc(2, 2, 0, 3), MyArc(1, 1, 0, 2), MyArc(2, 2, 0, 1)];
      var asWritten := FoldAsWritten(arcs, names, {0}, BackAsWritten(EmptyAlignment(""), None));
      var corrected := Fold(arcs, names, {0}, Back(EmptyAlignment(""), None));
      && asWritten.g.labelAlignments == [EmptyAlignment("___1_X___")]
      && asWritten.g.tokens == [("___1_X___", "___1_X___")]
      && asWritten.section.Some?
      && |corrected.g.labelAlignments| == 1
      && corrected.g.labelAlignments[0].tokens == [("w", "w")]
      && corrected.open.None?
  {
    var names := ["<eps>", "w", "___1_X___"];
    var lbl := "___1_X___";
    var arcs := [MyArc(2, 2, 0, 3), MyArc(1, 1, 0, 2), MyArc(2, 2, 0, 1)];
    assert NameIn(names, 2) == lbl && NameIn(names, 1) == "w";
    assert IsEntityLabel(lbl) && !IsEntityLabel("w");
    assert KindOf(arcs[1], {0}) == Match;
    var e := EmptyAlignment("");
    var opening := e.(labelAlignments := [EmptyAlignment(lbl)], tokens := [(lbl, lbl)]);

    var a1 := StepAsWritten(BackAsWritten(e, None), arcs[0], names, {0});
    assert a1 == BackAsWritten(opening, Some(EmptyAlignment("")));
    var a2 := StepAsWritten(a1, arcs[1], names, {0});
    assert a2.g == Record(opening, Match, "w", "w", false) && a2.section.Some?;
    assert a2.section.value.classLabel == "";
    var a3 := StepAsWritten(a2, arcs[2], names, {0});
    assert a3 == a2;
    assert arcs[1..][0] == arcs[1] && arcs[1..][1..] == arcs[2..] && arcs[2..][0] == arcs[2] && arcs[2..][1..] == [];
    assert FoldAsWritten(arcs[2..], names, {0}, a2) == a3;
    assert FoldAsWritten(arcs[1..], names, {0}, a1) == a3;

    var c1 := Step(Back(e, None), arcs[0], names, {0});
    assert c1 == Back(opening, Some(0));
    var c2 := Step(c1, arcs[1], names, {0});
    assert c2.g.labelAlignments == [Record(EmptyAlignment(lbl), Match, "w", "w", true)] && c2.open == Some(0);
    var c3 := Step(c2, arcs[2], names, {0});
    assert c3 == Back(c2.g, None);
    assert Fold(arcs[2..], names, {0}, c2) == c3;
    assert Fold(arcs[1..], names, {0}, c1) == c3;
  }

  // ---------------------------------------------------------------------------------------
  // The walker object.

  /** The keys whose arcs never count as a match: epsilon, deletion, insertion, substitution
    * and out-of-vocabulary. */
  function Special(options: FstAlignOption): set<int>
    reads options
  {
    {options.epsIdx, options.delIdx, options.insIdx, options.subIdx, options.oovIdx}
  }

  // ---------------------------------------------------------------------------------------
  // The search on values

  /** The walker's search state as a value: the current and next heaps, the logbook, and the
    * layers since the last prune. */
  datatype Layers = Layers(current: seq<ShortlistEntry>, next: seq<ShortlistEntry>, logbook: map<int, int>, loops: int)

  /** The end of a pop: nothing while the current heap has nodes; otherwise a non-empty next
    * heap is pruned once `loopsBeforePruning` layers have passed (restarting the count), the
    * count moves on and the heaps swap. */
  function EndLayer(w: Layers, loopsBeforePruning: int, target: int): (r: Layers)
    requires target >= 1
    ensures r.logbook == w.logbook
  {
    if |w.current| > 0 then w
    else if |w.next| > 0 && w.loops >= loopsBeforePruning then Layers(Pruned(w.next, target), w.current, w.logbook, 1)
    else Layers(w.next, w.current, w.logbook, w.loops + 1)
  }

  /** One pop: the least node leaves the current heap; if its composed state exists, its arcs
    * (as the composition makes them, growing the tables) are relaxed into the next heap, the
    * node is recorded when its state is final, and the layer ends; otherwise nothing else. */
  function PopStep(c: Ctx, t: Tables, w: Layers, tops: seq<ShortlistEntry>, loopsBeforePruning: int, target: int)
    : (r: (Tables, Layers, seq<ShortlistEntry>))
    requires |w.current| > 0 && target >= 1
    ensures r.2 == tops || r.2 == tops + [w.current[0]]
  {
    var cur := w.current[0];
    var rest := w.(current := w.current[1..]);
    if !IdExists(t, cur.currentState) then (t, rest, tops)
    else
      var p := t.reversed[cur.currentState];
      var scan := ArcsAt(c, t, p.0, p.1);
      var (h, lb) := Relax(w.next, w.logbook, cur, scan.out);
      var tops' := if FinalWeight(c.a, c.b, scan.t, cur.currentState).Some? then tops + [cur] else tops;
      (scan.t, EndLayer(rest.(next := h, logbook := lb), loopsBeforePruning, target), tops')
  }

  /** Where the search ends: the tables, the heaps, the recorded nodes and the pops left. */
  datatype SearchEnd = SearchEnd(t: Tables, w: Layers, tops: seq<ShortlistEntry>, fuelLeft: nat)

  /** The search loop: pop while the current heap has nodes, fewer than `numBests` nodes are
    * recorded and pops are left. */
  function SearchRun(c: Ctx, t: Tables, w: Layers, tops: seq<ShortlistEntry>, numBests: int,
                     loopsBeforePruning: int, target: int, fuel: nat): (e: SearchEnd)
    requires target >= 1
    ensures e.fuelLeft <= fuel
    decreases fuel
  {
    if fuel == 0 || |w.current| == 0 || !WantsMore(|tops|, numBests) then SearchEnd(t, w, tops, fuel)
    else
      var (t', w', tops') := PopStep(c, t, w, tops, loopsBeforePruning, target);
      SearchRun(c, t', w', tops', numBests, loopsBeforePruning, target, fuel - 1)
  }

  /** One more pop while the search goes on. */
  lemma SearchRunStep(c: Ctx, t: Tables, w: Layers, tops: seq<ShortlistEntry>, numBests: int,
                      loopsBeforePruning: int, target: int, fuel: nat)
    requires target >= 1 && fuel > 0 && |w.current| > 0 && WantsMore(|tops|, numBests)
    ensures var (t', w', tops') := PopStep(c, t, w, tops, loopsBeforePruning, target);
      SearchRun(c, t, w, tops, numBests, loopsBeforePruning, target, fuel)
      == SearchRun(c, t', w', tops', numBests, loopsBeforePruning, target, fuel - 1)
  {
  }

  /** Where the search stops. */
  lemma SearchRunDone(c: Ctx, t: Tables, w: Layers, tops: seq<ShortlistEntry>, numBests: int,
                      loopsBeforePruning: int, target: int, fuel: nat)
    requires target >= 1 && (fuel == 0 || |w.current| == 0 || !WantsMore(|tops|, numBests))
    ensures SearchRun(c, t, w, tops, numBests, loopsBeforePruning, target, fuel) == SearchEnd(t, w, tops, fuel)
  {
  }

  /** The search stops early only when the current heap is empty or enough nodes are
    * recorded. */
  lemma {:induction false} SearchRunStops(c: Ctx, t: Tables, w: Layers, tops: seq<ShortlistEntry>, numBests: int,
                                          loopsBeforePruning: int, target: int, fuel: nat)
    requires target >= 1
    ensures var e := SearchRun(c, t, w, tops, numBests, loopsBeforePruning, target, fuel);
      e.fuelLeft > 0 ==> |e.w.current| == 0 || !WantsMore(|e.tops|, numBests)
    decreases fuel
  {
    if !(fuel == 0 || |w.current| == 0 || !WantsMore(|tops|, numBests)) {
      var (t', w', tops') := PopStep(c, t, w, tops, loopsBeforePruning, target);
      SearchRunStops(c, t', w', tops', numBests, loopsBeforePruning, target, fuel - 1);
    }
  }

  /** Recorded nodes are never dropped or reordered: the search only appends, at most one
    * node per pop spent. */
  lemma {:induction false} SearchRunAppends(c: Ctx, t: Tables, w: Layers, tops: seq<ShortlistEntry>, numBests: int,
                                            loopsBeforePruning: int, target: int, fuel: nat)
    requires target >= 1
    ensures var e := SearchRun(c, t, w, tops, numBests, loopsBeforePruning, target, fuel);
      |tops| <= |e.tops| <= |tops| + (fuel - e.fuelLeft) && e.tops[..|tops|] == tops
    decreases fuel
  {
    if !(fuel == 0 || |w.current| == 0 || !WantsMore(|tops|, numBests)) {
      var (t', w', tops') := PopStep(c, t, w, tops, loopsBeforePruning, target);
      SearchRunAppends(c, t', w', tops', numBests, loopsBeforePruning, target, fuel - 1);
      var e := SearchRun(c, t', w', tops', numBests, loopsBeforePruning, target, fuel - 1);
      assert e.tops[..|tops'|][..|tops|] == e.tops[..|tops|];
      assert tops'[..|tops|] == tops;
    }
  }

  /** With a non-negative bound the search records no more nodes than asked for, unless it
    * started with more. */
  lemma {:induction false} SearchRunBound(c: Ctx, t: Tables, w: Layers, tops: seq<ShortlistEntry>, numBests: int,
                                          loopsBeforePruning: int, target: int, fuel: nat)
    requires target >= 1 && 0 <= numBests && |tops| <= numBests
    ensures |SearchRun(c, t, w, tops, numBests, loopsBeforePruning, target, fuel).tops| <= numBests
    decreases fuel
  {
    if !(fuel == 0 || |w.current| == 0 || !WantsMore(|tops|, numBests)) {
      var (t', w', tops') := PopStep(c, t, w, tops, loopsBeforePruning, target);
      SearchRunBound(c, t', w', tops', numBests, loopsBeforePruning, target, fuel - 1);
    }
  }

  class Walker {
    var numberOfLoopsBeforePruning: int
    var pruningHeapSizeTarget: int
    /** The lowest cost seen so far at each composed state. */
    var logbook: map<int, int>
    /** The two heaps the walker owns, and which of them is current and which next. */
    const storeA: PathHeap
    const storeB: PathHeap
    var heapA: PathHeap
    var heapB: PathHeap

    ghost predicate Valid()
      reads this, storeA, storeB
    {
      && storeA != storeB
      && ((heapA == storeA && heapB == storeB) || (heapA == storeB && heapB == storeA))
      && storeA.Valid() && storeB.Valid()
      && AllConsistent(storeA.heap) && AllConsistent(storeB.heap)
    }

    /** The search state the walker holds, with the layer count kept by the caller. */
    function Snapshot(loops: int): Layers
      reads this, heapA, heapB
    {
      Layers(heapA.heap, heapB.heap, logbook, loops)
    }

    constructor ()
      ensures Valid() && fresh(storeA) && fresh(storeB)
      ensures heapA == storeA && heapB == storeB && storeA.heap == [] && storeB.heap == []
      ensures logbook == map[]
      ensures numberOfLoopsBeforePruning == NUMBER_OF_LOOPS_BEFORE_PRUNING
      ensures pruningHeapSizeTarget == PRUNING_HEAP_SIZE_TARGET
    {
      numberOfLoopsBeforePruning := NUMBER_OF_LOOPS_BEFORE_PRUNING;
      pruningHeapSizeTarget := PRUNING_HEAP_SIZE_TARGET;
      logbook := map[];
      var a := new PathHeap();
      var b := new PathHeap();
      storeA, storeB := a, b;
      heapA, heapB := a, b;
    }

    method EnqueueIfNeeded(parent: ShortlistEntry, arc: MyArc, isAnchor: bool) returns (enqueued: Option<ShortlistEntry>)
      modifies this
      ensures (enqueued, logbook) == Admit(old(logbook), parent, arc, isAnchor)
      ensures heapA == old(heapA) && heapB == old(heapB)
      ensures numberOfLoopsBeforePruning == old(numberOfLoopsBeforePruning)
      ensures pruningHeapSizeTarget == old(pruningHeapSizeTarget)
    {
      enqueued := None;
      var target := arc.nextstate;
      if target == parent.currentState {
        return;
      }
      var enqueue := false;
      if target !in logbook {
        enqueue := true;
      } else {
        var oldCost := logbook[target];
        if oldCost >= parent.costSoFar + arc.weight {
          enqueue := true;
        }
      }
      if !enqueue {
        return;
      }
      var e := Child(parent, arc, isAnchor);
      logbook := logbook[target := e.costSoFar];
      enqueued := Some(e);
    }

    /** Relaxes every arc out of the popped node into the next heap. */
    method ExpandArcs(cur: ShortlistEntry, arcs: seq<Arc>)
      requires Valid() && Consistent(cur)
      modifies this, heapB
      ensures Valid()
      ensures heapA == old(heapA) && heapB == old(heapB)
      ensures (heapB.heap, logbook) == Relax(old(heapB.heap), old(logbook), cur, arcs)
      ensures numberOfLoopsBeforePruning == old(numberOfLoopsBeforePruning)
      ensures pruningHeapSizeTarget == old(pruningHeapSizeTarget)
    {
      var i := 0;
      while i < |arcs|
        invariant 0 <= i <= |arcs|
        invariant Valid()
        invariant heapA == old(heapA) && heapB == old(heapB)
        invariant (heapB.heap, logbook) == Relax(old(heapB.heap), old(logbook), cur, arcs[..i])
        invariant numberOfLoopsBeforePruning == old(numberOfLoopsBeforePruning)
        invariant pruningHeapSizeTarget == old(pruningHeapSizeTarget)
      {
        RelaxKeeps(old(heapB.heap), old(logbook), cur, arcs[..i]);
        assert arcs[..i + 1][..i] == arcs[..i];
        var arc := arcs[i];
        if arc.nextstate != cur.currentState {
          ghost var lb := logbook;
          var pp := EnqueueIfNeeded(cur, ToMyArc(arc), false);
          if pp.Some? {
            AdmittedConsistent(lb, cur, ToMyArc(arc));
            InsertConsistent(heapB.heap, pp.value);
            heapB.Insert(pp.value);
          }
        }
        i := i + 1;
      }
      assert arcs[..i] == arcs;
    }

    /** Prunes the next heap to the target size. */
    method PruneNext()
      requires Valid() && pruningHeapSizeTarget >= 1 && |heapB.heap| > 0
      modifies heapB
      ensures Valid() && heapB.heap == Pruned(old(heapB.heap), pruningHeapSizeTarget)
    {
      PrunedSpec(heapB.heap, pruningHeapSizeTarget);
      PrunedConsistent(heapB.heap, pruningHeapSizeTarget);
      var _ := heapB.Prune(pruningHeapSizeTarget);
    }

    /** The end of a pop: while the current heap has nodes, nothing; otherwise a non-empty next
      * heap is pruned once enough layers have passed since the last prune (which restarts the
      * count), the layer count moves on and the heaps swap. */
    method EndOfPop(loops: int) returns (loops': int)
      requires Valid() && pruningHeapSizeTarget >= 1
      modifies this, storeA, storeB
      ensures Valid()
      ensures numberOfLoopsBeforePruning == old(numberOfLoopsBeforePruning)
      ensures pruningHeapSizeTarget == old(pruningHeapSizeTarget) && logbook == old(logbook)
      ensures old(|heapA.heap|) > 0 ==>
        (loops' == loops && heapA == old(heapA) && heapB == old(heapB)
         && heapA.heap == old(heapA.heap) && heapB.heap == old(heapB.heap))
      ensures old(|heapA.heap|) == 0 ==>
        (heapA == old(heapB) && heapB == old(heapA) && heapB.heap == old(heapA.heap)
         && if old(|heapB.heap|) > 0 && loops >= numberOfLoopsBeforePruning
            then heapA.heap == Pruned(old(heapB.heap), pruningHeapSizeTarget) && loops' == 1
            else heapA.heap == old(heapB.heap) && loops' == loops + 1)
    {
      loops' := loops;
      if heapA.Size() > 0 {
        return;
      }
      if heapB.Size() > 0 {
        if loops' >= numberOfLoopsBeforePruning {
          PruneNext();
          loops' := 0;
        }
      }
      loops' := loops' + 1;
      heapA, heapB := heapB, heapA;
    }

    /** Removes the best node of the current heap, which is consistent with its back-links. */
    method TakeFirst() returns (cur: ShortlistEntry)
      requires Valid() && |heapA.heap| > 0
      modifies heapA
      ensures Valid() && Consistent(cur) && old(heapA.heap) == [cur] + heapA.heap
    {
      ghost var popped := heapA.heap;
      cur := heapA.RemoveFirst();
      assert popped[0] == cur;
      forall i | 0 <= i < |heapA.heap|
        ensures Consistent(heapA.heap[i])
      {
        assert heapA.heap[i] == popped[i + 1];
      }
    }

    /** The arcs of a popped node relaxed into the next heap, then the end of the layer. */
    method RelaxLayer(cur: ShortlistEntry, arcs: seq<Arc>, loops: int) returns (loops': int)
      requires Valid() && Consistent(cur) && pruningHeapSizeTarget >= 1
      modifies this, storeA, storeB
      ensures Valid() && pruningHeapSizeTarget == old(pruningHeapSizeTarget)
      ensures numberOfLoopsBeforePruning == old(numberOfLoopsBeforePruning)
      ensures var (h, lb) := Relax(old(heapB.heap), old(logbook), cur, arcs);
        Snapshot(loops') == EndLayer(Layers(old(heapA.heap), h, lb, loops), numberOfLoopsBeforePruning, pruningHeapSizeTarget)
    {
      ExpandArcs(cur, arcs);
      ghost var mid := Snapshot(loops);
      loops' := EndOfPop(loops);
      assert Snapshot(loops') == EndLayer(mid, numberOfLoopsBeforePruning, pruningHeapSizeTarget);
    }

    /** One pop: the least node of the current heap is removed; when its arcs can be had they
      * are relaxed into the next heap, the node is recorded if its composed state is final,
      * and the layer ends as EndOfPop says; when they cannot, nothing else happens. */
    method Pop(fst: AdaptedCompositionFst, topEntries: seq<ShortlistEntry>, loops: int)
      returns (topEntries': seq<ShortlistEntry>, loops': int)
      requires Valid() && fst.Valid() && pruningHeapSizeTarget >= 1 && |heapA.heap| > 0
      requires Recorded(fst.fstA, fst.fstB, fst.State(), topEntries)
      modifies this, storeA, storeB, fst
      ensures Valid() && fst.Valid() && pruningHeapSizeTarget == old(pruningHeapSizeTarget)
      ensures Recorded(fst.fstA, fst.fstB, fst.State(), topEntries')
      ensures fst.Context() == old(fst.Context()) && numberOfLoopsBeforePruning == old(numberOfLoopsBeforePruning)
      ensures (fst.State(), Snapshot(loops'), topEntries')
        == PopStep(fst.Context(), old(fst.State()), Layers(old(heapA.heap), old(heapB.heap), old(logbook), loops),
                   topEntries, numberOfLoopsBeforePruning, pruningHeapSizeTarget)
    {
      topEntries', loops' := topEntries, loops;
      ghost var w0 := Layers(heapA.heap, heapB.heap, logbook, loops);
      var cur := TakeFirst();
      ghost var rest := w0.(current := heapA.heap);
      assert rest == Layers(heapA.heap, heapB.heap, logbook, loops);
      ghost var t0 := fst.State();
      var s := cur.currentState;
      var ok, arcs := fst.TryGetArcsAtState(s);
      if !ok {
        return;
      }
      ArcsAtSound(fst.Context(), t0, t0.reversed[s].0, t0.reversed[s].1);
      KeepFinals(fst.fstA, fst.fstB, t0, fst.State(), topEntries);
      loops' := RelaxLayer(cur, arcs, loops);
      if fst.Final(s).Some? {
        topEntries' := topEntries + [cur];
      }
    }

    /** The search: the first node goes into the current heap, then pops go on while that
      * heap has nodes, fewer than `numBests` nodes are recorded and fewer than `fuel` pops are
      * spent, as SearchRun says. Every recorded node is final, consistent with its back-links,
      * and there are no more than asked for. */
    method Search(fst: AdaptedCompositionFst, numBests: int, fuel: nat) returns (topEntries: seq<ShortlistEntry>)
      requires Valid() && fst.Valid() && pruningHeapSizeTarget >= 1
      modifies this, storeA, storeB, fst
      ensures Valid() && fst.Valid()
      ensures 0 <= numBests ==> |topEntries| <= numBests
      ensures Recorded(fst.fstA, fst.fstB, fst.State(), topEntries)
      ensures var first := Intern(old(fst.State()), (fst.fstA.start, fst.fstB.start)).0;
        var e := SearchRun(old(fst.Context()), first, Layers(InsertSorted(old(heapA.heap), FIRST_ENTRY), old(heapB.heap), old(logbook), 0),
                           [], numBests, old(numberOfLoopsBeforePruning), old(pruningHeapSizeTarget), fuel);
        && topEntries == e.tops && fst.State() == e.t
        && Snapshot(e.w.loops) == e.w
    {
      var _ := fst.Start();
      InsertConsistent(heapA.heap, FIRST_ENTRY);
      heapA.Insert(FIRST_ENTRY);
      assert Snapshot(0) == Layers(InsertSorted(old(heapA.heap), FIRST_ENTRY), old(heapB.heap), old(logbook), 0);
      if 0 <= numBests {
        SearchRunBound(fst.Context(), fst.State(), Snapshot(0), [], numBests, numberOfLoopsBeforePruning, pruningHeapSizeTarget, fuel);
      }
      topEntries := SearchLoop(fst, numBests, fuel);
    }

    /** The loop of the search, from the heaps as they stand with the layer count at 0. */
    method SearchLoop(fst: AdaptedCompositionFst, numBests: int, fuel: nat) returns (topEntries: seq<ShortlistEntry>)
      requires Valid() && fst.Valid() && pruningHeapSizeTarget >= 1
      modifies this, storeA, storeB, fst
      ensures Valid() && fst.Valid()
      ensures Recorded(fst.fstA, fst.fstB, fst.State(), topEntries)
      ensures var e := SearchRun(old(fst.Context()), old(fst.State()), old(Snapshot(0)), [],
                                 numBests, old(numberOfLoopsBeforePruning), old(pruningHeapSizeTarget), fuel);
        && topEntries == e.tops && fst.State() == e.t && Snapshot(e.w.loops) == e.w
    {
      topEntries := [];
      var loopSinceLastPruning := 0;
      var loopCount := 0;
      ghost var c, nb, target := fst.Context(), numberOfLoopsBeforePruning, pruningHeapSizeTarget;
      ghost var left: nat := fuel;
      ghost var run := SearchRun(c, fst.State(), Snapshot(0), [], numBests, nb, target, left);
      while heapA.Size() > 0 && WantsMore(|topEntries|, numBests) && loopCount < fuel
        invariant Valid() && fst.Valid()
        invariant pruningHeapSizeTarget == target >= 1 && numberOfLoopsBeforePruning == nb && fst.Context() == c
        invariant 0 <= loopCount <= fuel && left == fuel - loopCount
        invariant Recorded(fst.fstA, fst.fstB, fst.State(), topEntries)
        invariant SearchRun(c, fst.State(), Snapshot(loopSinceLastPruning), topEntries, numBests, nb, target, left) == run
        decreases fuel - loopCount
      {
        topEntries, loopSinceLastPruning := SearchStep(fst, numBests, left, topEntries, loopSinceLastPruning, run);
        loopCount := loopCount + 1;
        left := left - 1;
      }
      SearchRunDone(c, fst.State(), Snapshot(loopSinceLastPruning), topEntries, numBests, nb, target, left);
    }

    /** One round of the search loop: a pop, which takes the run one step on. */
    method SearchStep(fst: AdaptedCompositionFst, numBests: int, ghost fuelLeft: nat,
                      topEntries: seq<ShortlistEntry>, loops: int, ghost run: SearchEnd)
      returns (topEntries': seq<ShortlistEntry>, loops': int)
      requires Valid() && fst.Valid() && pruningHeapSizeTarget >= 1
      requires |heapA.heap| > 0 && WantsMore(|topEntries|, numBests) && fuelLeft > 0
      requires Recorded(fst.fstA, fst.fstB, fst.State(), topEntries)
      requires SearchRun(fst.Context(), fst.State(), Snapshot(loops), topEntries,
                         numBests, numberOfLoopsBeforePruning, pruningHeapSizeTarget, fuelLeft) == run
      modifies this, storeA, storeB, fst
      ensures Valid() && fst.Valid() && fst.Context() == old(fst.Context())
      ensures pruningHeapSizeTarget == old(pruningHeapSizeTarget) && numberOfLoopsBeforePruning == old(numberOfLoopsBeforePruning)
      ensures Recorded(fst.fstA, fst.fstB, fst.State(), topEntries')
      ensures SearchRun(fst.Context(), fst.State(), Snapshot(loops'), topEntries',
                        numBests, numberOfLoopsBeforePruning, pruningHeapSizeTarget, fuelLeft - 1) == run
    {
      SearchRunStep(fst.Context(), fst.State(), Snapshot(loops), topEntries,
                    numBests, numberOfLoopsBeforePruning, pruningHeapSizeTarget, fuelLeft);
      topEntries', loops' := Pop(fst, topEntries, loops);
    }

    /** The backtrack from a recorded node along its back-links, as Details defines it. */
    method GetDetailsFromTopCandidates(top: ShortlistEntry, symbol: SymbolTable, options: FstAlignOption)
      returns (align: WerAlignment)
      ensures align == Details(top, symbol.symbols, Special(options))
    {
      var names := symbol.symbols;
      var special := {options.epsIdx, options.delIdx, options.insIdx, options.subIdx, options.oovIdx};
      var g := EmptyAlignment("");
      var opening: Option<nat> := None;
      var now := Some(top);
      while now.Some? && now.value.localArc.Some?
        invariant Fold(ChainArcs(now), names, special, Back(g, opening))
          == Fold(ChainArcs(Some(top)), names, special, Back(EmptyAlignment(""), None))
        decreases now
      {
        var arc := now.value.localArc.value;
        var il := symbol.Name(arc.ilabel);
        var ol := symbol.Name(arc.olabel);
        if IsEntityLabel(il) {
          if opening.None? {
            opening := Some(|g.labelAlignments|);
            g := g.(labelAlignments := g.labelAlignments + [EmptyAlignment(il)], tokens := g.tokens + [(il, ol)]);
          } else if opening.value < |g.labelAlignments| && il == g.labelAlignments[opening.value].classLabel {
            opening := None;
          }
        } else {
          var k := KindOf(arc, special);
          if opening.Some? && opening.value < |g.labelAlignments| {
            var j := opening.value;
            var section := Record(g.labelAlignments[j], k, il, ol, true);
            g := Record(g, k, il, ol, false).(labelAlignments := g.labelAlignments[j := section]);
          } else {
            g := Record(g, k, il, ol, true);
          }
        }
        now := now.value.linkToHere;
      }
      align := Reverse(g);
    }

    /** The walk: the search, then the alignment of every recorded node, in the order they were
      * recorded. */
    method WalkComposed(fst: AdaptedCompositionFst, symbol: SymbolTable, options: FstAlignOption, numBests: int, fuel: nat)
      returns (topAlignments: seq<WerAlignment>, ghost topEntries: seq<ShortlistEntry>)
      requires Valid() && fst.Valid() && pruningHeapSizeTarget >= 1
      modifies this, storeA, storeB, fst
      ensures Valid() && fst.Valid()
      ensures Recorded(fst.fstA, fst.fstB, fst.State(), topEntries)
      ensures 0 <= numBests ==> |topAlignments| <= numBests
      ensures |topAlignments| == |topEntries|
      ensures forall i :: 0 <= i < |topEntries| ==> topAlignments[i] == Details(topEntries[i], symbol.symbols, Special(options))
      ensures var first := Intern(old(fst.State()), (fst.fstA.start, fst.fstB.start)).0;
        topEntries == SearchRun(old(fst.Context()), first, Layers(InsertSorted(old(heapA.heap), FIRST_ENTRY), old(heapB.heap), old(logbook), 0),
                                [], numBests, old(numberOfLoopsBeforePruning), old(pruningHeapSizeTarget), fuel).tops
    {
      var entries := Search(fst, numBests, fuel);
      topEntries := entries;
      topAlignments := AllDetails(entries, symbol, options);
    }

    /** The alignment of every recorded node, in order. */
    method AllDetails(entries: seq<ShortlistEntry>, symbol: SymbolTable, options: FstAlignOption)
      returns (aligns: seq<WerAlignment>)
      ensures |aligns| == |entries|
      ensures forall i :: 0 <= i < |entries| ==> aligns[i] == Details(entries[i], symbol.symbols, Special(options))
    {
      aligns := [];
      var i := 0;
      while i < |entries|
        invariant 0 <= i <= |entries| && |aligns| == i
        invariant forall j :: 0 <= j < i ==> aligns[j] == Details(entries[j], symbol.symbols, Special(options))
      {
        var align := GetDetailsFromTopCandidates(entries[i], symbol, options);
        aligns := aligns + [align];
        i := i + 1;
      }
    }
  }
}
