// The AlignmentTraversor of src/AlignmentTraversor.cpp: a cursor over a wer_alignment that
// yields its tokens in reading order as (ref, hyp, class) triples, an entity token standing for
// the tokens of the first nested alignment labelled like it.
module Traversal {
  import opened Wrappers
  import opened Strings
  import opened Alignment

  /** The triple struct: a reference word, a hypothesis word and the class they belong to. */
  datatype Triple = Triple(ref: string, hyp: string, classLabel: string)

  /** The first nested alignment whose class label is either side of the token. */
  function FirstSection(sections: seq<WerAlignment>, tk: TokenPair): (r: Option<nat>)
    ensures r.Some? ==> r.value < |sections|
    ensures r.Some? ==> sections[r.value].classLabel == tk.0 || sections[r.value].classLabel == tk.1
    ensures r.Some? ==> forall j :: 0 <= j < r.value ==> sections[j].classLabel != tk.0 && sections[j].classLabel != tk.1
    ensures r.None? ==> forall j :: 0 <= j < |sections| ==> sections[j].classLabel != tk.0 && sections[j].classLabel != tk.1
  {
    if |sections| == 0 then None
    else if sections[0].classLabel == tk.0 || sections[0].classLabel == tk.1 then Some(0)
    else
      match FirstSection(sections[1..], tk)
      case None => None
      case Some(j) => Some(j + 1)
  }

  /** Tokens as triples of one class. */
  function Tagged(tokens: seq<TokenPair>, cls: string): seq<Triple>
  {
    seq(|tokens|, i requires 0 <= i < |tokens| => Triple(tokens[i].0, tokens[i].1, cls))
  }

  /** An empty nested alignment whose label mentions FALLBACK. */
  predicate IsFallback(a: WerAlignment)
  {
    |a.tokens| == 0 && Find(a.classLabel, "FALLBACK").Some?
  }

  /** What a nested alignment yields: its tokens tagged with its label, or one pair of no-op
    * tokens for an empty fallback section. */
  function SectionTriples(a: WerAlignment): seq<Triple>
  {
    if IsFallback(a) then [Triple(NOOP, NOOP, a.classLabel)] else Tagged(a.tokens, a.classLabel)
  }

  /** What one root token yields: a global triple, or for an entity token on either side the
    * triples of its section, nothing when no section carries its label. */
  function TokenTriples(root: WerAlignment, tk: TokenPair): seq<Triple>
  {
    if IsEntityLabel(tk.0) || IsEntityLabel(tk.1) then
      match FirstSection(root.labelAlignments, tk)
      case None => []
      case Some(j) => SectionTriples(root.labelAlignments[j])
    else [Triple(tk.0, tk.1, TK_GLOBAL_CLASS)]
  }

  /** The triples of the root tokens from position i on. */
  function RootFrom(root: WerAlignment, i: nat): seq<Triple>
    decreases |root.tokens| - i
  {
    if i >= |root.tokens| then [] else TokenTriples(root, root.tokens[i]) + RootFrom(root, i + 1)
  }

  /** The whole traversal. */
  function Triples(root: WerAlignment): seq<Triple>
  {
    RootFrom(root, 0)
  }

  /** What is left of a nested alignment once its token at position p has been yielded (p = -1:
    * nothing of it yet). */
  function SectionFrom(a: WerAlignment, p: int): seq<Triple>
  {
    if p < 0 then SectionTriples(a)
    else if p + 1 >= |a.tokens| then []
    else Tagged(a.tokens[p + 1..], a.classLabel)
  }

  /** The non-entity tokens, in order. */
  function Globals(tokens: seq<TokenPair>): seq<TokenPair>
  {
    if |tokens| == 0 then []
    else (if IsEntityLabel(tokens[0].0) || IsEntityLabel(tokens[0].1) then [] else [tokens[0]]) + Globals(tokens[1..])
  }

  /** Without entity tokens, every root token is yielded in order as a global triple. */
  lemma {:induction false} RootFromFlat(root: WerAlignment, i: nat)
    requires i <= |root.tokens|
    requires forall k :: i <= k < |root.tokens| ==> !IsEntityLabel(root.tokens[k].0) && !IsEntityLabel(root.tokens[k].1)
    ensures RootFrom(root, i) == Tagged(root.tokens[i..], TK_GLOBAL_CLASS)
    decreases |root.tokens| - i
  {
    if i < |root.tokens| {
      RootFromFlat(root, i + 1);
      assert root.tokens[i..] == [root.tokens[i]] + root.tokens[i + 1..];
    }
  }

  /** Without nested alignments, entity tokens are skipped and the others are yielded in order
    * as global triples. */
  lemma {:induction false} RootFromUnmatched(root: WerAlignment, i: nat)
    requires i <= |root.tokens| && root.labelAlignments == []
    ensures RootFrom(root, i) == Tagged(Globals(root.tokens[i..]), TK_GLOBAL_CLASS)
    decreases |root.tokens| - i
  {
    if i < |root.tokens| {
      RootFromUnmatched(root, i + 1);
      var s := root.tokens[i..];
      assert s[1..] == root.tokens[i + 1..];
      assert Tagged(Globals(s), TK_GLOBAL_CLASS)
        == TokenTriples(root, root.tokens[i]) + Tagged(Globals(s[1..]), TK_GLOBAL_CLASS);
    }
  }

  /** Tagged tokens from position k on: the token at k, then those after it. */
  lemma TaggedFrom(tokens: seq<TokenPair>, cls: string, k: nat)
    requires k < |tokens|
    ensures Tagged(tokens[k..], cls) == [Triple(tokens[k].0, tokens[k].1, cls)] + Tagged(tokens[k + 1..], cls)
    ensures k + 1 >= |tokens| ==> Tagged(tokens[k + 1..], cls) == []
  {
  }

  /** The triples still to come from a cursor: the rest of the section being read, if any,
    * then those of the root tokens after position r. */
  ghost function Left(root: WerAlignment, r: int, p: int, sub: Option<nat>): seq<Triple>
    requires r >= -1 && (sub.Some? ==> sub.value < |root.labelAlignments|)
  {
    match sub
    case None => RootFrom(root, r + 1)
    case Some(j) => SectionFrom(root.labelAlignments[j], p) + RootFrom(root, r + 1)
  }

  /** Past the last root token nothing is left. */
  lemma LeftAtEnd(root: WerAlignment, r: int, p: int)
    requires r >= -1 && r + 1 >= |root.tokens|
    ensures Left(root, r, p, None) == []
  {
  }

  /** A root token without an entity label comes next as a global triple. */
  lemma LeftGlobal(root: WerAlignment, r: int, p: int, p': int)
    requires -1 <= r && r + 1 < |root.tokens|
    requires !IsEntityLabel(root.tokens[r + 1].0) && !IsEntityLabel(root.tokens[r + 1].1)
    ensures Left(root, r, p, None)
      == [Triple(root.tokens[r + 1].0, root.tokens[r + 1].1, TK_GLOBAL_CLASS)] + Left(root, r + 1, p', None)
  {
  }

  /** An entity root token stands for its section, or for nothing when none carries its label. */
  lemma LeftEnter(root: WerAlignment, r: int, p: int)
    requires -1 <= r && r + 1 < |root.tokens|
    requires IsEntityLabel(root.tokens[r + 1].0) || IsEntityLabel(root.tokens[r + 1].1)
    ensures Left(root, r, p, None) == Left(root, r + 1, -1, FirstSection(root.labelAlignments, root.tokens[r + 1]))
  {
  }

  /** An empty fallback section not yet read yields its no-op pair first. */
  lemma LeftFallback(root: WerAlignment, r: int, j: nat)
    requires 0 <= r && j < |root.labelAlignments| && IsFallback(root.labelAlignments[j])
    ensures Left(root, r, -1, Some(j))
      == [Triple(NOOP, NOOP, root.labelAlignments[j].classLabel)] + Left(root, r, 0, Some(j))
  {
  }

  /** The section's next token comes next. */
  lemma LeftToken(root: WerAlignment, r: int, p: int, j: nat)
    requires 0 <= r && j < |root.labelAlignments|
    requires -1 <= p && p + 1 < |root.labelAlignments[j].tokens|
    ensures var a := root.labelAlignments[j];
      Left(root, r, p, Some(j)) == [Triple(a.tokens[p + 1].0, a.tokens[p + 1].1, a.classLabel)] + Left(root, r, p + 1, Some(j))
  {
    var a := root.labelAlignments[j];
    TaggedFrom(a.tokens, a.classLabel, p + 1);
    if p < 0 {
      assert a.tokens[0..] == a.tokens;
    }
  }

  /** A used-up section leaves the root tokens after it. */
  lemma LeftExit(root: WerAlignment, r: int, p: int, j: nat)
    requires 0 <= r && j < |root.labelAlignments| && -1 <= p
    requires p + 1 >= |root.labelAlignments[j].tokens|
    requires p == -1 ==> !IsFallback(root.labelAlignments[j])
    ensures Left(root, r, p, Some(j)) == Left(root, r, -1, None)
  {
  }

  /** The traversor: the root alignment and a cursor into it. */
  class AlignmentTraversor {
    const root: WerAlignment
    var currentPosInRoot: int
    var currentPosInSubclass: int
    /** The position, among the root's nested alignments, of the one being read. */
    var currentSubclass: Option<nat>

    ghost predicate Valid()
      reads this
    {
      && currentPosInRoot >= -1
      && (currentSubclass.Some? ==>
            && currentSubclass.value < |root.labelAlignments|
            && 0 <= currentPosInRoot < |root.tokens|
            && currentPosInSubclass >= -1)
    }

    /** The triples still to come. */
    ghost function Remaining(): seq<Triple>
      reads this
      requires Valid()
    {
      Left(root, currentPosInRoot, currentPosInSubclass, currentSubclass)
    }

    /** Bounds the calls NextTriple makes to itself. */
    ghost function Measure(): nat
      reads this
    {
      var n := |root.tokens|;
      if currentSubclass.Some? then (if currentPosInRoot < n then 2 * (n - currentPosInRoot) + 1 else 0)
      else if currentPosInRoot < n then 2 * (n - currentPosInRoot)
      else 0
    }

    constructor (topLevel: WerAlignment)
      ensures root == topLevel
      ensures Valid() && Remaining() == Triples(root)
    {
      root := topLevel;
      currentPosInRoot := -1;
      currentSubclass := None;
      currentPosInSubclass := -1;
    }

    /** Rewinds the cursor: the same triples come again. */
    method Restart()
      modifies this
      ensures Valid() && Remaining() == Triples(root)
    {
      currentPosInRoot := -1;
      currentSubclass := None;
      currentPosInSubclass := -1;
    }

    /** The search of the nested alignments for an entity token's section. */
    method FindSection(tk: TokenPair) returns (found: Option<nat>)
      ensures found == FirstSection(root.labelAlignments, tk)
    {
      var sections := root.labelAlignments;
      found := None;
      var i := 0;
      while i < |sections|
        invariant 0 <= i <= |sections|
        invariant forall j :: 0 <= j < i ==> sections[j].classLabel != tk.0 && sections[j].classLabel != tk.1
      {
        if sections[i].classLabel == tk.0 || sections[i].classLabel == tk.1 {
          found := Some(i);
          return;
        }
        i := i + 1;
      }
    }

    /** The next triple, or None once the root tokens are used up (and on every later call). */
    method NextTriple() returns (next: Option<Triple>)
      requires Valid()
      modifies this
      ensures Valid()
      ensures old(Remaining()) == [] ==> next.None? && Remaining() == []
      ensures old(Remaining()) != [] ==> next == Some(old(Remaining())[0]) && Remaining() == old(Remaining())[1..]
      decreases Measure(), 1
    {
      if currentSubclass.None? {
        next := NextInRoot();
      } else {
        next := NextInSection();
      }
    }

    /** NextTriple outside a section: the next root token, an entity token entering its section. */
    method NextInRoot() returns (next: Option<Triple>)
      requires Valid() && currentSubclass.None?
      modifies this
      ensures Valid()
      ensures old(Remaining()) == [] ==> next.None? && Remaining() == []
      ensures old(Remaining()) != [] ==> next == Some(old(Remaining())[0]) && Remaining() == old(Remaining())[1..]
      decreases Measure(), 0
    {
      ghost var r, p := currentPosInRoot, currentPosInSubclass;
      currentPosInRoot := currentPosInRoot + 1;
      if currentPosInRoot >= |root.tokens| {
        LeftAtEnd(root, r, p);
        LeftAtEnd(root, r + 1, p);
        return None;
      }
      var tk := root.tokens[currentPosInRoot];
      if IsEntityLabel(tk.0) || IsEntityLabel(tk.1) {
        currentPosInSubclass := -1;
        var found := FindSection(tk);
        if found.Some? {
          currentSubclass := found;
        }
        LeftEnter(root, r, p);
        next := NextTriple();
        return;
      }
      LeftGlobal(root, r, p, p);
      return Some(Triple(tk.0, tk.1, TK_GLOBAL_CLASS));
    }

    /** NextTriple inside a section: its next token, the no-op pair of an empty fallback section,
      * or, once it is used up, the next root token. */
    method NextInSection() returns (next: Option<Triple>)
      requires Valid() && currentSubclass.Some?
      modifies this
      ensures Valid()
      ensures old(Remaining()) == [] ==> next.None? && Remaining() == []
      ensures old(Remaining()) != [] ==> next == Some(old(Remaining())[0]) && Remaining() == old(Remaining())[1..]
      decreases Measure(), 0
    {
      var j := currentSubclass.value;
      var a := root.labelAlignments[j];
      ghost var r, p := currentPosInRoot, currentPosInSubclass;
      currentPosInSubclass := currentPosInSubclass + 1;
      if currentPosInSubclass == 0 && |a.tokens| == 0 && Find(a.classLabel, "FALLBACK").Some? {
        LeftFallback(root, r, j);
        return Some(Triple(NOOP, NOOP, a.classLabel));
      }
      if currentPosInSubclass >= |a.tokens| {
        LeftExit(root, r, p, j);
        currentSubclass := None;
        currentPosInSubclass := -1;
        next := NextTriple();
        return;
      }
      var tk := a.tokens[currentPosInSubclass];
      LeftToken(root, r, p, j);
      return Some(Triple(tk.0, tk.1, a.classLabel));
    }
  }
}
