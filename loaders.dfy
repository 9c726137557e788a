// The loaders that turn a token sequence into a transducer: the plain-text one-best loader
// (src/OneBestFstLoader.cpp), the CTM loader and the column sniffing of its reader
// (src/Ctm.cpp), and the NLP loader's graph builder and symbol fallback (src/Nlp.cpp).
module Loaders {
  import opened Wrappers
  import opened Strings
  import opened Symbols
  import opened Fst

  // ---------------------------------------------------------------------------------------
  // Reading words and looking them up

  predicate IsWord(w: string)
  {
    |w| > 0 && forall i :: 0 <= i < |w| ==> !IsSpace(w[i])
  }

  /** The end of the run of non-space characters that starts at k. */
  function WordEnd(s: string, k: nat): (e: nat)
    requires k <= |s|
    ensures k <= e <= |s| && (e < |s| ==> IsSpace(s[e]))
    decreases |s| - k
  {
    if k < |s| && !IsSpace(s[k]) then WordEnd(s, k + 1) else k
  }

  /** The run WordEnd skips holds no whitespace. */
  lemma {:induction false} WordEndSpec(s: string, k: nat)
    requires k <= |s|
    ensures forall i :: k <= i < WordEnd(s, k) ==> !IsSpace(s[i])
    decreases |s| - k
  {
    if k < |s| && !IsSpace(s[k]) {
      WordEndSpec(s, k + 1);
    }
  }

  /** The words of `s` from position i on. */
  function WordsFrom(s: string, i: nat): (ws: seq<string>)
    requires i <= |s|
    ensures |ws| <= |s| - i
    decreases |s| - i
  {
    var k := SkipSpaces(s, i);
    if k == |s| then []
    else
      var e := WordEnd(s, k);
      [s[k..e]] + WordsFrom(s, e)
  }

  /** What extracting std::string values from an istream yields: the maximal runs of
    * non-space characters, in order. */
  function Words(s: string): (ws: seq<string>)
    ensures forall k :: 0 <= k < |ws| ==> IsWord(ws[k])
  {
    WordsAreWords(s, 0);
    WordsFrom(s, 0)
  }

  lemma {:induction false} WordsAreWords(s: string, i: nat)
    requires i <= |s|
    ensures forall k :: 0 <= k < |WordsFrom(s, i)| ==> IsWord(WordsFrom(s, i)[k])
    decreases |s| - i
  {
    var k := SkipSpaces(s, i);
    if k < |s| {
      var e := WordEnd(s, k);
      var w := s[k..e];
      WordEndSpec(s, k);
      assert IsWord(w) by {
        forall j | 0 <= j < |w| ensures !IsSpace(w[j]) {
          assert w[j] == s[k + j];
        }
      }
      WordsAreWords(s, e);
      var ws := WordsFrom(s, i);
      assert ws == [w] + WordsFrom(s, e);
      forall n | 0 <= n < |ws| ensures IsWord(ws[n]) {
        if n > 0 {
          assert ws[n] == WordsFrom(s, e)[n - 1];
        }
      }
    }
  }

  /** A word at i, ended by a space or the end of the text. */
  lemma WordsFromWord(s: string, i: nat, w: string)
    requires i + |w| <= |s| && s[i .. i + |w|] == w && IsWord(w)
    requires i + |w| == |s| || IsSpace(s[i + |w|])
    ensures WordsFrom(s, i) == [w] + WordsFrom(s, i + |w|)
  {
    assert s[i] == w[0];
    assert SkipSpaces(s, i) == i;
    WordEndAt(s, i, i + |w|);
  }

  lemma {:induction false} WordEndAt(s: string, k: nat, e: nat)
    requires k <= e <= |s| && (e == |s| || IsSpace(s[e]))
    requires forall i :: k <= i < e ==> !IsSpace(s[i])
    ensures WordEnd(s, k) == e
    decreases e - k
  {
    if k < e {
      WordEndAt(s, k + 1, e);
    }
  }

  /** A space at i is skipped. */
  lemma WordsFromSpace(s: string, i: nat)
    requires i < |s| && IsSpace(s[i])
    ensures WordsFrom(s, i) == WordsFrom(s, i + 1)
  {
    assert SkipSpaces(s, i) == SkipSpaces(s, i + 1);
  }

  /** From position i on, `s` holds the words of `ws` with one space between each two. */
  ghost predicate JoinedAt(s: string, i: nat, ws: seq<string>)
    decreases |ws|
  {
    && |ws| > 0 && i + |ws[0]| <= |s| && s[i .. i + |ws[0]|] == ws[0]
    && if |ws| == 1 then i + |ws[0]| == |s|
       else i + |ws[0]| < |s| && s[i + |ws[0]|] == ' ' && JoinedAt(s, i + |ws[0]| + 1, ws[1..])
  }

  /** The text from i being the joined words lays them out one after another. */
  lemma {:induction false} JoinedAtOfJoin(s: string, i: nat, ws: seq<string>)
    requires i <= |s| && |ws| > 0 && s[i..] == JoinRef(ws, " ")
    ensures JoinedAt(s, i, ws)
    decreases |ws|
  {
    var w := ws[0];
    if |ws| == 1 {
      assert s[i..] == w;
      assert s[i .. i + |w|] == s[i..][.. |w|];
    } else {
      var rest := JoinRef(ws[1..], " ");
      assert s[i..] == w + " " + rest;
      JoinHeadParts(s, i, w, rest);
      JoinedAtOfJoin(s, i + |w| + 1, ws[1..]);
    }
  }

  /** Words laid out from position i to the end are read back. */
  lemma {:induction false} WordsFromJoin(s: string, i: nat, ws: seq<string>)
    requires i <= |s| && JoinedAt(s, i, ws)
    requires forall k :: 0 <= k < |ws| ==> IsWord(ws[k])
    ensures WordsFrom(s, i) == ws
    decreases |ws|
  {
    var w := ws[0];
    var e := i + |w|;
    assert IsWord(w);
    if |ws| == 1 {
      WordsFromWord(s, i, w);
      assert WordsFrom(s, |s|) == [];
      ConsBack(ws, w, []);
    } else {
      var rest := ws[1..];
      assert s[e] == ' ' && IsSpace(s[e]);
      WordsFromWord(s, i, w);
      WordsFromSpace(s, e);
      forall k | 0 <= k < |rest|
        ensures IsWord(rest[k])
      {
        assert rest[k] == ws[k + 1];
      }
      WordsFromJoin(s, e + 1, rest);
      ConsBack(ws, w, rest);
    }
  }

  /** The text from i is a word, a space and the rest. */
  lemma JoinHeadParts(s: string, i: nat, w: string, rest: string)
    requires i <= |s| && s[i..] == w + " " + rest
    ensures i + |w| < |s| && s[i .. i + |w|] == w && s[i + |w|] == ' '
    ensures s[i + |w| + 1 ..] == rest
  {
    var u := w + " " + rest;
    assert u[.. |w|] == w;
    assert u[|w| + 1 ..] == rest;
    SuffixSlice(s, i, 0, |w|);
    SuffixSlice(s, i, |w| + 1, |u|);
  }

  /** Words written out with single spaces between them are read back unchanged. */
  lemma WordsOfJoin(ws: seq<string>)
    requires forall k :: 0 <= k < |ws| ==> IsWord(ws[k])
    ensures Words(StringJoin(ws, " ")) == ws
  {
    StringJoinIsJoinRef(ws, " ");
    var s := StringJoin(ws, " ");
    if |ws| == 0 {
      assert SkipSpaces(s, 0) == 0;
    } else {
      assert s[0..] == s;
      JoinedAtOfJoin(s, 0, ws);
      WordsFromJoin(s, 0, ws);
    }
  }

  /** Every token put to lower case (std::transform with ::tolower). */
  function Lowered(ts: seq<string>): (r: seq<string>)
    ensures |r| == |ts|
  {
    seq(|ts|, i requires 0 <= i < |ts| => LowerString(ts[i]))
  }

  /** A token's key, or the key of <unk> when the token is missing. */
  function LookupOrUnk(symbols: seq<string>, t: string): int
  {
    var k := IndexOf(symbols, t);
    if k == -1 then IndexOf(symbols, SYM_UNK) else k
  }

  /** Arc weight 1 iff the match map has a positive entry at that word index, else 0. */
  function MapWeight(matchMap: seq<int>, i: nat): (w: int)
    ensures w == 1 <==> i < |matchMap| && matchMap[i] > 0
    ensures w == 0 || w == 1
  {
    if i < |matchMap| && matchMap[i] > 0 then 1 else 0
  }

  function MapWeights(matchMap: seq<int>, n: nat): (ws: seq<int>)
    ensures |ws| == n && forall i :: 0 <= i < n ==> ws[i] == MapWeight(matchMap, i)
  {
    seq(n, i requires 0 <= i < n => MapWeight(matchMap, i))
  }

  function Zeros(n: nat): (ws: seq<int>)
    ensures |ws| == n && forall i :: 0 <= i < n ==> ws[i] == 0
  {
    seq(n, _ => 0)
  }

  /** One more arc on the last state of a partial chain, after a fresh state: the next
    * partial chain. */
  lemma ChainExtend(labels: seq<int>, weights: seq<int>, i: nat, arcs: seq<seq<Arc>>)
    requires i < |labels| == |weights|
    requires arcs == PartialChain(labels, weights, i).arcs + [[]]
    ensures arcs[i := arcs[i] + [Arc(labels[i], labels[i], weights[i], i + 1)]]
         == PartialChain(labels, weights, i + 1).arcs
  {
    ChainStep(labels, weights, i);
    var next := PartialChain(labels, weights, i + 1).arcs;
    var updated := arcs[i := arcs[i] + [Arc(labels[i], labels[i], weights[i], i + 1)]];
    assert arcs[i] == [];
    assert |updated| == |next|;
    forall k | 0 <= k < |next| ensures updated[k] == next[k] {
    }
  }

  /** One link of the chain: a new empty state, then arc i out of state i into it. */
  lemma ChainLink(labels: seq<int>, weights: seq<int>, i: nat, before: seq<seq<Arc>>,
                  beforeFinals: seq<Option<int>>, arcs: seq<seq<Arc>>, finals: seq<Option<int>>)
    requires i < |labels| == |weights|
    requires Graph(before, beforeFinals, 0) == PartialChain(labels, weights, i)
    requires var grown := before + [[]];
      arcs == grown[i := grown[i] + [Arc(labels[i], labels[i], weights[i], i + 1)]]
    requires finals == beforeFinals + [None]
    ensures Graph(arcs, finals, 0) == PartialChain(labels, weights, i + 1)
  {
    ChainExtend(labels, weights, i, before + [[]]);
    ChainStep(labels, weights, i);
  }

  /** The backbone chain closed by the epsilon arc into the new final state is the chain
    * graph of the labels. */
  lemma ChainClose(labels: seq<int>, weights: seq<int>, before: seq<seq<Arc>>,
                          beforeFinals: seq<Option<int>>, arcs: seq<seq<Arc>>, finals: seq<Option<int>>)
    requires |labels| == |weights| > 0
    requires var n := |labels| - 1; var chain := PartialChain(labels, weights, n);
      before == chain.arcs && beforeFinals == chain.finals
    requires var n := |labels| - 1; var grown := before + [[]];
      arcs == grown[n := grown[n] + [Arc(labels[n], labels[n], weights[n], |before|)]]
    requires finals == beforeFinals + [Some(0)]
    ensures Graph(arcs, finals, 0) == ChainGraph(labels, weights)
  {
    var n := |labels| - 1;
    ChainExtend(labels, weights, n, before + [[]]);
    ChainStep(labels, weights, n);
    SnocUpdate(beforeFinals, None, Some(0));
  }

  // ---------------------------------------------------------------------------------------
  // OneBestFstLoader

  /** Labels of the one-best graph: the key of each lowercased token (-1 when missing), then
    * the key of <eps>. */
  function OneBestLabels(symbols: seq<string>, tokens: seq<string>): (r: seq<int>)
    ensures |r| == |tokens| + 1
  {
    seq(|tokens|, i requires 0 <= i < |tokens| => IndexOf(symbols, LowerString(tokens[i])))
      + [IndexOf(symbols, SYM_EPS)]
  }

  class OneBestFstLoader {
    var tokens: seq<string>

    constructor ()
      ensures tokens == []
    {
      tokens := [];
    }

    /** Appends the whitespace-separated words of `content`. */
    method BuildFromString(content: string)
      modifies this
      ensures tokens == old(tokens) + Words(content)
    {
      tokens := tokens + Words(content);
    }

    /** Adds each token's lowercased form that the table does not have yet, in order. */
    method AddToSymbolTable(table: SymbolTable)
      requires table.Valid()
      modifies table
      ensures table.Valid()
      ensures table.symbols == WithAll(old(table.symbols), Lowered(tokens))
    {
      var lowered := Lowered(tokens);
      for i := 0 to |tokens|
        invariant table.Valid()
        invariant table.symbols == WithAll(old(table.symbols), lowered[..i])
      {
        var token := LowerString(tokens[i]);
        if table.Find(token) == -1 {
          var _ := table.AddSymbol(token);
        }
        WithAllPrefix(old(table.symbols), lowered, i, token);
      }
      assert lowered[..|tokens|] == lowered;
    }

    /** The linear graph over the tokens followed by an epsilon arc into the one final state:
      * n + 2 states, weights 0, final weight One. */
    method ConvertToFst(table: SymbolTable) returns (f: VectorFst)
      ensures fresh(f) && f.Valid()
      ensures f.Value() == ChainGraph(OneBestLabels(table.symbols, tokens), Zeros(|tokens| + 1))
    {
      var labels := OneBestLabels(table.symbols, tokens);
      var weights := Zeros(|tokens| + 1);
      var epsSym := table.Find(SYM_EPS);
      f := new VectorFst();
      var _ := f.AddState();
      f.SetStart(0);
      var prevState, nextState := 0, 1;
      for i := 0 to |tokens|
        invariant f.Valid() && f.Value() == PartialChain(labels, weights, i)
        invariant prevState == i && nextState == i + 1
      {
        var token := LowerString(tokens[i]);
        ghost var before, beforeFinals := f.arcs, f.finals;
        var _ := f.AddState();
        var tkIdx := table.Find(token);
        f.AddArc(prevState, Arc(tkIdx, tkIdx, 0, nextState));
        ChainLink(labels, weights, i, before, beforeFinals, f.arcs, f.finals);
        prevState := nextState;
        nextState := nextState + 1;
      }
      ghost var before, beforeFinals := f.arcs, f.finals;
      var realFinal := f.AddState();
      f.AddArc(prevState, Arc(epsSym, epsSym, 0, realFinal));
      f.SetFinal(realFinal, 0);
      SnocUpdate(beforeFinals, None, Some(0));
      ChainClose(labels, weights, before, beforeFinals, f.arcs, f.finals);
    }
  }

  // ---------------------------------------------------------------------------------------
  // CtmFstLoader and the CTM column sniffing

  /** One CTM row; the start time, duration and confidence are floats and not modelled. */
  datatype CtmRecord = CtmRecord(recording: string, channel: string, word: string)

  /** Labels of the CTM graph: the key of each lowercased token, -1 when missing. */
  function CtmLabels(symbols: seq<string>, tokens: seq<string>): (r: seq<int>)
    ensures |r| == |tokens|
  {
    seq(|tokens|, i requires 0 <= i < |tokens| => IndexOf(symbols, LowerString(tokens[i])))
  }

  class CtmFstLoader {
    var rows: seq<CtmRecord>
    var tokens: seq<string>

    /** Keeps the rows and one lowercased token per row. */
    constructor (records: seq<CtmRecord>)
      ensures rows == records
      ensures |tokens| == |records|
      ensures forall i :: 0 <= i < |records| ==> tokens[i] == LowerString(records[i].word)
    {
      var ts: seq<string> := [];
      for i := 0 to |records|
        invariant |ts| == i
        invariant forall k :: 0 <= k < i ==> ts[k] == LowerString(records[k].word)
      {
        ts := ts + [LowerString(records[i].word)];
      }
      rows := records;
      tokens := ts;
    }

    /** Adds each token the table does not have yet, in order. */
    method AddToSymbolTable(table: SymbolTable)
      requires table.Valid()
      modifies table
      ensures table.Valid()
      ensures table.symbols == WithAll(old(table.symbols), tokens)
    {
      for i := 0 to |tokens|
        invariant table.Valid()
        invariant table.symbols == WithAll(old(table.symbols), tokens[..i])
      {
        table.AddSymbolIfNeeded(tokens[i]);
        WithAllPrefix(old(table.symbols), tokens, i, tokens[i]);
      }
      assert tokens[..|tokens|] == tokens;
    }

    /** The linear graph over the tokens: n + 1 states, arc i weighted by the match map, the
      * last state final at weight 0 and no epsilon tail. */
    method ConvertToFst(table: SymbolTable, matchMap: seq<int>) returns (f: VectorFst)
      ensures fresh(f) && f.Valid()
      ensures f.Value() == ChainGraph(CtmLabels(table.symbols, tokens), MapWeights(matchMap, |tokens|))
    {
      var labels := CtmLabels(table.symbols, tokens);
      var weights := MapWeights(matchMap, |tokens|);
      f := new VectorFst();
      var _ := f.AddState();
      f.SetStart(0);
      var prevState, nextState := 0, 1;
      var mapSize := |matchMap|;
      for wc := 0 to |tokens|
        invariant f.Valid() && f.Value() == PartialChain(labels, weights, wc)
        invariant prevState == wc && nextState == wc + 1
      {
        var token := LowerString(tokens[wc]);
        ghost var before, beforeFinals := f.arcs, f.finals;
        var _ := f.AddState();
        if mapSize > wc && matchMap[wc] > 0 {
          f.AddArc(prevState, Arc(table.Find(token), table.Find(token), 1, nextState));
        } else {
          f.AddArc(prevState, Arc(table.Find(token), table.Find(token), 0, nextState));
        }
        ChainLink(labels, weights, wc, before, beforeFinals, f.arcs, f.finals);
        prevState := nextState;
        nextState := nextState + 1;
      }
      f.SetFinal(prevState, 0);
    }

    /** Registers every token, then gives one key per token, in order; each key names its
      * token, so the <unk> fallback is never taken. */
    method ConvertToIntVector(table: SymbolTable) returns (ids: seq<int>)
      requires table.Valid()
      modifies table
      ensures table.Valid()
      ensures table.symbols == WithAll(old(table.symbols), tokens)
      ensures |ids| == |tokens|
      ensures forall i :: 0 <= i < |tokens| ==> KeyOf(table.symbols, tokens[i], ids[i])
    {
      AddToSymbolTable(table);
      ids := [];
      for i := 0 to |tokens|
        invariant |ids| == i
        invariant forall k :: 0 <= k < i ==> ids[k] == LookupOrUnk(table.symbols, tokens[k])
      {
        var tokenSym := table.Find(tokens[i]);
        if tokenSym == -1 {
          tokenSym := table.Find(SYM_UNK);
        }
        ids := ids + [tokenSym];
      }
      WithAllSpec(old(table.symbols), tokens);
    }
  }

  predicate IsBlank(c: char)
  {
    c == ' ' || c == '\t'
  }

  /** The number of maximal runs of blanks (spaces and tabs) in `s`. */
  function BlankRuns(s: string): nat
  {
    if |s| == 0 then 0
    else
      var opens := IsBlank(s[|s| - 1]) && (|s| == 1 || !IsBlank(s[|s| - 2]));
      BlankRuns(s[..|s| - 1]) + (if opens then 1 else 0)
  }

  /** How the CTM rows are read: no rows for an empty file, six columns with a confidence
    * when the first line has more than five, else five columns. */
  datatype CtmFormat = NoRows | WithoutConfidence | WithConfidence

  /** Counts the columns of the first line (1 + its runs of blanks) and picks the format;
    * `firstLine` is None when the file has no line. */
  method ReadFormat(firstLine: Option<string>) returns (format: CtmFormat)
    ensures firstLine.None? ==> format == NoRows
    ensures firstLine.Some? ==>
      (format == WithConfidence <==> 1 + BlankRuns(firstLine.value) > 5)
      && format != NoRows
  {
    if firstLine.None? {
      return NoRows;
    }
    var line := firstLine.value;
    var sz := 1;
    var lastChar := 'x';
    for i := 0 to |line|
      invariant sz == 1 + BlankRuns(line[..i])
      invariant lastChar == if i == 0 then 'x' else line[i - 1]
    {
      var c := line[i];
      if c == ' ' || c == '\t' {
        if lastChar != ' ' && lastChar != '\t' {
          sz := sz + 1;
        }
      }
      lastChar := c;
      assert line[..i + 1][..i] == line[..i];
    }
    assert line[..|line|] == line;
    var hasConf := sz > 5;
    if hasConf {
      format := WithConfidence;
    } else {
      format := WithoutConfidence;
    }
  }

  /** Runs of blanks add up across a join unless a run straddles it. */
  lemma {:induction false} BlankRunsConcat(a: string, b: string)
    requires |a| == 0 || |b| == 0 || !IsBlank(a[|a| - 1]) || !IsBlank(b[0])
    ensures BlankRuns(a + b) == BlankRuns(a) + BlankRuns(b)
    decreases |b|
  {
    if |b| == 0 {
      assert a + b == a;
    } else {
      var b' := b[..|b| - 1];
      assert (a + b)[..|a + b| - 1] == a + b';
      BlankRunsConcat(a, b');
      if |b| >= 2 {
        assert (a + b)[|a + b| - 2] == b[|b| - 2];
      }
    }
  }

  predicate IsField(w: string)
  {
    |w| > 0 && forall i :: 0 <= i < |w| ==> !IsBlank(w[i])
  }

  lemma FieldRuns(w: string)
    requires IsField(w)
    ensures BlankRuns(w) == 0
    decreases |w|
  {
    if |w| > 0 {
      var w' := w[..|w| - 1];
      if |w'| > 0 {
        FieldRuns(w');
      }
    }
  }

  lemma {:induction false} TerminatedRuns(fields: seq<string>)
    requires forall k :: 0 <= k < |fields| ==> IsField(fields[k])
    ensures BlankRuns(Terminated(fields, " ")) == |fields|
    ensures |fields| > 0 ==> |Terminated(fields, " ")| > 0 && Terminated(fields, " ")[|Terminated(fields, " ")| - 1] == ' '
    decreases |fields|
  {
    if |fields| > 0 {
      var init := fields[..|fields| - 1];
      var w := fields[|fields| - 1];
      var t := Terminated(init, " ");
      TerminatedRuns(init);
      FieldRuns(w);
      BlankRunsConcat(t, w);
      BlankRunsConcat(t + w, " ");
      assert Terminated(fields, " ") == t + w + " ";
    }
  }

  /** A first line of blank-separated fields has as many columns as fields, so the
    * confidence column is read iff there are more than five. */
  lemma ColumnsOfJoin(fields: seq<string>)
    requires |fields| > 0
    requires forall k :: 0 <= k < |fields| ==> IsField(fields[k])
    ensures 1 + BlankRuns(StringJoin(fields, " ")) == |fields|
  {
    var init := fields[..|fields| - 1];
    var w := fields[|fields| - 1];
    TerminatedRuns(init);
    FieldRuns(w);
    BlankRunsConcat(Terminated(init, " "), w);
    if |fields| == 1 {
      assert StringJoin(fields, " ") == w;
    }
  }

  // ---------------------------------------------------------------------------------------
  // NlpFstLoader

  /** The symbol a token is registered under: a noisecode with a ':' keeps the part before
    * it, closed by '>' ("<foreign:fr>" gives "<foreign>"); any other token stands for itself. */
  function EffectiveToken(t: string): string
  {
    var colon := Find(t, ":");
    if IsNoisecodeToken(t) && colon.Some? then t[..colon.value] + ">" else t
  }

  /** GetProperSymbolId: the token's key; for an unknown noisecode with a ':' the key of its
    * trimmed form, for any other unknown token the key of `symUnk`. */
  function GetProperSymbolId(symbols: seq<string>, token: string, symUnk: string): (k: int)
    ensures token in symbols ==> k == IndexOf(symbols, token)
    ensures token !in symbols && EffectiveToken(token) != token ==> k == IndexOf(symbols, EffectiveToken(token))
    ensures token !in symbols && EffectiveToken(token) == token ==> k == IndexOf(symbols, symUnk)
  {
    var tokenSym := IndexOf(symbols, token);
    if tokenSym != -1 then tokenSym
    else if IsNoisecodeToken(token) then
      var colon := Find(token, ":");
      if colon.None? then IndexOf(symbols, symUnk)
      else
        assert token[colon.value] == ':' && token[|token| - 1] == '>';
        assert |token[..colon.value] + ">"| < |token|;
        IndexOf(symbols, token[..colon.value] + ">")
    else IndexOf(symbols, symUnk)
  }

  /** Once the trimmed form of a token is registered, the token resolves to a key that names
    * that form (or the token itself when it is registered). */
  lemma ProperIdNamesEffective(symbols: seq<string>, token: string, symUnk: string)
    requires EffectiveToken(token) in symbols
    ensures var k := GetProperSymbolId(symbols, token, symUnk);
      0 <= k < |symbols| && (symbols[k] == token || symbols[k] == EffectiveToken(token))
  {
  }

  /** The verbalisation candidates of an entity token: the normalisation entry of its label id,
    * none when the entry is missing. */
  function Candidates(norm: map<string, seq<seq<string>>>, token: string): seq<seq<string>>
  {
    var id := GetLabelIdFromToken(token);
    if id in norm then norm[id] else []
  }

  /** The states the candidate paths add: one per candidate word. */
  function CandidateStates(cands: seq<seq<string>>): nat
  {
    if |cands| == 0 then 0 else CandidateStates(cands[..|cands| - 1]) + |cands[|cands| - 1]|
  }

  /** The states a token adds: its own, and for an entity the exit-start and exit-end states
    * and the candidate states. */
  function TokenStates(norm: map<string, seq<seq<string>>>, t: string): nat
  {
    if IsEntityLabel(t) then 3 + CandidateStates(Candidates(norm, t)) else 1
  }

  function NlpStates(norm: map<string, seq<seq<string>>>, tokens: seq<string>): nat
  {
    if |tokens| == 0 then 0 else NlpStates(norm, tokens[..|tokens| - 1]) + TokenStates(norm, tokens[|tokens| - 1])
  }

  predicate NoEntity(tokens: seq<string>)
  {
    forall i :: 0 <= i < |tokens| ==> !IsEntityLabel(tokens[i])
  }

  /** The key of <eps>, 0 when the table lacks it. */
  function EpsOrZero(symbols: seq<string>): int
  {
    var e := IndexOf(symbols, SYM_EPS);
    if e == -1 then 0 else e
  }

  /** Labels of the backbone: each token's key (<unk>'s when missing), then the epsilon. */
  function NlpLabels(symbols: seq<string>, tokens: seq<string>): (r: seq<int>)
    ensures |r| == |tokens| + 1
  {
    seq(|tokens|, i requires 0 <= i < |tokens| => LookupOrUnk(symbols, tokens[i])) + [EpsOrZero(symbols)]
  }

  /** The last state is the only final one. */
  ghost predicate OnlyLastFinal(finals: seq<Option<int>>)
  {
    forall k :: 0 <= k < |finals| ==> (finals[k].Some? <==> k == |finals| - 1)
  }

  /** The last state is entered only by a lone epsilon arc, and some earlier state has it. */
  ghost predicate EnteredByEpsilon(arcs: seq<seq<Arc>>, eps: int)
  {
    && (exists s :: 0 <= s < |arcs| - 1 && arcs[s] == [Arc(eps, eps, 0, |arcs| - 1)])
    && forall s, j :: 0 <= s < |arcs| && 0 <= j < |arcs[s]| && arcs[s][j].nextstate == |arcs| - 1
         ==> arcs[s] == [Arc(eps, eps, 0, |arcs| - 1)]
  }

  /** The arc table with one more arc out of state s. */
  function WithArc(arcs: seq<seq<Arc>>, s: int, a: Arc): (r: seq<seq<Arc>>)
    requires 0 <= s < |arcs|
    ensures |r| == |arcs|
  {
    arcs[s := arcs[s] + [a]]
  }

  /** The words of a candidate as the loader reads them: lowercased unless case is kept. */
  function Cased(cands: seq<seq<string>>, useCase: bool): (r: seq<seq<string>>)
    ensures |r| == |cands|
    ensures forall c :: 0 <= c < |cands| ==> |r[c]| == |cands[c]|
    ensures forall c, w :: 0 <= c < |cands| && 0 <= w < |cands[c]| ==>
      r[c][w] == if useCase then cands[c][w] else LowerString(cands[c][w])
  {
    if useCase then cands else seq(|cands|, c requires 0 <= c < |cands| => Lowered(cands[c]))
  }

  /** Reading the candidates in either case keeps the number of states they add. */
  lemma {:induction false} CasedStates(cands: seq<seq<string>>, useCase: bool)
    ensures CandidateStates(Cased(cands, useCase)) == CandidateStates(cands)
    decreases |cands|
  {
    if |cands| > 0 {
      var n := |cands| - 1;
      assert Cased(cands, useCase)[..n] == Cased(cands[..n], useCase);
      CasedStates(cands[..n], useCase);
    }
  }

  /** The words of one candidate laid out from state `from`: a fresh state per word, reached by
    * the word's key (<unk>'s when missing). Gives the grown table and the last state. */
  function WordsPath(arcs: seq<seq<Arc>>, symbols: seq<string>, from: int, words: seq<string>): (r: (seq<seq<Arc>>, int))
    requires 0 <= from < |arcs|
    ensures |r.0| == |arcs| + |words| && 0 <= r.1 < |r.0|
    ensures r.1 == if |words| == 0 then from else |r.0| - 1
  {
    if |words| == 0 then (arcs, from)
    else
      var (g, last) := WordsPath(arcs, symbols, from, words[..|words| - 1]);
      var k := LookupOrUnk(symbols, words[|words| - 1]);
      (WithArc(g + [[]], last, Arc(k, k, 0, |g|)), |g|)
  }

  /** One candidate path: its words from `from`, closed by an epsilon arc to `to`. */
  function CandidatePath(arcs: seq<seq<Arc>>, symbols: seq<string>, from: int, to: int,
                         words: seq<string>, eps: int): (r: seq<seq<Arc>>)
    requires 0 <= from < |arcs|
    ensures |r| == |arcs| + |words|
  {
    var (g, last) := WordsPath(arcs, symbols, from, words);
    WithArc(g, last, Arc(eps, eps, 0, to))
  }

  /** All candidate paths of a class, in order, each from `from` to `to`. */
  function CandidatePaths(arcs: seq<seq<Arc>>, symbols: seq<string>, from: int, to: int,
                          cands: seq<seq<string>>, eps: int): (r: seq<seq<Arc>>)
    requires 0 <= from < |arcs|
    ensures |r| == |arcs| + CandidateStates(cands)
  {
    if |cands| == 0 then arcs
    else CandidatePath(CandidatePaths(arcs, symbols, from, to, cands[..|cands| - 1], eps), symbols, from, to, cands[|cands| - 1], eps)
  }

  /** The class section after an entity whose target t is the newest state: an exit-start state
    * t + 1 and an exit-end state t + 2 linked by an arc repeating the label, and the candidate
    * paths from t to the exit start. */
  function ClassSection(arcs: seq<seq<Arc>>, symbols: seq<string>, key: int,
                        cands: seq<seq<string>>, eps: int): (r: seq<seq<Arc>>)
    requires |arcs| > 0
    ensures |r| == |arcs| + 2 + CandidateStates(cands)
  {
    var t := |arcs| - 1;
    CandidatePaths(WithArc(arcs + [[], []], t + 1, Arc(key, key, 0, t + 2)), symbols, t, t + 1, cands, eps)
  }

  /** One token from state `prev`: a fresh state reached by the token's arc and, for an entity,
    * its class section with the candidates as read. Gives the grown table and the state the
    * next token leaves from (the exit end for an entity). */
  function TokenSection(arcs: seq<seq<Arc>>, symbols: seq<string>, norm: map<string, seq<seq<string>>>,
                        useCase: bool, token: string, weight: int, prev: int, eps: int): (r: (seq<seq<Arc>>, int))
    requires 0 <= prev < |arcs|
    ensures |r.0| == |arcs| + TokenStates(norm, token) && 0 <= r.1 < |r.0|
  {
    var key := LookupOrUnk(symbols, token);
    var n := |arcs|;
    var g := WithArc(arcs + [[]], prev, Arc(key, key, weight, n));
    if IsEntityLabel(token) then
      CasedStates(Candidates(norm, token), useCase);
      (ClassSection(g, symbols, key, Cased(Candidates(norm, token), useCase), eps), n + 2)
    else (g, n)
  }

  /** The backbone and class sections of the tokens, from the start state 0. */
  function TokenSections(symbols: seq<string>, norm: map<string, seq<seq<string>>>, useCase: bool,
                         tokens: seq<string>, matchMap: seq<int>, eps: int): (r: (seq<seq<Arc>>, int))
    ensures |r.0| == 1 + NlpStates(norm, tokens) && 0 <= r.1 < |r.0|
  {
    if |tokens| == 0 then ([[]], 0)
    else
      var (g, prev) := TokenSections(symbols, norm, useCase, tokens[..|tokens| - 1], matchMap, eps);
      TokenSection(g, symbols, norm, useCase, tokens[|tokens| - 1], MapWeight(matchMap, |tokens| - 1), prev, eps)
  }

  /** The words of a candidate touch only their starting state among the old ones: it gains
    * the arc of the first word, and the last new state has no arcs yet. */
  lemma {:induction false} WordsPathShape(arcs: seq<seq<Arc>>, symbols: seq<string>, from: int, words: seq<string>)
    requires 0 <= from < |arcs|
    ensures var (g, last) := WordsPath(arcs, symbols, from, words);
      && (forall s :: 0 <= s < |arcs| && s != from ==> g[s] == arcs[s])
      && (|words| == 0 ==> g == arcs)
      && (|words| > 0 ==> var k := LookupOrUnk(symbols, words[0]);
            g[from] == arcs[from] + [Arc(k, k, 0, |arcs|)] && g[last] == [])
    decreases |words|
  {
    if |words| > 0 {
      var init := words[..|words| - 1];
      WordsPathShape(arcs, symbols, from, init);
      if |init| > 0 {
        assert init[0] == words[0];
      }
    }
  }

  /** A candidate path adds exactly one arc to its starting state, its first word's (or the
    * epsilon arc when it has no words), and leaves the other old states alone. */
  lemma CandidatePathShape(arcs: seq<seq<Arc>>, symbols: seq<string>, from: int, to: int, words: seq<string>, eps: int)
    requires 0 <= from < |arcs|
    ensures var r := CandidatePath(arcs, symbols, from, to, words, eps);
      && (forall s :: 0 <= s < |arcs| && s != from ==> r[s] == arcs[s])
      && r[from] == arcs[from] + [if |words| == 0 then Arc(eps, eps, 0, to)
                                 else Arc(LookupOrUnk(symbols, words[0]), LookupOrUnk(symbols, words[0]), 0, |arcs|)]
  {
    WordsPathShape(arcs, symbols, from, words);
  }

  /** The candidate paths fan out of their starting state, one arc per candidate, and leave the
    * other old states alone. */
  lemma {:induction false} CandidatePathsShape(arcs: seq<seq<Arc>>, symbols: seq<string>, from: int, to: int,
                                               cands: seq<seq<string>>, eps: int)
    requires 0 <= from < |arcs|
    ensures var r := CandidatePaths(arcs, symbols, from, to, cands, eps);
      && (forall s :: 0 <= s < |arcs| && s != from ==> r[s] == arcs[s])
      && |r[from]| == |arcs[from]| + |cands| && r[from][..|arcs[from]|] == arcs[from]
    decreases |cands|
  {
    if |cands| > 0 {
      var init := cands[..|cands| - 1];
      CandidatePathsShape(arcs, symbols, from, to, init, eps);
      CandidatePathShape(CandidatePaths(arcs, symbols, from, to, init, eps), symbols, from, to, cands[|cands| - 1], eps);
    }
  }

  /** A class section after the token arc into t: t gets one alternative per candidate, the
    * exit-start state t + 1 repeats the label into the exit end t + 2, which has no arcs yet,
    * and the earlier states are untouched. */
  lemma ClassSectionShape(arcs: seq<seq<Arc>>, symbols: seq<string>, key: int, cands: seq<seq<string>>, eps: int)
    requires |arcs| > 0
    ensures var r, t := ClassSection(arcs, symbols, key, cands, eps), |arcs| - 1;
      && r[..t] == arcs[..t]
      && |r[t]| == |arcs[t]| + |cands| && r[t][..|arcs[t]|] == arcs[t]
      && r[t + 1] == [Arc(key, key, 0, t + 2)] && r[t + 2] == []
  {
    var t := |arcs| - 1;
    var base := WithArc(arcs + [[], []], t + 1, Arc(key, key, 0, t + 2));
    CandidatePathsShape(base, symbols, t, t + 1, cands, eps);
  }

  /** The sections of one more token extend those of the tokens before it. */
  lemma TokenSectionsSnoc(symbols: seq<string>, norm: map<string, seq<seq<string>>>, useCase: bool,
                          tokens: seq<string>, matchMap: seq<int>, eps: int, i: nat)
    requires i < |tokens|
    ensures var (g, prev) := TokenSections(symbols, norm, useCase, tokens[..i], matchMap, eps);
      TokenSections(symbols, norm, useCase, tokens[..i + 1], matchMap, eps)
      == TokenSection(g, symbols, norm, useCase, tokens[i], MapWeight(matchMap, i), prev, eps)
  {
    assert tokens[..i + 1][..i] == tokens[..i];
  }

  /** Without entities, the sections of the first i tokens are the partial chain over their
    * keys and match-map weights, ending at state i. */
  lemma {:induction false} PlainSections(symbols: seq<string>, norm: map<string, seq<seq<string>>>, useCase: bool,
                                         tokens: seq<string>, matchMap: seq<int>, eps: int, i: nat)
    requires i <= |tokens| && NoEntity(tokens[..i])
    ensures TokenSections(symbols, norm, useCase, tokens[..i], matchMap, eps)
      == (PartialChain(NlpLabels(symbols, tokens), MapWeights(matchMap, |tokens|) + [0], i).arcs, i)
  {
    var labels, weights := NlpLabels(symbols, tokens), MapWeights(matchMap, |tokens|) + [0];
    if i == 0 {
      assert tokens[..0] == [];
      assert PartialChain(labels, weights, 0).arcs == [[]];
    } else {
      assert tokens[..i - 1] == tokens[..i][..i - 1];
      assert !IsEntityLabel(tokens[..i][i - 1]);
      PlainSections(symbols, norm, useCase, tokens, matchMap, eps, i - 1);
      TokenSectionsSnoc(symbols, norm, useCase, tokens, matchMap, eps, i - 1);
      var g := PartialChain(labels, weights, i - 1).arcs;
      var key := LookupOrUnk(symbols, tokens[i - 1]);
      assert labels[i - 1] == key && weights[i - 1] == MapWeight(matchMap, i - 1);
      assert TokenSection(g, symbols, norm, useCase, tokens[i - 1], MapWeight(matchMap, i - 1), i - 1, eps)
        == (WithArc(g + [[]], i - 1, Arc(key, key, weights[i - 1], i)), i);
      ChainExtend(labels, weights, i - 1, g + [[]]);
      assert TokenSections(symbols, norm, useCase, tokens[..i - 1], matchMap, eps) == (g, i - 1);
      assert TokenSections(symbols, norm, useCase, tokens[..i], matchMap, eps)
        == TokenSection(g, symbols, norm, useCase, tokens[i - 1], MapWeight(matchMap, i - 1), i - 1, eps);
    }
  }

  /** The states 0 .. n-1, none of them final. */
  function NotFinal(n: nat): (r: seq<Option<int>>)
    ensures |r| == n && NoneFinal(r)
  {
    seq(n, _ => None)
  }

  /** The transducer of the NLP rows: the token sections, then an epsilon arc from the last
    * backbone state into one more state, the only final one; start 0. */
  function NlpGraph(symbols: seq<string>, norm: map<string, seq<seq<string>>>, useCase: bool,
                    tokens: seq<string>, matchMap: seq<int>): Graph
  {
    var eps := EpsOrZero(symbols);
    var (g, prev) := TokenSections(symbols, norm, useCase, tokens, matchMap, eps);
    Graph(WithArc(g + [[]], prev, Arc(eps, eps, 0, |g|)), NotFinal(|g|) + [Some(0)], 0)
  }

  /** Without entities the NLP graph is the chain over the tokens' keys, weighted by the match
    * map, followed by the epsilon arc into the final state. */
  lemma PlainNlpGraph(symbols: seq<string>, norm: map<string, seq<seq<string>>>, useCase: bool,
                      tokens: seq<string>, matchMap: seq<int>)
    requires NoEntity(tokens)
    ensures NlpGraph(symbols, norm, useCase, tokens, matchMap)
      == ChainGraph(NlpLabels(symbols, tokens), MapWeights(matchMap, |tokens|) + [0])
  {
    var labels, weights := NlpLabels(symbols, tokens), MapWeights(matchMap, |tokens|) + [0];
    var eps := EpsOrZero(symbols);
    assert tokens[..|tokens|] == tokens;
    PlainSections(symbols, norm, useCase, tokens, matchMap, eps, |tokens|);
    var chain := PartialChain(labels, weights, |tokens|);
    assert chain.finals == NotFinal(|tokens| + 1);
    var g := NlpGraph(symbols, norm, useCase, tokens, matchMap);
    ChainClose(labels, weights, chain.arcs, chain.finals, g.arcs, g.finals);
  }

  class NlpFstLoader {
    var tokens: seq<string>
    /** The normalisation candidates per label id, each a sequence of words. */
    var norm: map<string, seq<seq<string>>>
    /** Whether candidate words keep their case; when false they are lowercased. */
    var useCase: bool

    constructor (tokens: seq<string>, norm: map<string, seq<seq<string>>>, useCase: bool)
      ensures this.tokens == tokens && this.norm == norm && this.useCase == useCase
    {
      this.tokens := tokens;
      this.norm := norm;
      this.useCase := useCase;
    }

    /** The transducer of the NLP rows: a backbone arc per token weighted by the match map;
      * after an entity token, one path per candidate from the token's target to the exit-start
      * state, closed by an epsilon arc, and an exit arc repeating the label; then an epsilon arc
      * into the single final state, created last. */
    method ConvertToFst(table: SymbolTable, matchMap: seq<int>) returns (f: VectorFst)
      ensures fresh(f) && f.Valid() && f.start == 0
      ensures |f.arcs| == NlpStates(norm, tokens) + 2
      ensures Closed(f.arcs)
      ensures OnlyLastFinal(f.finals) && f.finals[|f.finals| - 1] == Some(0)
      ensures f.arcs[|f.arcs| - 1] == []
      ensures EnteredByEpsilon(f.arcs, EpsOrZero(table.symbols))
      ensures f.Value() == NlpGraph(table.symbols, norm, useCase, tokens, matchMap)
      ensures NoEntity(tokens) ==>
        f.Value() == ChainGraph(NlpLabels(table.symbols, tokens), MapWeights(matchMap, |tokens|) + [0])
    {
      var epsSym := table.Find(SYM_EPS);
      if epsSym == -1 {
        epsSym := 0;
      }
      f := new VectorFst();
      var _ := f.AddState();
      f.SetStart(0);
      var prevState := AddTokens(f, table, norm, useCase, tokens, matchMap, epsSym);
      ghost var before := f.arcs;
      ghost var beforeFinals := f.finals;
      Finish(f, prevState, epsSym);
      assert beforeFinals == NotFinal(|before|);
      if NoEntity(tokens) {
        PlainNlpGraph(table.symbols, norm, useCase, tokens, matchMap);
      }
    }

    /** The backbone and the class sections of all tokens, from state 0. Returns the last
      * backbone state. */
    static method AddTokens(f: VectorFst, table: SymbolTable, norm: map<string, seq<seq<string>>>, useCase: bool,
                            tokens: seq<string>, matchMap: seq<int>, epsSym: int) returns (prevState: int)
      requires f.Valid() && f.arcs == [[]] && f.finals == [None]
      modifies f
      ensures f.Valid() && f.start == old(f.start) && Closed(f.arcs) && NoneFinal(f.finals)
      ensures |f.arcs| == 1 + NlpStates(norm, tokens)
      ensures 0 <= prevState < |f.arcs| && f.arcs[prevState] == []
      ensures (f.arcs, prevState) == TokenSections(table.symbols, norm, useCase, tokens, matchMap, epsSym)
      ensures NoEntity(tokens) ==>
        var chain := PartialChain(NlpLabels(table.symbols, tokens), MapWeights(matchMap, |tokens|) + [0], |tokens|);
        f.arcs == chain.arcs && f.finals == chain.finals && prevState == |tokens|
    {
      ghost var labels := NlpLabels(table.symbols, tokens);
      ghost var weights := MapWeights(matchMap, |tokens|) + [0];
      prevState := 0;
      var nextState := 1;
      var mapSize := |matchMap|;
      var wc := 0;
      for i := 0 to |tokens|
        invariant f.Valid() && f.start == old(f.start) && Closed(f.arcs) && NoneFinal(f.finals)
        invariant wc == i && nextState == |f.arcs|
        invariant 0 <= prevState < |f.arcs| && f.arcs[prevState] == []
        invariant (f.arcs, prevState) == TokenSections(table.symbols, norm, useCase, tokens[..i], matchMap, epsSym)
      {
        var token := tokens[i];
        var weight := if mapSize > wc && matchMap[wc] > 0 then 1 else 0;
        assert weight == MapWeight(matchMap, i);
        TokenSectionsSnoc(table.symbols, norm, useCase, tokens, matchMap, epsSym, i);
        prevState, nextState := AddToken(f, table, norm, useCase, token, weight, prevState, nextState, epsSym);
        wc := wc + 1;
      }
      assert tokens[..|tokens|] == tokens;
      if NoEntity(tokens) {
        PlainSections(table.symbols, norm, useCase, tokens, matchMap, epsSym, |tokens|);
        assert f.finals == PartialChain(labels, weights, |tokens|).finals;
      }
    }

    /** The closing epsilon arc from the last backbone state into a new state, the only final
      * one, with weight One. */
    static method Finish(f: VectorFst, prevState: int, epsSym: int)
      requires f.Valid() && Closed(f.arcs) && NoneFinal(f.finals)
      requires 0 <= prevState < |f.arcs| && f.arcs[prevState] == []
      modifies f
      ensures f.Valid() && Closed(f.arcs) && f.start == old(f.start)
      ensures var grown := old(f.arcs) + [[]];
        f.arcs == grown[prevState := grown[prevState] + [Arc(epsSym, epsSym, 0, |old(f.arcs)|)]]
      ensures f.finals == old(f.finals) + [Some(0)]
      ensures OnlyLastFinal(f.finals)
      ensures f.arcs[|f.arcs| - 1] == []
      ensures EnteredByEpsilon(f.arcs, epsSym)
    {
      ClosedAddState(f.arcs);
      var realFinal := f.AddState();
      ClosedAddArc(f.arcs, prevState, Arc(epsSym, epsSym, 0, realFinal));
      f.AddArc(prevState, Arc(epsSym, epsSym, 0, realFinal));
      f.SetFinal(realFinal, 0);
      assert f.arcs[prevState] == [Arc(epsSym, epsSym, 0, |f.arcs| - 1)];
    }

    /** One token: a fresh state reached by the token's arc (its key, <unk>'s when missing),
      * followed for an entity by its class section. Returns the state the next token leaves
      * from, which has no arcs, and the next free state. */
    static method AddToken(f: VectorFst, table: SymbolTable, norm: map<string, seq<seq<string>>>, useCase: bool,
                           token: string, weight: int, prevState: int, nextState: int, epsSym: int)
      returns (prevState': int, nextState': int)
      requires f.Valid() && Closed(f.arcs) && NoneFinal(f.finals)
      requires nextState == |f.arcs| && 0 <= prevState < |f.arcs| && f.arcs[prevState] == []
      modifies f
      ensures f.Valid() && Closed(f.arcs) && NoneFinal(f.finals) && f.start == old(f.start)
      ensures nextState' == |f.arcs| == old(|f.arcs|) + TokenStates(norm, token)
      ensures 0 <= prevState' < |f.arcs| && f.arcs[prevState'] == []
      ensures (f.arcs, prevState') == TokenSection(old(f.arcs), table.symbols, norm, useCase, token, weight, prevState, epsSym)
      ensures !IsEntityLabel(token) ==>
        var key := LookupOrUnk(table.symbols, token);
        var grown := old(f.arcs) + [[]];
        && f.arcs == grown[prevState := grown[prevState] + [Arc(key, key, weight, nextState)]]
        && f.finals == old(f.finals) + [None]
        && prevState' == nextState
    {
      ClosedAddState(f.arcs);
      var _ := f.AddState();
      var tokenSym := table.Find(token);
      if tokenSym == -1 {
        tokenSym := table.Find(SYM_UNK);
      }
      var arc := Arc(tokenSym, tokenSym, weight, nextState);
      ClosedAddArc(f.arcs, prevState, arc);
      f.AddArc(prevState, arc);
      if IsEntityLabel(token) {
        CasedStates(Candidates(norm, token), useCase);
        prevState', nextState' := AddClass(f, table, tokenSym, Cased(Candidates(norm, token), useCase), epsSym, nextState);
      } else {
        prevState' := nextState;
        nextState' := nextState + 1;
      }
    }

    /** The class section after an entity token whose target is `nextState`, the newest state:
      * two more states (exit start and exit end), the exit arc repeating the label, and one
      * path per candidate. Returns the exit end, which has no arcs, and the next free state. */
    static method AddClass(f: VectorFst, table: SymbolTable, tokenSym: int, cands: seq<seq<string>>,
                           epsSym: int, nextState: int) returns (prevState': int, nextState': int)
      requires f.Valid() && Closed(f.arcs) && NoneFinal(f.finals) && nextState == |f.arcs| - 1 && 0 <= nextState
      modifies f
      ensures f.Valid() && Closed(f.arcs) && NoneFinal(f.finals) && f.start == old(f.start)
      ensures f.arcs == ClassSection(old(f.arcs), table.symbols, tokenSym, cands, epsSym)
      ensures nextState' == |f.arcs| && prevState' == old(|f.arcs|) + 1 && f.arcs[prevState'] == []
      ensures forall s :: 0 <= s < old(|f.arcs|) - 1 ==> f.arcs[s] == old(f.arcs[s])
    {
      ClosedAddState(f.arcs);
      var _ := f.AddState();
      ClosedAddState(f.arcs);
      var _ := f.AddState();
      var classPrevState := nextState;
      var classNextState := nextState + 1;
      var classExitStartState := nextState + 1;
      var classExitEndState := classExitStartState + 1;
      var next := classExitEndState;
      ClosedAddArc(f.arcs, classExitStartState, Arc(tokenSym, tokenSym, 0, classExitEndState));
      f.AddArc(classExitStartState, Arc(tokenSym, tokenSym, 0, classExitEndState));
      ghost var base := f.arcs;
      assert base == WithArc(old(f.arcs) + [[], []], nextState + 1, Arc(tokenSym, tokenSym, 0, nextState + 2));
      for c := 0 to |cands|
        invariant f.Valid() && Closed(f.arcs) && NoneFinal(f.finals) && f.start == old(f.start)
        invariant f.arcs == CandidatePaths(base, table.symbols, classPrevState, classNextState, cands[..c], epsSym)
        invariant |f.arcs| == old(|f.arcs|) + 2 + CandidateStates(cands[..c]) && next == |f.arcs| - 1
        invariant classExitEndState < |f.arcs| && f.arcs[classExitEndState] == []
      {
        next := AddCandidatePath(f, table, classPrevState, classNextState, classExitEndState, cands[c], epsSym, next);
        assert cands[..c + 1][..c] == cands[..c];
      }
      assert cands[..|cands|] == cands;
      ClassSectionShape(old(f.arcs), table.symbols, tokenSym, cands, epsSym);
      forall s | 0 <= s < nextState
        ensures f.arcs[s] == old(f.arcs[s])
      {
        assert f.arcs[..nextState][s] == old(f.arcs)[..nextState][s];
      }
      prevState' := classExitEndState;
      nextState' := next + 1;
    }

    /** One candidate path: a fresh state per word, chained from `classPrev` by the words' keys
      * (<unk>'s when missing), closed by an epsilon arc to `classNext`. */
    static method AddCandidatePath(f: VectorFst, table: SymbolTable, classPrev: int, classNext: int,
                                   exitEnd: int, cand: seq<string>, epsSym: int, nextState: int)
      returns (nextState': int)
      requires f.Valid() && Closed(f.arcs) && NoneFinal(f.finals) && nextState == |f.arcs| - 1
      requires 0 <= classPrev < |f.arcs| && 0 <= classNext < |f.arcs| && 0 <= exitEnd < |f.arcs|
      requires exitEnd != classPrev && f.arcs[exitEnd] == []
      modifies f
      ensures f.Valid() && Closed(f.arcs) && NoneFinal(f.finals) && f.start == old(f.start)
      ensures f.arcs == CandidatePath(old(f.arcs), table.symbols, classPrev, classNext, cand, epsSym)
      ensures nextState' == |f.arcs| - 1
      ensures f.arcs[exitEnd] == []
      ensures forall s :: 0 <= s < |old(f.arcs)| && s != classPrev ==> f.arcs[s] == old(f.arcs[s])
    {
      var prevState := classPrev;
      nextState' := nextState;
      for j := 0 to |cand|
        invariant f.Valid() && Closed(f.arcs) && NoneFinal(f.finals) && f.start == old(f.start)
        invariant (f.arcs, prevState) == WordsPath(old(f.arcs), table.symbols, classPrev, cand[..j])
        invariant nextState' == |f.arcs| - 1
      {
        prevState := AddWord(f, table, prevState, cand[j]);
        nextState' := prevState;
        assert cand[..j + 1][..j] == cand[..j];
      }
      assert cand[..|cand|] == cand;
      ClosedAddArc(f.arcs, prevState, Arc(epsSym, epsSym, 0, classNext));
      f.AddArc(prevState, Arc(epsSym, epsSym, 0, classNext));
      CandidatePathShape(old(f.arcs), table.symbols, classPrev, classNext, cand, epsSym);
    }

    /** One word of a candidate path: a fresh state reached from `prevState` by the word's key
      * (<unk>'s when missing). Returns the fresh state. */
    static method AddWord(f: VectorFst, table: SymbolTable, prevState: int, word: string) returns (newState: int)
      requires f.Valid() && Closed(f.arcs) && NoneFinal(f.finals) && 0 <= prevState < |f.arcs|
      modifies f
      ensures f.Valid() && Closed(f.arcs) && NoneFinal(f.finals) && f.start == old(f.start)
      ensures var k := LookupOrUnk(table.symbols, word);
        newState == |old(f.arcs)| && f.arcs == WithArc(old(f.arcs) + [[]], prevState, Arc(k, k, 0, newState))
    {
      ClosedAddState(f.arcs);
      newState := f.AddState();
      var tokenSym := table.Find(word);
      if tokenSym == -1 {
        tokenSym := table.Find(SYM_UNK);
      }
      ClosedAddArc(f.arcs, prevState, Arc(tokenSym, tokenSym, 0, newState));
      f.AddArc(prevState, Arc(tokenSym, tokenSym, 0, newState));
    }
  }
}
