// The synonym engine (src/SynonymEngine.cpp): rules "lhs words | alternative; alternative"
// read from text lines, rules generated from the hyphens of the symbol table, and the
// rewriting of a token graph that adds, for every place a rule's left side can be read, one
// labelled path per alternative.
module Synonyms {
  import opened Wrappers
  import opened Strings
  import opened Symbols
  import opened Fst

  // ---------------------------------------------------------------------------------------
  // Splitting on a delimiter (strtk::split with compress_delimiters)

  /** A non-empty run of characters other than the delimiter. */
  predicate IsPiece(w: string, d: char)
  {
    |w| > 0 && forall i :: 0 <= i < |w| ==> w[i] != d
  }

  /** The length of the run of non-delimiter characters at the head of `s`. */
  function PieceLength(s: string, d: char): (n: nat)
    ensures n <= |s|
    ensures forall i :: 0 <= i < n ==> s[i] != d
    ensures n < |s| ==> s[n] == d
  {
    if |s| == 0 || s[0] == d then 0 else 1 + PieceLength(s[1..], d)
  }

  /** The maximal runs of non-delimiter characters of `s`, in order; runs of delimiters
    * separate two pieces and produce none. */
  function Split(s: string, d: char): (ps: seq<string>)
    ensures forall k :: 0 <= k < |ps| ==> IsPiece(ps[k], d)
    decreases |s|
  {
    if |s| == 0 then []
    else if s[0] == d then Split(s[1..], d)
    else
      var n := PieceLength(s, d);
      [s[..n]] + Split(s[n..], d)
  }

  lemma PieceLengthOfPiece(w: string, x: string, d: char)
    requires IsPiece(w, d)
    requires |x| == 0 || x[0] == d
    ensures PieceLength(w + x, d) == |w|
  {
    assert forall i :: 0 <= i < |w| ==> (w + x)[i] == w[i];
    assert |x| > 0 ==> (w + x)[|w|] == x[0];
  }

  lemma SplitOfPiece(w: string, d: char)
    requires IsPiece(w, d)
    ensures Split(w, d) == [w]
  {
    PieceLengthOfPiece(w, "", d);
    assert w + "" == w;
    assert w[|w|..] == "";
  }

  lemma SplitCons(w: string, r: string, d: char)
    requires IsPiece(w, d)
    ensures Split(w + [d] + r, d) == [w] + Split(r, d)
  {
    var s := w + [d] + r;
    assert s == w + ([d] + r);
    PieceLengthOfPiece(w, [d] + r, d);
    assert s[..|w|] == w;
    assert s[|w|..] == [d] + r;
    assert ([d] + r)[1..] == r;
  }

  /** Pieces joined with the delimiter are split back into the same pieces. */
  lemma {:induction false} SplitOfJoin(ps: seq<string>, d: char)
    requires forall k :: 0 <= k < |ps| ==> IsPiece(ps[k], d)
    ensures Split(StringJoin(ps, [d]), d) == ps
    decreases |ps|
  {
    StringJoinIsJoinRef(ps, [d]);
    if |ps| == 1 {
      SplitOfPiece(ps[0], d);
    } else if |ps| >= 2 {
      SplitCons(ps[0], JoinRef(ps[1..], [d]), d);
      SplitOfJoin(ps[1..], d);
      StringJoinIsJoinRef(ps[1..], [d]);
      assert ps == [ps[0]] + ps[1..];
    }
  }

  // ---------------------------------------------------------------------------------------
  // Rules

  /** A rule's left side: the words to find in the graph. */
  type SynKey = seq<string>

  /** A rule's right side: the alternatives, each a sequence of words. */
  type SynVals = seq<seq<string>>

  type Rules = map<SynKey, SynVals>

  /** GetKeyFromString: the words of the left side, split on runs of spaces. */
  function GetKeyFromString(lhs: string): SynKey
  {
    Split(lhs, ' ')
  }

  /** GetValuesFromStrings: the right side split on runs of ';', each alternative trimmed and
    * split on runs of spaces. */
  function GetValuesFromStrings(rhs: string): SynVals
  {
    var alternatives := Split(rhs, ';');
    seq(|alternatives|, i requires 0 <= i < |alternatives| => Split(Trim(alternatives[i]), ' '))
  }

  /** ParseStrings on one line: blank and '#' lines, and lines that do not split into exactly
    * two '|' parts, change nothing; otherwise the rule is added unless its key already has
    * one. */
  function ParseLine(rules: Rules, line: string): Rules
  {
    var l := Trim(line);
    if |l| == 0 || l[0] == '#' then rules
    else ParseParts(rules, Split(l, '|'))
  }

  /** The rule of a line split at its bars: only a line with exactly two sides counts, and
    * a key that already has a rule keeps it. */
  function ParseParts(rules: Rules, parts: seq<string>): Rules
  {
    if |parts| != 2 then rules
    else
      var key := GetKeyFromString(Trim(parts[0]));
      if key in rules then rules else rules[key := GetValuesFromStrings(parts[1])]
  }

  /** ParseStrings on a list of lines, in order. */
  function ParseAll(rules: Rules, lines: seq<string>): Rules
    decreases |lines|
  {
    if |lines| == 0 then rules else ParseLine(ParseAll(rules, lines[..|lines| - 1]), lines[|lines| - 1])
  }

  /** The first definition of a key wins: a rule already present is never replaced. */
  lemma {:induction false} ParseKeepsRules(rules: Rules, lines: seq<string>, key: SynKey)
    requires key in rules
    ensures key in ParseAll(rules, lines) && ParseAll(rules, lines)[key] == rules[key]
    decreases |lines|
  {
    if |lines| > 0 {
      ParseKeepsRules(rules, lines[..|lines| - 1], key);
    }
  }

  /** A word as it appears in a rule file: no whitespace, no ';' and no '|'. */
  predicate PlainWord(w: string)
  {
    |w| > 0 && forall i :: 0 <= i < |w| ==> !IsSpace(w[i]) && w[i] != ';' && w[i] != '|'
  }

  /** A sequence of plain words. */
  predicate PlainWords(ws: seq<string>)
  {
    |ws| > 0 && forall k :: 0 <= k < |ws| ==> PlainWord(ws[k])
  }

  /** No ';' and no '|'. */
  predicate NoBars(s: string)
  {
    forall i :: 0 <= i < |s| ==> s[i] != ';' && s[i] != '|'
  }

  /** No '|'. */
  predicate NoBar(s: string)
  {
    forall i :: 0 <= i < |s| ==> s[i] != '|'
  }

  /** Plain words joined with single spaces: non-blank at both ends, free of ';' and '|'. */
  lemma {:induction false} JoinedWords(ws: seq<string>)
    requires PlainWords(ws)
    ensures var s := JoinRef(ws, " ");
      |s| > 0 && s[0] == ws[0][0] && !IsSpace(s[0]) && !IsSpace(s[|s| - 1]) && NoBars(s)
    decreases |ws|
  {
    var s := JoinRef(ws, " ");
    if |ws| == 1 {
      assert s == ws[0];
    } else {
      var r := JoinRef(ws[1..], " ");
      JoinedWords(ws[1..]);
      assert s == ws[0] + " " + r;
      assert s[0] == ws[0][0];
      assert s[|s| - 1] == r[|r| - 1];
      forall i | 0 <= i < |s| ensures s[i] != ';' && s[i] != '|' {
        if i < |ws[0]| {
          assert s[i] == ws[0][i];
        } else if i > |ws[0]| {
          assert s[i] == r[i - |ws[0]| - 1];
        }
      }
    }
  }

  /** The text of a rule's left side or of one alternative. */
  function WordsText(ws: seq<string>): string
  {
    StringJoin(ws, " ")
  }

  /** The alternatives as they are written on the right of the '|'. */
  function AlternativesText(alts: seq<seq<string>>): string
  {
    StringJoin(seq(|alts|, i requires 0 <= i < |alts| => WordsText(alts[i])), ";")
  }

  /** A rule written out as one line. */
  function RuleLine(key: SynKey, alts: SynVals): string
  {
    WordsText(key) + "|" + AlternativesText(alts)
  }

  /** The text of plain words has its words back, and is its own trimmed form. */
  lemma WordsTextSpec(ws: seq<string>)
    requires PlainWords(ws)
    ensures var s := WordsText(ws);
      |s| > 0 && s[0] == ws[0][0] && !IsSpace(s[|s| - 1]) && NoBars(s)
      && Trim(s) == s && GetKeyFromString(s) == ws
  {
    var s := WordsText(ws);
    StringJoinIsJoinRef(ws, " ");
    JoinedWords(ws);
    LTrimNoLeading(s);
    RTrimNoTrailing(s);
    forall k | 0 <= k < |ws| ensures IsPiece(ws[k], ' ') {
      assert forall i :: 0 <= i < |ws[k]| ==> !IsSpace(ws[k][i]);
    }
    SplitOfJoin(ws, ' ');
  }

  /** The right side of a written rule is read back as the same alternatives. */
  lemma AlternativesTextSpec(alts: SynVals)
    requires |alts| > 0 && forall k :: 0 <= k < |alts| ==> PlainWords(alts[k])
    ensures var s := AlternativesText(alts);
      |s| > 0 && !IsSpace(s[|s| - 1]) && NoBar(s) && GetValuesFromStrings(s) == alts
  {
    var texts := seq(|alts|, i requires 0 <= i < |alts| => WordsText(alts[i]));
    forall k | 0 <= k < |texts|
      ensures IsPiece(texts[k], ';') && NoBar(texts[k]) && !IsSpace(texts[k][|texts[k]| - 1])
      ensures Split(Trim(texts[k]), ' ') == alts[k]
    {
      WordsTextSpec(alts[k]);
    }
    ValuesOfJoinedTexts(texts, alts);
  }

  /** Alternative texts joined with ';' are read back as their alternatives. */
  lemma ValuesOfJoinedTexts(texts: seq<string>, alts: SynVals)
    requires |texts| == |alts| > 0
    requires forall k :: 0 <= k < |texts| ==>
      IsPiece(texts[k], ';') && NoBar(texts[k]) && !IsSpace(texts[k][|texts[k]| - 1])
      && Split(Trim(texts[k]), ' ') == alts[k]
    ensures var s := StringJoin(texts, ";");
      |s| > 0 && !IsSpace(s[|s| - 1]) && NoBar(s) && GetValuesFromStrings(s) == alts
  {
    SplitOfJoin(texts, ';');
    JoinTextsEnd(texts);
  }

  /** Texts without '|' joined with ';': no '|', and the last character is the last text's. */
  lemma {:induction false} JoinTextsSpec(texts: seq<string>)
    requires |texts| > 0 && forall k :: 0 <= k < |texts| ==> |texts[k]| > 0 && NoBar(texts[k])
    requires !IsSpace(texts[|texts| - 1][|texts[|texts| - 1]| - 1])
    ensures var s := JoinRef(texts, ";"); |s| > 0 && !IsSpace(s[|s| - 1]) && NoBar(s)
    decreases |texts|
  {
    var s := JoinRef(texts, ";");
    if |texts| > 1 {
      var r := JoinRef(texts[1..], ";");
      JoinTextsSpec(texts[1..]);
      assert s == texts[0] + ";" + r;
      forall i | 0 <= i < |s| ensures s[i] != '|' {
        if i < |texts[0]| {
          assert s[i] == texts[0][i];
        } else if i > |texts[0]| {
          assert s[i] == r[i - |texts[0]| - 1];
        }
      }
    }
  }

  lemma JoinTextsEnd(texts: seq<string>)
    requires |texts| > 0 && forall k :: 0 <= k < |texts| ==> |texts[k]| > 0 && NoBar(texts[k])
    requires !IsSpace(texts[|texts| - 1][|texts[|texts| - 1]| - 1])
    ensures var s := StringJoin(texts, ";"); |s| > 0 && !IsSpace(s[|s| - 1]) && NoBar(s)
  {
    StringJoinIsJoinRef(texts, ";");
    JoinTextsSpec(texts);
  }

  /** A rule written as one line is read back as that rule, unless its key already has one. */
  lemma ParseRuleLine(rules: Rules, key: SynKey, alts: SynVals)
    requires PlainWords(key) && key[0][0] != '#' && key !in rules
    requires |alts| > 0 && forall k :: 0 <= k < |alts| ==> PlainWords(alts[k])
    ensures ParseLine(rules, RuleLine(key, alts)) == rules[key := alts]
  {
    WordsTextSpec(key);
    AlternativesTextSpec(alts);
    ParseSides(rules, WordsText(key), AlternativesText(alts), key, alts);
  }

  lemma ParseSides(rules: Rules, lhs: string, rhs: string, key: SynKey, alts: SynVals)
    requires |lhs| > 0 && lhs[0] != '#' && !IsSpace(lhs[0]) && NoBar(lhs) && Trim(lhs) == lhs
    requires |rhs| > 0 && !IsSpace(rhs[|rhs| - 1]) && NoBar(rhs)
    requires GetKeyFromString(lhs) == key && key !in rules && GetValuesFromStrings(rhs) == alts
    ensures ParseLine(rules, lhs + "|" + rhs) == rules[key := alts]
  {
    var line := lhs + "|" + rhs;
    TrimLine(lhs, rhs);
    SplitLine(lhs, rhs);
    assert line[0] == lhs[0];
    ParseLineParts(rules, line, lhs, rhs);
  }

  /** A trimmed line that is not a comment and splits into two '|' parts adds the rule they
    * spell unless its key has one. */
  lemma ParseLineParts(rules: Rules, line: string, a: string, b: string)
    requires |line| > 0 && line[0] != '#' && Trim(line) == line && Split(line, '|') == [a, b]
    ensures var key := GetKeyFromString(Trim(a));
      ParseLine(rules, line) == if key in rules then rules else rules[key := GetValuesFromStrings(b)]
  {
    assert ParseLine(rules, line) == ParseParts(rules, [a, b]);
  }

  /** A line that starts and ends with a non-blank is its own trimmed form. */
  lemma TrimLine(lhs: string, rhs: string)
    requires |lhs| > 0 && !IsSpace(lhs[0])
    requires |rhs| > 0 && !IsSpace(rhs[|rhs| - 1])
    ensures Trim(lhs + "|" + rhs) == lhs + "|" + rhs
  {
    var line := lhs + "|" + rhs;
    assert line[0] == lhs[0];
    assert line[|line| - 1] == rhs[|rhs| - 1];
    LTrimNoLeading(line);
    RTrimNoTrailing(line);
  }

  /** Two non-empty sides without '|' joined by one '|' split back into the two sides. */
  lemma SplitLine(lhs: string, rhs: string)
    requires |lhs| > 0 && NoBar(lhs) && |rhs| > 0 && NoBar(rhs)
    ensures Split(lhs + "|" + rhs, '|') == [lhs, rhs]
  {
    JoinPair(lhs, rhs, "|");
    SplitOfJoin([lhs, rhs], '|');
  }

  // ---------------------------------------------------------------------------------------
  // Synonym labels

  function DigitChar(d: nat): char
    requires d < 10
  {
    (48 + d) as char
  }

  predicate IsDigits(s: string)
  {
    forall i :: 0 <= i < |s| ==> '0' <= s[i] <= '9'
  }

  /** std::to_string of a non-negative number: its decimal digits. */
  function NatToString(n: nat): (r: string)
    ensures |r| > 0 && IsDigits(r)
  {
    if n < 10 then [DigitChar(n)] else NatToString(n / 10) + [DigitChar(n % 10)]
  }

  /** The number a string of decimal digits spells. */
  function DigitsValue(s: string): nat
    requires IsDigits(s)
  {
    if |s| == 0 then 0 else 10 * DigitsValue(s[..|s| - 1]) + (s[|s| - 1] as int - 48)
  }

  /** to_string is read back by DigitsValue, so distinct numbers get distinct spellings. */
  lemma {:induction false} DigitsOfNat(n: nat)
    ensures DigitsValue(NatToString(n)) == n
  {
    if n >= 10 {
      DigitsOfNat(n / 10);
      var r := NatToString(n);
      assert r[..|r| - 1] == NatToString(n / 10);
    }
  }

  /** The label of the n-th synonym path: "___" n "_SYN_" |lhs| "-" |alternative| "___". */
  function SynLabel(n: nat, lhsLen: nat, altLen: nat): string
  {
    "___" + NatToString(n) + "_" + SynTail(lhsLen, altLen)
  }

  function SynTail(lhsLen: nat, altLen: nat): string
  {
    "SYN_" + NatToString(lhsLen) + "-" + NatToString(altLen) + "___"
  }

  /** Every such label is a synonym label (and so an entity label). */
  lemma SynLabelIsSynonym(n: nat, lhsLen: nat, altLen: nat)
    ensures IsSynonymLabel(SynLabel(n, lhsLen, altLen))
  {
    var t := SynLabel(n, lhsLen, altLen);
    var k := 3 + |NatToString(n)|;
    assert t[k .. k + 5] == "_SYN_";
    assert OccursAt(t, "_SYN_", k);
  }

  /** Paths with different numbers get different labels. */
  lemma SynLabelInjective(n1: nat, l1: nat, a1: nat, n2: nat, l2: nat, a2: nat)
    requires SynLabel(n1, l1, a1) == SynLabel(n2, l2, a2)
    ensures n1 == n2
  {
    var x, y := NatToString(n1), NatToString(n2);
    var r1, r2 := SynTail(l1, a1), SynTail(l2, a2);
    SynLabelAfterMark(n1, l1, a1);
    SynLabelAfterMark(n2, l2, a2);
    DigitsBeforeSep(x, y, r1, r2);
    DigitsOfNat(n1);
    DigitsOfNat(n2);
  }

  /** What follows the opening "___" of a synonym label. */
  lemma SynLabelAfterMark(n: nat, l: nat, a: nat)
    ensures |SynLabel(n, l, a)| >= 3
    ensures SynLabel(n, l, a)[3..] == NatToString(n) + "_" + SynTail(l, a)
  {
    var m := NatToString(n) + "_" + SynTail(l, a);
    Regroup("___", NatToString(n), "_", SynTail(l, a));
    DropPrefix("___", m);
  }

  /** Within a digit string followed by '_', the '_' is at the string's length. */
  lemma SepAt(x: string, r: string, m: nat)
    requires IsDigits(x) && m <= |x|
    ensures (x + "_" + r)[m] == '_' <==> m == |x|
  {
    if m < |x| {
      assert (x + "_" + r)[m] == x[m];
    }
  }

  /** Two digit strings each followed by '_' in the same text are the same. */
  lemma DigitsBeforeSep(x: string, y: string, r1: string, r2: string)
    requires IsDigits(x) && IsDigits(y) && x + "_" + r1 == y + "_" + r2
    ensures x == y
  {
    var t := x + "_" + r1;
    var m := if |x| < |y| then |x| else |y|;
    SepAt(x, r1, m);
    SepAt(y, r2, m);
    assert x == t[..|x|];
    assert y == (y + "_" + r2)[..|y|];
  }

  // ---------------------------------------------------------------------------------------
  // Rules generated from the symbol table

  /** GenerateSynFromSymbolTable on one symbol: the rules and the table afterwards.
    * The position of the first '-' is compared with length - 1 as size_t values, so a symbol
    * without '-' matches only when it is empty (npos against 0 - 1). */
  function GenerateFor(rules: Rules, table: seq<string>, sym: string,
                       disableCutoffs: bool, disableHyphenIgnore: bool): (Rules, seq<string>)
  {
    var hyphen := FindChar(sym, '-', 0);
    var atEnd := if hyphen.None? then |sym| == 0 else hyphen.value == |sym| - 1;
    if !disableCutoffs && atEnd then
      // a cutoff word "wor-" stands for "wor"
      var newWord := if |sym| == 0 then "" else sym[..|sym| - 1];
      var key := GetKeyFromString(sym);
      (if key in rules then rules else rules[key := GetValuesFromStrings(newWord)],
       Step(table, newWord))
    else if !disableHyphenIgnore && hyphen.Some? && hyphen.value != |sym| - 1 then
      // a compound "a-b" and the words "a b" stand for each other
      var newWords := Split(Trim(sym), '-');
      (PairRules(rules, GetKeyFromString(sym), newWords), WithAll(table, newWords))
    else (rules, table)
  }

  /** The two rules of a compound: the hyphenated key stands for the words and the words for
    * the hyphenated key, each added only where its key has no rule yet. */
  function PairRules(rules: Rules, hyphenated: SynKey, words: SynKey): Rules
  {
    var r1 := if hyphenated in rules then rules else rules[hyphenated := [words]];
    if words in r1 then r1 else r1[words := [hyphenated]]
  }

  /** GenerateSynFromSymbolTable over a list of symbols, in order. */
  function GenerateAll(rules: Rules, table: seq<string>, syms: seq<string>,
                       disableCutoffs: bool, disableHyphenIgnore: bool): (Rules, seq<string>)
    decreases |syms|
  {
    if |syms| == 0 then (rules, table)
    else
      var prev := GenerateAll(rules, table, syms[..|syms| - 1], disableCutoffs, disableHyphenIgnore);
      GenerateFor(prev.0, prev.1, syms[|syms| - 1], disableCutoffs, disableHyphenIgnore)
  }

  /** One symbol's generation never replaces a rule and never drops or renumbers a symbol. */
  lemma GenerateForKeeps(rules: Rules, table: seq<string>, sym: string, dc: bool, dh: bool)
    ensures var r := GenerateFor(rules, table, sym, dc, dh);
      table <= r.1 && forall key :: key in rules ==> key in r.0 && r.0[key] == rules[key]
  {
    WithAllSpec(table, Split(Trim(sym), '-'));
  }

  /** Generation never replaces a rule and never drops or renumbers a symbol. */
  lemma {:induction false} GenerateKeeps(rules: Rules, table: seq<string>, syms: seq<string>,
                                         dc: bool, dh: bool)
    ensures var r := GenerateAll(rules, table, syms, dc, dh);
      table <= r.1 && forall key :: key in rules ==> key in r.0 && r.0[key] == rules[key]
    decreases |syms|
  {
    if |syms| > 0 {
      var prev := GenerateAll(rules, table, syms[..|syms| - 1], dc, dh);
      GenerateKeeps(rules, table, syms[..|syms| - 1], dc, dh);
      GenerateForKeeps(prev.0, prev.1, syms[|syms| - 1], dc, dh);
    }
  }

  /** A cutoff word "wor-" with no rule yet gets the rule [wor-] -> [[wor]], and "wor" is in the
    * table afterwards. */
  lemma CutoffRule(rules: Rules, table: seq<string>, w: string, dh: bool)
    requires PlainWord(w) && forall i :: 0 <= i < |w| ==> w[i] != '-'
    requires [w + "-"] !in rules
    ensures var r := GenerateFor(rules, table, w + "-", false, dh);
      r.0 == rules[[w + "-"] := [[w]]] && w in r.1
  {
    CutoffShape(w);
    ValuesOfWord(w);
  }

  /** A cutoff word: its only '-' is its last character, and it is one key word. */
  lemma CutoffShape(w: string)
    requires PlainWord(w) && forall i :: 0 <= i < |w| ==> w[i] != '-'
    ensures var sym := w + "-";
      FindChar(sym, '-', 0) == Some(|sym| - 1) && sym[..|sym| - 1] == w
      && GetKeyFromString(sym) == [sym]
  {
    var sym := w + "-";
    FindCharFirst(sym, '-', 0, |w|);
    assert sym[..|sym| - 1] == w;
    SplitOfPiece(sym, ' ');
  }

  /** A plain word read as a right side is one alternative of one word. */
  lemma ValuesOfWord(w: string)
    requires PlainWord(w)
    ensures GetValuesFromStrings(w) == [[w]]
  {
    WordsTextSpec([w]);
    assert WordsText([w]) == w;
    AlternativesTextSpec([[w]]);
    assert AlternativesText([[w]]) == StringJoin([w], ";") == w;
  }

  /** A compound "a-b-c" of plain words, with hyphen handling on and cutoffs of no concern,
    * adds its parts to the table and gets [a-b-c] -> [[a, b, c]] and [a, b, c] -> [[a-b-c]]
    * where those keys have no rule yet. */
  lemma CompoundRule(rules: Rules, table: seq<string>, parts: seq<string>, dc: bool)
    requires |parts| >= 2 && PlainWords(parts)
    requires forall k :: 0 <= k < |parts| ==> IsPiece(parts[k], '-')
    ensures var sym := StringJoin(parts, "-");
      var r := GenerateFor(rules, table, sym, dc, false);
      (forall k :: 0 <= k < |parts| ==> parts[k] in r.1) && [sym] in r.0 && parts in r.0
      && r.0[[sym]] == (if [sym] in rules then rules[[sym]] else [parts])
      && r.0[parts] == (if parts in rules then rules[parts] else [[sym]])
  {
    var sym := StringJoin(parts, "-");
    CompoundFacts(parts);
    assert GenerateFor(rules, table, sym, dc, false) == (PairRules(rules, [sym], parts), WithAll(table, parts));
    WithAllSpec(table, parts);
    assert [sym] != parts;
  }

  /** How GenerateFor reads a compound of plain words: its first '-' is inside it, trimming
    * leaves it alone, splitting at '-' gives back the parts, and it is one key word. */
  lemma CompoundFacts(parts: seq<string>)
    requires |parts| >= 2 && PlainWords(parts)
    requires forall k :: 0 <= k < |parts| ==> IsPiece(parts[k], '-')
    ensures var sym := StringJoin(parts, "-");
      && FindChar(sym, '-', 0) == Some(|parts[0]|) && |parts[0]| != |sym| - 1
      && Trim(sym) == sym && Split(sym, '-') == parts && GetKeyFromString(sym) == [sym]
  {
    var sym := StringJoin(parts, "-");
    CompoundShape(parts);
    FindCharFirst(sym, '-', 0, |parts[0]|);
    LTrimNoLeading(sym);
    RTrimNoTrailing(sym);
    SplitOfJoin(parts, '-');
    SplitOfPiece(sym, ' ');
  }

  /** The text of a compound: its first '-' ends the first part and is not its last character,
    * and it has no blanks. */
  lemma CompoundShape(parts: seq<string>)
    requires |parts| >= 2 && PlainWords(parts)
    requires forall k :: 0 <= k < |parts| ==> IsPiece(parts[k], '-')
    ensures var sym := StringJoin(parts, "-");
      |parts[0]| < |sym| - 1 && sym[|parts[0]|] == '-' && sym[..|parts[0]|] == parts[0]
      && !IsSpace(sym[0]) && !IsSpace(sym[|sym| - 1]) && IsPiece(sym, ' ')
  {
    var sym := StringJoin(parts, "-");
    StringJoinIsJoinRef(parts, "-");
    var r := JoinRef(parts[1..], "-");
    assert sym == parts[0] + "-" + r;
    CompoundText(parts[1..]);
    forall i | 0 <= i < |sym| ensures sym[i] != ' ' {
      if i < |parts[0]| {
        assert sym[i] == parts[0][i];
      } else if i > |parts[0]| {
        assert sym[i] == r[i - |parts[0]| - 1];
      }
    }
  }

  lemma {:induction false} CompoundText(parts: seq<string>)
    requires PlainWords(parts)
    ensures var s := JoinRef(parts, "-");
      |s| > 0 && !IsSpace(s[|s| - 1]) && forall i :: 0 <= i < |s| ==> !IsSpace(s[i])
    decreases |parts|
  {
    var s := JoinRef(parts, "-");
    if |parts| > 1 {
      var r := JoinRef(parts[1..], "-");
      CompoundText(parts[1..]);
      assert s == parts[0] + "-" + r;
      forall i | 0 <= i < |s| ensures !IsSpace(s[i]) {
        if i < |parts[0]| {
          assert s[i] == parts[0][i];
        } else if i > |parts[0]| {
          assert s[i] == r[i - |parts[0]| - 1];
        }
      }
    } else {
      assert s == parts[0];
    }
  }

  // ---------------------------------------------------------------------------------------
  // The order of std::map<SynKey, SynVals>: keys compared word by word, words character by
  // character

  predicate StrLess(a: string, b: string)
  {
    if |a| == 0 then |b| > 0
    else if |b| == 0 then false
    else a[0] < b[0] || (a[0] == b[0] && StrLess(a[1..], b[1..]))
  }

  predicate KeyLess(a: SynKey, b: SynKey)
  {
    if |a| == 0 then |b| > 0
    else if |b| == 0 then false
    else StrLess(a[0], b[0]) || (a[0] == b[0] && KeyLess(a[1..], b[1..]))
  }

  lemma {:induction false} StrTrichotomy(a: string, b: string)
    ensures StrLess(a, b) || a == b || StrLess(b, a)
  {
    if |a| > 0 && |b| > 0 {
      StrTrichotomy(a[1..], b[1..]);
      if a[0] == b[0] && a[1..] == b[1..] {
        assert a == [a[0]] + a[1..] && b == [b[0]] + b[1..];
      }
    }
  }

  lemma {:induction false} KeyTrichotomy(a: SynKey, b: SynKey)
    ensures KeyLess(a, b) || a == b || KeyLess(b, a)
  {
    if |a| > 0 && |b| > 0 {
      StrTrichotomy(a[0], b[0]);
      KeyTrichotomy(a[1..], b[1..]);
      if a[0] == b[0] && a[1..] == b[1..] {
        assert a == [a[0]] + a[1..] && b == [b[0]] + b[1..];
      }
    }
  }

  /** Each key before the next one. */
  predicate SortedKeys(keys: seq<SynKey>)
  {
    forall i :: 0 <= i < |keys| - 1 ==> KeyLess(keys[i], keys[i + 1])
  }

  /** A new key put in its place among sorted keys. */
  function InsertKey(keys: seq<SynKey>, k: SynKey): (r: seq<SynKey>)
    ensures forall x :: x in r <==> x == k || x in keys
    ensures |r| == |keys| + 1
  {
    if |keys| == 0 || KeyLess(k, keys[0]) then [k] + keys
    else [keys[0]] + InsertKey(keys[1..], k)
  }

  lemma {:induction false} InsertKeySorted(keys: seq<SynKey>, k: SynKey)
    requires SortedKeys(keys) && k !in keys
    ensures SortedKeys(InsertKey(keys, k))
  {
    if |keys| > 0 && !KeyLess(k, keys[0]) {
      KeyTrichotomy(k, keys[0]);
      InsertKeySorted(keys[1..], k);
      var r := InsertKey(keys[1..], k);
      assert |keys| > 1 ==> KeyLess(keys[0], keys[1]);
      assert r[0] == k || r[0] == keys[1];
    }
  }

  /** `keys` lists the keys of `rules` once each, in std::map order. */
  ghost predicate RuleKeys(keys: seq<SynKey>, rules: Rules)
  {
    SortedKeys(keys) && forall k :: k in keys <==> k in rules
  }

  // ---------------------------------------------------------------------------------------
  // SeekForward

  /** The out-arcs of a state; none for a state the graph does not have. */
  function ArcsAt(arcs: seq<seq<Arc>>, s: int): seq<Arc>
  {
    if 0 <= s < |arcs| then arcs[s] else []
  }

  /** SeekForward: the states reached from `s` by reading the keys of lhs[pos..] along arcs
    * that are not self-loops, once per way of reading them, in arc order; none as soon as a
    * word is not in the table. */
  function SeekForward(arcs: seq<seq<Arc>>, table: seq<string>, lhs: SynKey, pos: nat, s: int): seq<int>
    decreases |lhs| - pos, 1, 0
  {
    if pos >= |lhs| then [s]
    else
      var id := IndexOf(table, lhs[pos]);
      if id == -1 then [] else SeekArcs(arcs, table, lhs, pos, s, id, ArcsAt(arcs, s))
  }

  /** The loop of SeekForward over the arcs `as` of state s. */
  function SeekArcs(arcs: seq<seq<Arc>>, table: seq<string>, lhs: SynKey, pos: nat, s: int, id: int,
                    outs: seq<Arc>): seq<int>
    requires pos < |lhs|
    decreases |lhs| - pos, 0, |outs|
  {
    if |outs| == 0 then []
    else
      var a := outs[|outs| - 1];
      SeekArcs(arcs, table, lhs, pos, s, id, outs[..|outs| - 1])
        + (if a.nextstate != s && a.ilabel == id then SeekForward(arcs, table, lhs, pos + 1, a.nextstate) else [])
  }

  /** Every word of lhs[pos..] is in the table. */
  ghost predicate KnownFrom(table: seq<string>, lhs: SynKey, pos: nat)
  {
    forall i :: pos <= i < |lhs| ==> lhs[i] in table
  }

  /** The keys of lhs[pos..]. */
  function IdsFrom(table: seq<string>, lhs: SynKey, pos: nat): seq<int>
    requires pos <= |lhs|
  {
    seq(|lhs| - pos, i requires 0 <= i < |lhs| - pos => IndexOf(table, lhs[pos + i]))
  }

  /** There is a walk from s to t along arcs that are not self-loops whose input labels are
    * `ids`. */
  ghost predicate Reads(arcs: seq<seq<Arc>>, s: int, ids: seq<int>, t: int)
    decreases |ids|
  {
    if |ids| == 0 then s == t
    else exists j :: (0 <= j < |ArcsAt(arcs, s)| && ArcStep(arcs, s, j, ids[0]) &&
      Reads(arcs, ArcsAt(arcs, s)[j].nextstate, ids[1..], t))
  }

  /** Arc j of state s reads `id` and leaves s. */
  ghost predicate ArcStep(arcs: seq<seq<Arc>>, s: int, j: int, id: int)
    requires 0 <= j < |ArcsAt(arcs, s)|
  {
    ArcsAt(arcs, s)[j].nextstate != s && ArcsAt(arcs, s)[j].ilabel == id
  }

  /** t is found by SeekForward exactly when every word is known and t can be reached by
    * reading their keys. */
  lemma {:induction false} SeekForwardIff(arcs: seq<seq<Arc>>, table: seq<string>, lhs: SynKey,
                                          pos: nat, s: int, t: int)
    requires pos <= |lhs|
    ensures t in SeekForward(arcs, table, lhs, pos, s)
        <==> KnownFrom(table, lhs, pos) && Reads(arcs, s, IdsFrom(table, lhs, pos), t)
    decreases |lhs| - pos, 1, 0
  {
    var ids := IdsFrom(table, lhs, pos);
    if pos < |lhs| {
      var id := IndexOf(table, lhs[pos]);
      assert ids[0] == id;
      if id != -1 {
        var outs := ArcsAt(arcs, s);
        forall j | 0 <= j < |outs|
          ensures SeekFoundIff(arcs, table, lhs, pos + 1, outs[j].nextstate, t)
        {
          SeekForwardIff(arcs, table, lhs, pos + 1, outs[j].nextstate, t);
        }
        SeekForwardStep(arcs, table, lhs, pos, s, t);
      }
    } else {
      assert ids == [];
    }
  }

  /** The statement of SeekForwardIff for one start state. */
  ghost predicate SeekFoundIff(arcs: seq<seq<Arc>>, table: seq<string>, lhs: SynKey, pos: nat, s: int, t: int)
    requires pos <= |lhs|
  {
    (t in SeekForward(arcs, table, lhs, pos, s)) <==>
      (KnownFrom(table, lhs, pos) && Reads(arcs, s, IdsFrom(table, lhs, pos), t))
  }

  /** SeekForwardIff for a known word, given it for the states one arc further. */
  lemma SeekForwardStep(arcs: seq<seq<Arc>>, table: seq<string>, lhs: SynKey, pos: nat, s: int, t: int)
    requires pos < |lhs| && IndexOf(table, lhs[pos]) != -1
    requires forall j :: 0 <= j < |ArcsAt(arcs, s)| ==>
      SeekFoundIff(arcs, table, lhs, pos + 1, ArcsAt(arcs, s)[j].nextstate, t)
    ensures SeekFoundIff(arcs, table, lhs, pos, s, t)
  {
    var ids := IdsFrom(table, lhs, pos);
    var id := IndexOf(table, lhs[pos]);
    assert ids[0] == id;
    var outs := ArcsAt(arcs, s);
    SeekArcsIff(arcs, table, lhs, pos, s, id, outs, t);
    assert ids[1..] == IdsFrom(table, lhs, pos + 1);
    assert KnownFrom(table, lhs, pos) <==> KnownFrom(table, lhs, pos + 1);
    if t in SeekForward(arcs, table, lhs, pos, s) {
      var j :| 0 <= j < |outs| && SeekVia(arcs, table, lhs, pos, s, id, outs[j], t);
      assert SeekFoundIff(arcs, table, lhs, pos + 1, outs[j].nextstate, t);
      assert ArcStep(arcs, s, j, ids[0]);
    }
    if KnownFrom(table, lhs, pos) && Reads(arcs, s, ids, t) {
      var j :| 0 <= j < |outs| && ArcStep(arcs, s, j, ids[0]) && Reads(arcs, outs[j].nextstate, ids[1..], t);
      assert SeekFoundIff(arcs, table, lhs, pos + 1, outs[j].nextstate, t);
      assert SeekVia(arcs, table, lhs, pos, s, id, outs[j], t);
    }
  }

  lemma {:induction false} SeekArcsIff(arcs: seq<seq<Arc>>, table: seq<string>, lhs: SynKey, pos: nat,
                                       s: int, id: int, outs: seq<Arc>, t: int)
    requires pos < |lhs|
    ensures t in SeekArcs(arcs, table, lhs, pos, s, id, outs)
        <==> exists j :: 0 <= j < |outs| && SeekVia(arcs, table, lhs, pos, s, id, outs[j], t)
    decreases |lhs| - pos, 0, |outs|
  {
    if |outs| > 0 {
      var init := outs[..|outs| - 1];
      var last := outs[|outs| - 1];
      SeekArcsIff(arcs, table, lhs, pos, s, id, init, t);
      assert t in SeekArcs(arcs, table, lhs, pos, s, id, outs)
        <==> t in SeekArcs(arcs, table, lhs, pos, s, id, init) || SeekVia(arcs, table, lhs, pos, s, id, last, t);
      assert forall j :: 0 <= j < |init| ==> init[j] == outs[j];
    }
  }

  /** Arc `a` of state s reads `id`, leaves s, and SeekForward finds t after it. */
  ghost predicate SeekVia(arcs: seq<seq<Arc>>, table: seq<string>, lhs: SynKey, pos: nat, s: int, id: int,
                          a: Arc, t: int)
    requires pos < |lhs|
  {
    a.nextstate != s && a.ilabel == id && t in SeekForward(arcs, table, lhs, pos + 1, a.nextstate)
  }

  /** States added without arcs change nothing SeekForward finds. */
  lemma {:induction false} SeekForwardPadded(arcs: seq<seq<Arc>>, k: nat, table: seq<string>, lhs: SynKey,
                                             pos: nat, s: int)
    ensures SeekForward(arcs + Empties(k), table, lhs, pos, s) == SeekForward(arcs, table, lhs, pos, s)
    decreases |lhs| - pos, 1, 0
  {
    if pos < |lhs| {
      var id := IndexOf(table, lhs[pos]);
      if id != -1 {
        assert ArcsAt(arcs + Empties(k), s) == ArcsAt(arcs, s);
        SeekArcsPadded(arcs, k, table, lhs, pos, s, id, ArcsAt(arcs, s));
      }
    }
  }

  lemma {:induction false} SeekArcsPadded(arcs: seq<seq<Arc>>, k: nat, table: seq<string>, lhs: SynKey,
                                          pos: nat, s: int, id: int, outs: seq<Arc>)
    requires pos < |lhs|
    ensures SeekArcs(arcs + Empties(k), table, lhs, pos, s, id, outs) == SeekArcs(arcs, table, lhs, pos, s, id, outs)
    decreases |lhs| - pos, 0, |outs|
  {
    if |outs| > 0 {
      SeekArcsPadded(arcs, k, table, lhs, pos, s, id, outs[..|outs| - 1]);
      SeekForwardPadded(arcs, k, table, lhs, pos + 1, outs[|outs| - 1].nextstate);
    }
  }

  /** k states without arcs. */
  function Empties(k: nat): (r: seq<seq<Arc>>)
    ensures |r| == k && forall i :: 0 <= i < k ==> r[i] == []
  {
    seq(k, _ => [])
  }

  /** k states that are not final. */
  function Nones(k: nat): (r: seq<Option<int>>)
    ensures |r| == k && forall i :: 0 <= i < k ==> r[i] == None
  {
    seq(k, _ => None)
  }

  // ---------------------------------------------------------------------------------------
  // ApplyToFst as a computation on values

  /** The first word of each rule whose first word is in the table, by key: the rules under a
    * key in std::map order. A rule with no words has no first word and is passed over. */
  function FirstWords(keys: seq<SynKey>, table: seq<string>): map<int, seq<SynKey>>
    decreases |keys|
  {
    if |keys| == 0 then map[]
    else
      var m := FirstWords(keys[..|keys| - 1], table);
      var k := keys[|keys| - 1];
      var id := if |k| == 0 then -1 else IndexOf(table, k[0]);
      if id == -1 then m else m[id := (if id in m then m[id] else []) + [k]]
  }

  /** The rules of `keys` whose first word has key `id`, in order. */
  function StartingWith(keys: seq<SynKey>, table: seq<string>, id: int): seq<SynKey>
    decreases |keys|
  {
    if |keys| == 0 then []
    else
      var k := keys[|keys| - 1];
      StartingWith(keys[..|keys| - 1], table, id)
        + (if |k| > 0 && IndexOf(table, k[0]) == id then [k] else [])
  }

  /** The lookup table lists, under each key of a known word, exactly the rules starting with
    * that word, in order; no other key is listed. */
  lemma {:induction false} FirstWordsSpec(keys: seq<SynKey>, table: seq<string>, id: int)
    ensures id in FirstWords(keys, table) ==> id != -1 && FirstWords(keys, table)[id] == StartingWith(keys, table, id)
    ensures id != -1 && id !in FirstWords(keys, table) ==> StartingWith(keys, table, id) == []
    decreases |keys|
  {
    if |keys| > 0 {
      FirstWordsSpec(keys[..|keys| - 1], table, id);
    }
  }

  /** A rule starts with `id` only when its first word is in the table with that key. */
  lemma {:induction false} StartingWithKnown(keys: seq<SynKey>, table: seq<string>, id: int, k: SynKey)
    requires k in StartingWith(keys, table, id)
    ensures k in keys && |k| > 0 && IndexOf(table, k[0]) == id
    decreases |keys|
  {
    if |keys| > 0 && k in StartingWith(keys[..|keys| - 1], table, id) {
      StartingWithKnown(keys[..|keys| - 1], table, id, k);
    }
  }

  /** What the rewrite has produced so far: the symbol table, the number of states, the next
    * path number and the arcs to add once the scan is over (source state, arc). */
  datatype Build = Build(table: seq<string>, numStates: nat, nextId: nat, toAdd: seq<(int, Arc)>)

  /** Every pending arc leaves an existing state. */
  ghost predicate SourcesOk(b: Build)
  {
    forall e :: e in b.toAdd ==> 0 <= e.0 < b.numStates
  }

  /** One word of an alternative: its key (added when missing), a new state, and an arc from
    * the current state to it; the new state is the current one afterwards. */
  function AddWord(b: Build, cur: int, w: string): (r: (Build, int))
    ensures SourcesOk(b) && 0 <= cur < b.numStates ==> SourcesOk(r.0)
    ensures r.0.numStates == b.numStates + 1 && r.1 == b.numStates && r.0.nextId == b.nextId
    ensures |r.0.toAdd| == |b.toAdd| + 1 && r.0.toAdd[..|b.toAdd|] == b.toAdd
  {
    var table := Step(b.table, w);
    var wid := IndexOf(table, w);
    (Build(table, b.numStates + 1, b.nextId, b.toAdd + [(cur, Arc(wid, wid, 0, b.numStates))]), b.numStates)
  }

  function AddWords(b: Build, cur: int, ws: seq<string>): (r: (Build, int))
    ensures SourcesOk(b) && 0 <= cur < b.numStates ==> SourcesOk(r.0) && 0 <= r.1 < r.0.numStates
    ensures r.0.numStates == b.numStates + |ws| && r.0.nextId == b.nextId
    ensures r.1 == if |ws| == 0 then cur else b.numStates + |ws| - 1
    ensures |r.0.toAdd| == |b.toAdd| + |ws| && r.0.toAdd[..|b.toAdd|] == b.toAdd
    decreases |ws|
  {
    if |ws| == 0 then (b, cur)
    else
      var p := AddWords(b, cur, ws[..|ws| - 1]);
      AddWord(p.0, p.1, ws[|ws| - 1])
  }

  /** The arcs carrying a path's label from its last state to every end state of the rule's
    * left side. */
  function CloseArcs(cur: int, lw: int, targets: seq<int>): seq<(int, Arc)>
  {
    seq(|targets|, k requires 0 <= k < |targets| => (cur, Arc(lw, lw, 0, targets[k])))
  }

  /** The start of a path labelled `text` from state s: the label gets a key when it has none,
    * and the arc with it leads from s to a new state. Also gives the label's key. */
  function EnterPath(b: Build, s: int, text: string): (r: (Build, int))
    ensures SourcesOk(b) && 0 <= s < b.numStates ==> SourcesOk(r.0)
    ensures r.0.numStates == b.numStates + 1 && r.0.nextId == b.nextId + 1
    ensures |r.0.toAdd| == |b.toAdd| + 1
  {
    var table := Step(b.table, text);
    var lw := IndexOf(table, text);
    (Build(table, b.numStates + 1, b.nextId + 1, b.toAdd + [(s, Arc(lw, lw, 0, b.numStates))]), lw)
  }

  /** The end of a path: the arcs with the label from its last state to every end state. */
  function ClosePath(walked: (Build, int), lw: int, targets: seq<int>): (r: Build)
    ensures SourcesOk(walked.0) && 0 <= walked.1 < walked.0.numStates ==> SourcesOk(r)
    ensures r.numStates == walked.0.numStates && r.nextId == walked.0.nextId
  {
    walked.0.(toAdd := walked.0.toAdd + CloseArcs(walked.1, lw, targets))
  }

  /** The path of one alternative from state s, labelled `text`: an arc with the label to a
    * new state, one arc per word through new states, and arcs with the label again from the
    * last of them to every end state. */
  function LabelledPath(b: Build, s: int, text: string, alt: seq<string>, targets: seq<int>): (r: Build)
    ensures SourcesOk(b) && 0 <= s < b.numStates ==> SourcesOk(r)
    ensures r.numStates == b.numStates + |alt| + 1 && r.nextId == b.nextId + 1
  {
    var entered := EnterPath(b, s, text);
    ClosePath(AddWords(entered.0, b.numStates, alt), entered.1, targets)
  }

  /** The path of one alternative of a rule whose left side has lhsLen words; its label
    * carries the path number and both lengths. */
  function AltPath(b: Build, s: int, lhsLen: nat, alt: seq<string>, targets: seq<int>): Build
  {
    LabelledPath(b, s, SynLabel(b.nextId, lhsLen, |alt|), alt, targets)
  }

  function AltPaths(b: Build, s: int, lhsLen: nat, alts: SynVals, targets: seq<int>): (r: Build)
    ensures SourcesOk(b) && 0 <= s < b.numStates ==> SourcesOk(r)
    ensures r.numStates >= b.numStates && r.nextId == b.nextId + |alts|
    decreases |alts|
  {
    if |alts| == 0 then b
    else AltPath(AltPaths(b, s, lhsLen, alts[..|alts| - 1], targets), s, lhsLen, alts[|alts| - 1], targets)
  }

  /** One rule at state s: nothing when its left side cannot be read from s; otherwise one
    * path per alternative (a key std::map does not hold has no alternatives). */
  function RuleAt(b: Build, arcs: seq<seq<Arc>>, rules: Rules, s: int, lhs: SynKey): (r: Build)
    ensures SourcesOk(b) && 0 <= s < b.numStates ==> SourcesOk(r)
    ensures r.numStates >= b.numStates && r.nextId >= b.nextId
  {
    var targets := SeekForward(arcs, b.table, lhs, 0, s);
    if |targets| == 0 then b
    else AltPaths(b, s, |lhs|, if lhs in rules then rules[lhs] else [], targets)
  }

  function RulesAt(b: Build, arcs: seq<seq<Arc>>, rules: Rules, s: int, cands: seq<SynKey>): (r: Build)
    ensures SourcesOk(b) && 0 <= s < b.numStates ==> SourcesOk(r)
    ensures r.numStates >= b.numStates && r.nextId >= b.nextId
    decreases |cands|
  {
    if |cands| == 0 then b
    else RuleAt(RulesAt(b, arcs, rules, s, cands[..|cands| - 1]), arcs, rules, s, cands[|cands| - 1])
  }

  /** One arc of state s: the rules starting with its input label, unless it is a self-loop. */
  function ArcAt(b: Build, arcs: seq<seq<Arc>>, rules: Rules, fw: map<int, seq<SynKey>>, s: int, a: Arc): (r: Build)
    ensures SourcesOk(b) && 0 <= s < b.numStates ==> SourcesOk(r)
    ensures r.numStates >= b.numStates && r.nextId >= b.nextId
  {
    if a.nextstate == s || a.ilabel !in fw then b else RulesAt(b, arcs, rules, s, fw[a.ilabel])
  }

  function ArcsFrom(b: Build, arcs: seq<seq<Arc>>, rules: Rules, fw: map<int, seq<SynKey>>, s: int,
                    outs: seq<Arc>): (r: Build)
    ensures SourcesOk(b) && 0 <= s < b.numStates ==> SourcesOk(r)
    ensures r.numStates >= b.numStates && r.nextId >= b.nextId
    decreases |outs|
  {
    if |outs| == 0 then b
    else ArcAt(ArcsFrom(b, arcs, rules, fw, s, outs[..|outs| - 1]), arcs, rules, fw, s, outs[|outs| - 1])
  }

  /** The scan of states 0 .. n-1. */
  function StatesFrom(b: Build, arcs: seq<seq<Arc>>, rules: Rules, fw: map<int, seq<SynKey>>, n: nat): (r: Build)
    requires n <= |arcs| <= b.numStates
    ensures SourcesOk(b) ==> SourcesOk(r)
    ensures r.numStates >= b.numStates && r.nextId >= b.nextId
    decreases n
  {
    if n == 0 then b
    else ArcsFrom(StatesFrom(b, arcs, rules, fw, n - 1), arcs, rules, fw, n - 1, arcs[n - 1])
  }

  /** The first path number. */
  const FIRST_SYNONYM_ID: nat := 100000

  /** Everything ApplyToFst adds to a graph with out-arcs `arcs`, given the rules, their keys
    * in order and the symbol table. */
  function Rewrite(arcs: seq<seq<Arc>>, rules: Rules, keys: seq<SynKey>, table: seq<string>): (r: Build)
    ensures SourcesOk(r) && r.numStates >= |arcs| && r.nextId >= FIRST_SYNONYM_ID
  {
    StatesFrom(Build(table, |arcs|, FIRST_SYNONYM_ID, []), arcs, rules, FirstWords(keys, table), |arcs|)
  }

  /** The graph's arcs after appending every pending arc, in order. */
  function AddArcs(arcs: seq<seq<Arc>>, toAdd: seq<(int, Arc)>): (r: seq<seq<Arc>>)
    requires forall e :: e in toAdd ==> 0 <= e.0 < |arcs|
    ensures |r| == |arcs|
    decreases |toAdd|
  {
    if |toAdd| == 0 then arcs
    else
      var e := toAdd[|toAdd| - 1];
      var r := AddArcs(arcs, toAdd[..|toAdd| - 1]);
      r[e.0 := r[e.0] + [e.1]]
  }

  /** Appending arcs keeps every arc a state already had, in place. */
  lemma {:induction false} AddArcsKeeps(arcs: seq<seq<Arc>>, toAdd: seq<(int, Arc)>, s: int)
    requires forall e :: e in toAdd ==> 0 <= e.0 < |arcs|
    requires 0 <= s < |arcs|
    ensures arcs[s] <= AddArcs(arcs, toAdd)[s]
    decreases |toAdd|
  {
    if |toAdd| > 0 {
      AddArcsKeeps(arcs, toAdd[..|toAdd| - 1], s);
    }
  }

  /** The arcs added to a state are the pending arcs leaving it, in order. */
  function Leaving(toAdd: seq<(int, Arc)>, s: int): seq<Arc>
    decreases |toAdd|
  {
    if |toAdd| == 0 then []
    else Leaving(toAdd[..|toAdd| - 1], s) + (if toAdd[|toAdd| - 1].0 == s then [toAdd[|toAdd| - 1].1] else [])
  }

  lemma {:induction false} AddArcsExact(arcs: seq<seq<Arc>>, toAdd: seq<(int, Arc)>, s: int)
    requires forall e :: e in toAdd ==> 0 <= e.0 < |arcs|
    requires 0 <= s < |arcs|
    ensures AddArcs(arcs, toAdd)[s] == arcs[s] + Leaving(toAdd, s)
    decreases |toAdd|
  {
    if |toAdd| > 0 {
      AddArcsExact(arcs, toAdd[..|toAdd| - 1], s);
    }
  }

  /** The arc for word j of an alternative whose words start at state n, from `cur`. */
  function WordArc(j: nat, cur: int, n: int, table: seq<string>, ws: seq<string>): (int, Arc)
    requires j < |ws|
  {
    (if j == 0 then cur else n + j - 1, Arc(IndexOf(table, ws[j]), IndexOf(table, ws[j]), 0, n + j))
  }

  /** toAdd holds after position m exactly the word arcs of `ws`. */
  ghost predicate WordArcs(toAdd: seq<(int, Arc)>, m: nat, cur: int, n: int, table: seq<string>, ws: seq<string>)
  {
    |toAdd| == m + |ws| && forall j :: 0 <= j < |ws| ==> toAdd[m + j] == WordArc(j, cur, n, table, ws)
  }

  /** The table after an alternative's words gains exactly the missing words. */
  lemma {:induction false} AddWordsTable(b: Build, cur: int, ws: seq<string>)
    ensures AddWords(b, cur, ws).0.table == WithAll(b.table, ws)
    decreases |ws|
  {
    if |ws| > 0 {
      var init := ws[..|ws| - 1];
      AddWordsTable(b, cur, init);
      var p := AddWords(b, cur, init);
      AddWordTable(p.0, p.1, ws[|ws| - 1]);
      WithAllLast(b.table, ws);
    }
  }

  /** One word adds itself to the table when missing. */
  lemma AddWordTable(b: Build, cur: int, w: string)
    ensures AddWord(b, cur, w).0.table == Step(b.table, w)
  {
  }

  /** The arc one word adds. */
  lemma AddWordArc(b: Build, cur: int, w: string)
    ensures var r := AddWord(b, cur, w);
      r.0.toAdd[|b.toAdd|] == (cur, Arc(IndexOf(r.0.table, w), IndexOf(r.0.table, w), 0, b.numStates))
  {
  }

  /** The last word's arc. */
  lemma AddWordsLast(b: Build, cur: int, ws: seq<string>)
    requires |ws| > 0
    ensures AddWords(b, cur, ws).0.toAdd[|b.toAdd| + |ws| - 1]
      == WordArc(|ws| - 1, cur, b.numStates, AddWords(b, cur, ws).0.table, ws)
  {
    var w := ws[|ws| - 1];
    var p := AddWords(b, cur, ws[..|ws| - 1]);
    var r := AddWord(p.0, p.1, w);
    assert AddWords(b, cur, ws) == r;
    LastWordArc(b, cur, ws, p, r);
  }

  /** AddWordsLast once the words before the last are added, giving `p`. */
  lemma LastWordArc(b: Build, cur: int, ws: seq<string>, p: (Build, int), r: (Build, int))
    requires |ws| > 0
    requires p.0.numStates == b.numStates + |ws| - 1 && |p.0.toAdd| == |b.toAdd| + |ws| - 1
    requires p.1 == if |ws| == 1 then cur else b.numStates + |ws| - 2
    requires r == AddWord(p.0, p.1, ws[|ws| - 1])
    ensures r.0.toAdd[|b.toAdd| + |ws| - 1] == WordArc(|ws| - 1, cur, b.numStates, r.0.table, ws)
  {
    var w := ws[|ws| - 1];
    AddWordArc(p.0, p.1, w);
    assert r.0.toAdd[|b.toAdd| + |ws| - 1] == (p.1, Arc(IndexOf(r.0.table, w), IndexOf(r.0.table, w), 0, p.0.numStates));
  }

  /** A word arc does not change when the table grows or more words follow. */
  lemma WordArcExtend(j: nat, cur: int, n: int, t: seq<string>, u: seq<string>, init: seq<string>, ws: seq<string>)
    requires j < |init| <= |ws| && init == ws[..|init|]
    requires t <= u && init[j] in t
    ensures WordArc(j, cur, n, t, init) == WordArc(j, cur, n, u, ws)
  {
    assert ws[j] == init[j];
    IndexOfPrefix(t, u, init[j]);
  }

  /** Word arcs for a list extend to word arcs for the list with one more word, when the
    * table only grew and already held the earlier words. */
  lemma WordArcsSnoc(toAdd: seq<(int, Arc)>, more: seq<(int, Arc)>, m: nat, cur: int, n: int,
                     t: seq<string>, u: seq<string>, ws: seq<string>)
    requires |ws| > 0 && t <= u && forall j :: 0 <= j < |ws| - 1 ==> ws[j] in t
    requires WordArcs(toAdd, m, cur, n, t, ws[..|ws| - 1])
    requires |more| == |toAdd| + 1 && more[..|toAdd|] == toAdd
    requires more[|toAdd|] == WordArc(|ws| - 1, cur, n, u, ws)
    ensures WordArcs(more, m, cur, n, u, ws)
  {
    var init := ws[..|ws| - 1];
    forall j | 0 <= j < |ws|
      ensures more[m + j] == WordArc(j, cur, n, u, ws)
    {
      if j < |init| {
        assert more[m + j] == toAdd[m + j];
        WordArcExtend(j, cur, n, t, u, init, ws);
      }
    }
  }

  /** The word arcs of an alternative: the table gains the missing words, and arc j leaves the
    * state before word j for a new state with the key of word j on both sides. */
  lemma {:induction false} AddWordsShape(b: Build, cur: int, ws: seq<string>)
    ensures var r := AddWords(b, cur, ws);
      r.0.table == WithAll(b.table, ws)
      && WordArcs(r.0.toAdd, |b.toAdd|, cur, b.numStates, r.0.table, ws)
    decreases |ws|
  {
    AddWordsTable(b, cur, ws);
    if |ws| > 0 {
      var init := ws[..|ws| - 1];
      var p := AddWords(b, cur, init);
      AddWordsShape(b, cur, init);
      var r := AddWords(b, cur, ws);
      AddWordsLast(b, cur, ws);
      AddWordTable(p.0, p.1, ws[|ws| - 1]);
      WithAllSpec(b.table, init);
      forall j | 0 <= j < |ws| - 1
        ensures ws[j] in p.0.table
      {
        assert ws[j] == init[j];
      }
      WordArcsSnoc(p.0.toAdd, r.0.toAdd, |b.toAdd|, cur, b.numStates, p.0.table, r.0.table, ws);
    }
  }

  /** The table after a path gains its label and then the alternative's missing words; the
    * label keeps the key it got first. */
  lemma LabelledPathTable(b: Build, s: int, text: string, alt: seq<string>, targets: seq<int>)
    ensures var r := LabelledPath(b, s, text, alt, targets);
      var lw := IndexOf(Step(b.table, text), text);
      && r.table == WithAll(Step(b.table, text), alt)
      && b.table <= r.table && IndexOf(r.table, text) == lw && 0 <= lw < |r.table| && r.table[lw] == text
  {
    var e := EnterPath(b, s, text);
    var table := Step(b.table, text);
    assert e.0.table == table;
    var w := AddWords(e.0, b.numStates, alt);
    assert LabelledPath(b, s, text, alt, targets).table == w.0.table;
    AddWordsTable(e.0, b.numStates, alt);
    WithAllSpec(table, alt);
    IndexOfPrefix(table, w.0.table, text);
  }

  /** The arcs of a path: the label arc from s to the first new state, the word arcs through
    * new states, and from the last of them one arc with the label again to each end state.
    * The arcs pending before are kept in front. */
  lemma LabelledPathArcs(b: Build, s: int, text: string, alt: seq<string>, targets: seq<int>)
    ensures var r := LabelledPath(b, s, text, alt, targets);
      var lw := IndexOf(Step(b.table, text), text);
      var m := |b.toAdd|;
      var last := if |alt| == 0 then b.numStates else b.numStates + |alt|;
      && |r.toAdd| == m + 1 + |alt| + |targets|
      && r.toAdd[..m] == b.toAdd
      && r.toAdd[m] == (s, Arc(lw, lw, 0, b.numStates))
      && WordArcs(r.toAdd[..m + 1 + |alt|], m + 1, b.numStates, b.numStates + 1, r.table, alt)
      && r.toAdd[m + 1 + |alt|..] == CloseArcs(last, lw, targets)
  {
    var e := EnterPath(b, s, text);
    var lw := IndexOf(Step(b.table, text), text);
    var m := |b.toAdd|;
    assert e.1 == lw && e.0.toAdd == b.toAdd + [(s, Arc(lw, lw, 0, b.numStates))];
    var w := AddWords(e.0, b.numStates, alt);
    AddWordsShape(e.0, b.numStates, alt);
    var r := LabelledPath(b, s, text, alt, targets);
    assert r == ClosePath(w, lw, targets);
    PathArcsSplit(b.toAdd, e.0.toAdd, w.0.toAdd, r.toAdd, (s, Arc(lw, lw, 0, b.numStates)),
                  CloseArcs(w.1, lw, targets), |alt|);
    assert r.table == w.0.table;
    assert WordArcs(w.0.toAdd, |e.0.toAdd|, b.numStates, e.0.numStates, w.0.table, alt);
    assert |e.0.toAdd| == m + 1 && e.0.numStates == b.numStates + 1;
    assert w.1 == if |alt| == 0 then b.numStates else b.numStates + |alt|;
  }

  /** Sequence bookkeeping for LabelledPathArcs. */
  lemma PathArcsSplit<T>(before: seq<T>, entered: seq<T>, walked: seq<T>, all: seq<T>, first: T,
                         close: seq<T>, n: nat)
    requires entered == before + [first]
    requires |walked| == |entered| + n && walked[..|entered|] == entered
    requires all == walked + close
    ensures |all| == |before| + 1 + n + |close|
    ensures all[..|before|] == before && all[|before|] == first
    ensures all[..|before| + 1 + n] == walked && all[|before| + 1 + n..] == close
  {
    assert all[..|before|] == walked[..|entered|][..|before|];
    assert all[|before|] == walked[..|entered|][|before|];
  }


  // ---------------------------------------------------------------------------------------
  // The engine: the rules in a std::map, updated in place, and the rewrite of a graph and a
  // symbol table in place

  /** SymbolTable::Find, then SymbolTable::AddSymbol when the symbol is missing. */
  method FindOrAdd(table: SymbolTable, w: string) returns (k: int)
    requires table.Valid()
    modifies table
    ensures table.Valid() && table.symbols == Step(old(table.symbols), w)
    ensures k == IndexOf(table.symbols, w)
  {
    k := table.Find(w);
    if k == -1 {
      k := table.AddSymbol(w);
    }
  }

  /** SeekForward on the graph and the table as they are: the method the function above
    * specifies, reading the arcs of state s in order and recursing on each that reads the
    * next word. A state the graph does not have has no arcs. */
  method SeekForwardIn(f: VectorFst, table: SymbolTable, lhs: SynKey, pos: nat, s: int) returns (ends: seq<int>)
    ensures ends == SeekForward(f.arcs, table.symbols, lhs, pos, s)
    decreases |lhs| - pos
  {
    if pos >= |lhs| {
      return [s];
    }
    var id := table.Find(lhs[pos]);
    if id == -1 {
      return [];
    }
    var outs := if 0 <= s < |f.arcs| then f.arcs[s] else [];
    ends := [];
    for j := 0 to |outs|
      invariant ends == SeekArcs(f.arcs, table.symbols, lhs, pos, s, id, outs[..j])
    {
      var a := outs[j];
      if a.nextstate != s && a.ilabel == id {
        var more := SeekForwardIn(f, table, lhs, pos + 1, a.nextstate);
        ends := ends + more;
      }
      assert outs[..j + 1][..j] == outs[..j];
    }
    assert outs[..|outs|] == outs;
  }

  /** A graph's out-arcs followed by k new states without arcs. */
  function PadArcs(arcs: seq<seq<Arc>>, k: nat): (r: seq<seq<Arc>>)
    ensures |r| == |arcs| + k
  {
    if k == 0 then arcs else PadArcs(arcs, k - 1) + [[]]
  }

  /** A graph's final weights followed by k states that are not final. */
  function PadFinals(finals: seq<Option<int>>, k: nat): (r: seq<Option<int>>)
    ensures |r| == |finals| + k
  {
    if k == 0 then finals else PadFinals(finals, k - 1) + [None]
  }

  lemma {:induction false} PadIsEmpties(arcs: seq<seq<Arc>>, finals: seq<Option<int>>, k: nat)
    ensures PadArcs(arcs, k) == arcs + Empties(k) && PadFinals(finals, k) == finals + Nones(k)
  {
    if k > 0 {
      PadIsEmpties(arcs, finals, k - 1);
      assert Empties(k - 1) + [[]] == Empties(k);
      assert Nones(k - 1) + [None] == Nones(k);
    }
  }

  /** What ApplyToFst's graph and symbol table hold. */
  datatype Scene = Scene(arcs: seq<seq<Arc>>, finals: seq<Option<int>>, start: int, symbols: seq<string>)

  function SceneOf(f: VectorFst, table: SymbolTable): Scene
    reads f, table
  {
    Scene(f.arcs, f.finals, f.start, table.symbols)
  }

  /** The scene while ApplyToFst scans: the original graph `g` followed by the states added so
    * far (no arcs, not final), and the table the rewrite has built. */
  function Expected(g: Graph, b: Build): Option<Scene>
  {
    if |g.arcs| == |g.finals| && |g.arcs| <= b.numStates then
      Some(Scene(PadArcs(g.arcs, b.numStates - |g.arcs|), PadFinals(g.finals, b.numStates - |g.arcs|), g.start, b.table))
    else None
  }

  ghost predicate Mirrors(f: VectorFst, table: SymbolTable, g: Graph, b: Build)
    reads f, table
  {
    Some(SceneOf(f, table)) == Expected(g, b) && table.Valid()
  }

  /** The same, with the next path number and the pending arcs held in locals. */
  ghost predicate Tracks(f: VectorFst, table: SymbolTable, g: Graph, b: Build, nextId: nat, toAdd: seq<(int, Arc)>)
    reads f, table
  {
    Mirrors(f, table, g, b) && (nextId, toAdd) == (b.nextId, b.toAdd)
  }

  /** Mirroring depends only on the table and the number of states. */
  lemma MirrorsAgain(f: VectorFst, table: SymbolTable, g: Graph, b: Build, b': Build)
    requires Mirrors(f, table, g, b) && b'.numStates == b.numStates && b'.table == b.table
    ensures Mirrors(f, table, g, b')
  {
  }

  /** fst.AddState during the scan. */
  method NewState(f: VectorFst, table: SymbolTable, ghost g: Graph, ghost b: Build) returns (st: int)
    requires Mirrors(f, table, g, b)
    modifies f
    ensures Mirrors(f, table, g, b.(numStates := b.numStates + 1)) && st == b.numStates
  {
    st := f.AddState();
  }

  /** One word of an alternative, in place. */
  method AddWordIn(f: VectorFst, table: SymbolTable, ghost g: Graph, ghost b: Build, cur: int, w: string,
                   toAdd: seq<(int, Arc)>) returns (st: int, toAdd': seq<(int, Arc)>)
    requires Mirrors(f, table, g, b) && toAdd == b.toAdd
    modifies f, table
    ensures Mirrors(f, table, g, AddWord(b, cur, w).0) && st == AddWord(b, cur, w).1
    ensures toAdd' == AddWord(b, cur, w).0.toAdd
  {
    var wid := FindOrAdd(table, w);
    st := NewState(f, table, g, b.(table := table.symbols));
    toAdd' := toAdd + [(cur, Arc(wid, wid, 0, st))];
  }

  /** The start of a path, in place: its label gets a key (SymbolTable::AddSymbol keeps the
    * key of a label it already has), then a new state and the arc with the label into it. */
  method EnterPathIn(f: VectorFst, table: SymbolTable, ghost g: Graph, ghost b: Build, s: int, text: string,
                     nextId: nat, toAdd: seq<(int, Arc)>) returns (lw: int, cur: int, nextId': nat, toAdd': seq<(int, Arc)>)
    requires Tracks(f, table, g, b, nextId, toAdd)
    modifies f, table
    ensures Tracks(f, table, g, EnterPath(b, s, text).0, nextId', toAdd')
    ensures lw == EnterPath(b, s, text).1 && cur == b.numStates
  {
    nextId' := nextId + 1;
    lw := table.AddSymbol(text);
    cur := NewState(f, table, g, b.(table := table.symbols));
    toAdd' := toAdd + [(s, Arc(lw, lw, 0, cur))];
  }

  /** The words of an alternative, in place, in order. */
  method AddWordsIn(f: VectorFst, table: SymbolTable, ghost g: Graph, ghost b: Build, cur: int, ws: seq<string>,
                    toAdd: seq<(int, Arc)>) returns (cur': int, toAdd': seq<(int, Arc)>)
    requires Mirrors(f, table, g, b) && toAdd == b.toAdd
    modifies f, table
    ensures Mirrors(f, table, g, AddWords(b, cur, ws).0)
    ensures cur' == AddWords(b, cur, ws).1 && toAdd' == AddWords(b, cur, ws).0.toAdd
  {
    cur', toAdd' := cur, toAdd;
    assert ws[..0] == [];
    for j := 0 to |ws|
      invariant Mirrors(f, table, g, AddWords(b, cur, ws[..j]).0)
      invariant cur' == AddWords(b, cur, ws[..j]).1 && toAdd' == AddWords(b, cur, ws[..j]).0.toAdd
    {
      cur', toAdd' := AddNextWordIn(f, table, g, b, cur, ws, j, cur', toAdd');
    }
    assert ws[..|ws|] == ws;
  }

  /** Word j of an alternative, after the words before it. */
  method AddNextWordIn(f: VectorFst, table: SymbolTable, ghost g: Graph, ghost b: Build, cur: int, ws: seq<string>,
                       j: nat, cur': int, toAdd: seq<(int, Arc)>) returns (cur'': int, toAdd': seq<(int, Arc)>)
    requires j < |ws|
    requires Mirrors(f, table, g, AddWords(b, cur, ws[..j]).0)
    requires cur' == AddWords(b, cur, ws[..j]).1 && toAdd == AddWords(b, cur, ws[..j]).0.toAdd
    modifies f, table
    ensures Mirrors(f, table, g, AddWords(b, cur, ws[..j + 1]).0)
    ensures cur'' == AddWords(b, cur, ws[..j + 1]).1 && toAdd' == AddWords(b, cur, ws[..j + 1]).0.toAdd
  {
    ghost var p := AddWords(b, cur, ws[..j]);
    cur'', toAdd' := AddWordIn(f, table, g, p.0, cur', ws[j], toAdd);
    assert ws[..j + 1][..j] == ws[..j];
    assert AddWords(b, cur, ws[..j + 1]) == AddWord(p.0, p.1, ws[j]);
  }

  /** The arcs with the label from the last state of a path to every end state, in order. */
  method CloseIn(cur: int, lw: int, targets: seq<int>, toAdd: seq<(int, Arc)>) returns (toAdd': seq<(int, Arc)>)
    ensures toAdd' == toAdd + CloseArcs(cur, lw, targets)
  {
    toAdd' := toAdd;
    for k := 0 to |targets|
      invariant toAdd' == toAdd + CloseArcs(cur, lw, targets[..k])
    {
      assert CloseArcs(cur, lw, targets[..k + 1]) == CloseArcs(cur, lw, targets[..k]) + [(cur, Arc(lw, lw, 0, targets[k]))];
      toAdd' := toAdd' + [(cur, Arc(lw, lw, 0, targets[k]))];
    }
    assert targets[..|targets|] == targets;
  }

  /** The path of one alternative, in place: its label (the next path number, then both
    * lengths), the arc into the path, one arc per word, and the arcs from its last state to
    * every end state. */
  method AddPathIn(f: VectorFst, table: SymbolTable, ghost g: Graph, ghost b: Build, s: int, lhsLen: nat,
                   alt: seq<string>, targets: seq<int>, nextId: nat, toAdd: seq<(int, Arc)>)
    returns (nextId': nat, toAdd': seq<(int, Arc)>)
    requires Tracks(f, table, g, b, nextId, toAdd)
    modifies f, table
    ensures Tracks(f, table, g, AltPath(b, s, lhsLen, alt, targets), nextId', toAdd')
  {
    var text := SynLabel(nextId, lhsLen, |alt|);
    var lw, cur;
    lw, cur, nextId', toAdd' := EnterPathIn(f, table, g, b, s, text, nextId, toAdd);
    ghost var entered := EnterPath(b, s, text);
    cur, toAdd' := AddWordsIn(f, table, g, entered.0, cur, alt, toAdd');
    ghost var walked := AddWords(entered.0, b.numStates, alt);
    toAdd' := CloseIn(cur, lw, targets, toAdd');
    ghost var r := ClosePath(walked, entered.1, targets);
    assert AltPath(b, s, lhsLen, alt, targets) == r;
    MirrorsAgain(f, table, g, walked.0, r);
  }

  /** SynonymEngine: the rules by key, and the two switches of its options. */
  class SynonymEngine {
    var synonyms: Rules
    /** The keys of `synonyms` in std::map order. */
    var keys: seq<SynKey>
    const disableCutoffs: bool
    const disableHyphenIgnore: bool

    ghost predicate Valid()
      reads this
    {
      RuleKeys(keys, synonyms)
    }

    constructor (disableCutoffs: bool, disableHyphenIgnore: bool)
      ensures Valid() && synonyms == map[]
      ensures this.disableCutoffs == disableCutoffs && this.disableHyphenIgnore == disableHyphenIgnore
    {
      synonyms, keys := map[], [];
      this.disableCutoffs, this.disableHyphenIgnore := disableCutoffs, disableHyphenIgnore;
    }

    /** synonyms[key] = values for a key with no rule: the key takes its place in map order. */
    method Put(key: SynKey, vals: SynVals)
      requires Valid() && key !in synonyms
      modifies this
      ensures Valid() && synonyms == old(synonyms)[key := vals]
    {
      InsertKeySorted(keys, key);
      synonyms, keys := synonyms[key := vals], InsertKey(keys, key);
    }

    /** ParseStrings: the lines in order, each adding its rule unless its key has one. */
    method ParseStrings(lines: seq<string>)
      requires Valid()
      modifies this
      ensures Valid() && synonyms == ParseAll(old(synonyms), lines)
    {
      for i := 0 to |lines|
        invariant Valid() && synonyms == ParseAll(old(synonyms), lines[..i])
      {
        ParseLineIn(lines[i]);
        assert lines[..i + 1][..i] == lines[..i];
      }
      assert lines[..|lines|] == lines;
    }

    /** One line of ParseStrings. */
    method ParseLineIn(line: string)
      requires Valid()
      modifies this
      ensures Valid() && synonyms == ParseLine(old(synonyms), line)
    {
      var l := Trim(line);
      if |l| == 0 || l[0] == '#' {
        return;
      }
      var parts := Split(l, '|');
      if |parts| != 2 {
        return;
      }
      var key := GetKeyFromString(Trim(parts[0]));
      if key !in synonyms {
        Put(key, GetValuesFromStrings(parts[1]));
      }
    }

    /** GenerateSynFromSymbolTable: the symbols the table holds when it starts, in key order;
      * the words it adds on the way are not visited. */
    method GenerateSynFromSymbolTable(table: SymbolTable)
      requires Valid() && table.Valid()
      modifies this, table
      ensures Valid() && table.Valid()
      ensures (synonyms, table.symbols)
           == GenerateAll(old(synonyms), old(table.symbols), old(table.symbols), disableCutoffs, disableHyphenIgnore)
    {
      var syms := table.symbols;
      ghost var rules := synonyms;
      assert syms[..0] == [];
      for i := 0 to |syms|
        invariant Valid() && table.Valid()
        invariant (synonyms, table.symbols) == GenerateAll(rules, syms, syms[..i], disableCutoffs, disableHyphenIgnore)
      {
        GenerateNext(table, rules, syms, i);
      }
      assert syms[..|syms|] == syms;
    }

    /** Symbol i of the list, after the ones before it. */
    method GenerateNext(table: SymbolTable, ghost rules: Rules, syms: seq<string>, i: nat)
      requires i < |syms| && Valid() && table.Valid()
      requires (synonyms, table.symbols) == GenerateAll(rules, syms, syms[..i], disableCutoffs, disableHyphenIgnore)
      modifies this, table
      ensures Valid() && table.Valid()
      ensures (synonyms, table.symbols) == GenerateAll(rules, syms, syms[..i + 1], disableCutoffs, disableHyphenIgnore)
    {
      GenerateFrom(table, syms[i]);
      assert syms[..i + 1][..i] == syms[..i];
    }

    /** One symbol of GenerateSynFromSymbolTable. */
    method GenerateFrom(table: SymbolTable, sym: string)
      requires Valid() && table.Valid()
      modifies this, table
      ensures Valid() && table.Valid()
      ensures (synonyms, table.symbols) == GenerateFor(old(synonyms), old(table.symbols), sym, disableCutoffs, disableHyphenIgnore)
    {
      var hyphen := FindChar(sym, '-', 0);
      // the int position against the size_t length - 1: an empty symbol wraps to npos too
      var atEnd := if hyphen.None? then |sym| == 0 else hyphen.value == |sym| - 1;
      if !disableCutoffs && atEnd {
        var newWord := if |sym| == 0 then "" else sym[..|sym| - 1];
        var _ := FindOrAdd(table, newWord);
        var key := GetKeyFromString(sym);
        if key !in synonyms {
          Put(key, GetValuesFromStrings(newWord));
        }
      } else if !disableHyphenIgnore && hyphen.Some? && hyphen.value != |sym| - 1 {
        var newWords := Split(Trim(sym), '-');
        var hyphenated := GetKeyFromString(sym);
        for j := 0 to |newWords|
          invariant table.Valid() && table.symbols == WithAll(old(table.symbols), newWords[..j])
          invariant synonyms == old(synonyms) && keys == old(keys)
        {
          var _ := FindOrAdd(table, newWords[j]);
          WithAllPrefix(old(table.symbols), newWords, j, newWords[j]);
        }
        assert newWords[..|newWords|] == newWords;
        if hyphenated !in synonyms {
          Put(hyphenated, [newWords]);
        }
        if newWords !in synonyms {
          Put(newWords, [hyphenated]);
        }
      }
    }

    /** The first-word lookup of ApplyToFst, over the rules in map order. */
    method FirstWordsIn(table: SymbolTable) returns (fw: map<int, seq<SynKey>>)
      ensures fw == FirstWords(keys, table.symbols)
    {
      fw := map[];
      for i := 0 to |keys|
        invariant fw == FirstWords(keys[..i], table.symbols)
      {
        var k := keys[i];
        var id := if |k| == 0 then -1 else table.Find(k[0]);
        if id != -1 {
          if id !in fw {
            fw := fw[id := []];
          }
          fw := fw[id := fw[id] + [k]];
        }
        assert keys[..i + 1][..i] == keys[..i];
      }
      assert keys[..|keys|] == keys;
    }

    /** ApplyToFst: the scan of the original states adds the paths' states and labels as it
      * goes and collects their arcs; the arcs are added once the scan is over. */
    method ApplyToFst(f: VectorFst, table: SymbolTable)
      requires Valid() && f.Valid() && table.Valid()
      modifies f, table
      ensures f.Valid() && table.Valid()
      ensures var r := Rewrite(old(f.arcs), synonyms, keys, old(table.symbols));
        table.symbols == r.table
        && f.arcs == AddArcs(old(f.arcs) + Empties(r.numStates - |old(f.arcs)|), r.toAdd)
        && f.finals == old(f.finals) + Nones(r.numStates - |old(f.arcs)|)
        && f.start == old(f.start)
    {
      ghost var g := f.Value();
      var fw := FirstWordsIn(table);
      var n := f.NumStates();
      ghost var b0 := Build(table.symbols, n, FIRST_SYNONYM_ID, []);
      var nextId, toAdd := ScanStates(f, table, g, b0, fw, n);
      ghost var r := StatesFrom(b0, g.arcs, synonyms, fw, n);
      assert r == Rewrite(g.arcs, synonyms, keys, b0.table);
      PadIsEmpties(g.arcs, g.finals, r.numStates - |g.arcs|);
      AddAllArcs(f, toAdd);
    }

    /** The scan of the original states, in order. */
    method ScanStates(f: VectorFst, table: SymbolTable, ghost g: Graph, ghost b0: Build, fw: map<int, seq<SynKey>>,
                      n: nat) returns (nextId: nat, toAdd: seq<(int, Arc)>)
      requires n == |g.arcs| && b0 == Build(table.symbols, n, FIRST_SYNONYM_ID, [])
      requires f.Value() == g && f.Valid() && table.Valid()
      modifies f, table
      ensures Tracks(f, table, g, StatesFrom(b0, g.arcs, synonyms, fw, n), nextId, toAdd)
    {
      nextId, toAdd := FIRST_SYNONYM_ID, [];
      for s := 0 to n
        invariant Tracks(f, table, g, StatesFrom(b0, g.arcs, synonyms, fw, s), nextId, toAdd)
      {
        nextId, toAdd := ScanState(f, table, g, StatesFrom(b0, g.arcs, synonyms, fw, s), fw, s, nextId, toAdd);
      }
    }

    /** The arcs of one original state, in order. */
    method ScanState(f: VectorFst, table: SymbolTable, ghost g: Graph, ghost b: Build, fw: map<int, seq<SynKey>>,
                     s: int, nextId: nat, toAdd: seq<(int, Arc)>) returns (nextId': nat, toAdd': seq<(int, Arc)>)
      requires Tracks(f, table, g, b, nextId, toAdd) && 0 <= s < |g.arcs|
      modifies f, table
      ensures Tracks(f, table, g, ArcsFrom(b, g.arcs, synonyms, fw, s, g.arcs[s]), nextId', toAdd')
    {
      var outs := f.arcs[s];
      PadIsEmpties(g.arcs, g.finals, b.numStates - |g.arcs|);
      assert outs == g.arcs[s];
      nextId', toAdd' := nextId, toAdd;
      ghost var cur := b;
      for j := 0 to |outs|
        invariant cur == ArcsFrom(b, g.arcs, synonyms, fw, s, outs[..j])
        invariant Tracks(f, table, g, cur, nextId', toAdd')
      {
        var a := outs[j];
        if a.nextstate != s && a.ilabel in fw {
          nextId', toAdd' := ApplyRules(f, table, g, cur, s, fw[a.ilabel], nextId', toAdd');
        }
        cur := ArcAt(cur, g.arcs, synonyms, fw, s, a);
        assert outs[..j + 1][..j] == outs[..j];
      }
      assert outs[..|outs|] == outs;
    }

    /** The candidate rules of one arc, in order. */
    method ApplyRules(f: VectorFst, table: SymbolTable, ghost g: Graph, ghost b: Build, s: int, cands: seq<SynKey>,
                      nextId: nat, toAdd: seq<(int, Arc)>) returns (nextId': nat, toAdd': seq<(int, Arc)>)
      requires Tracks(f, table, g, b, nextId, toAdd)
      modifies f, table
      ensures Tracks(f, table, g, RulesAt(b, g.arcs, synonyms, s, cands), nextId', toAdd')
    {
      nextId', toAdd' := nextId, toAdd;
      ghost var cur := b;
      for i := 0 to |cands|
        invariant cur == RulesAt(b, g.arcs, synonyms, s, cands[..i])
        invariant Tracks(f, table, g, cur, nextId', toAdd')
      {
        nextId', toAdd' := ApplyRule(f, table, g, cur, s, cands[i], nextId', toAdd');
        cur := RuleAt(cur, g.arcs, synonyms, s, cands[i]);
        assert cands[..i + 1][..i] == cands[..i];
      }
      assert cands[..|cands|] == cands;
    }

    /** One candidate rule: its end states from s in the graph as it is now (the states added so
      * far have no arcs), then one path per alternative. Every candidate is a key of the map,
      * so its alternatives are the rule's. */
    method ApplyRule(f: VectorFst, table: SymbolTable, ghost g: Graph, ghost b: Build, s: int, lhs: SynKey,
                     nextId: nat, toAdd: seq<(int, Arc)>) returns (nextId': nat, toAdd': seq<(int, Arc)>)
      requires Tracks(f, table, g, b, nextId, toAdd)
      modifies f, table
      ensures Tracks(f, table, g, RuleAt(b, g.arcs, synonyms, s, lhs), nextId', toAdd')
    {
      var targets := SeekForwardIn(f, table, lhs, 0, s);
      PadIsEmpties(g.arcs, g.finals, b.numStates - |g.arcs|);
      SeekForwardPadded(g.arcs, b.numStates - |g.arcs|, b.table, lhs, 0, s);
      assert targets == SeekForward(g.arcs, b.table, lhs, 0, s);
      if |targets| == 0 {
        return nextId, toAdd;
      }
      var alts := if lhs in synonyms then synonyms[lhs] else [];
      nextId', toAdd' := AddPathsIn(f, table, g, b, s, |lhs|, alts, targets, nextId, toAdd);
    }
  }

  /** The alternatives of a rule that can be read from s, one path each, in order. */
  method AddPathsIn(f: VectorFst, table: SymbolTable, ghost g: Graph, ghost b: Build, s: int, lhsLen: nat,
                    alts: SynVals, targets: seq<int>, nextId: nat, toAdd: seq<(int, Arc)>)
    returns (nextId': nat, toAdd': seq<(int, Arc)>)
    requires Tracks(f, table, g, b, nextId, toAdd)
    modifies f, table
    ensures Tracks(f, table, g, AltPaths(b, s, lhsLen, alts, targets), nextId', toAdd')
  {
    nextId', toAdd' := nextId, toAdd;
    assert alts[..0] == [];
    for i := 0 to |alts|
      invariant Tracks(f, table, g, AltPaths(b, s, lhsLen, alts[..i], targets), nextId', toAdd')
    {
      nextId', toAdd' := AddNextPathIn(f, table, g, b, s, lhsLen, alts, i, targets, nextId', toAdd');
    }
    assert alts[..|alts|] == alts;
  }

  /** Alternative i, after the paths of the ones before it. */
  method AddNextPathIn(f: VectorFst, table: SymbolTable, ghost g: Graph, ghost b: Build, s: int, lhsLen: nat,
                       alts: SynVals, i: nat, targets: seq<int>, nextId: nat, toAdd: seq<(int, Arc)>)
    returns (nextId': nat, toAdd': seq<(int, Arc)>)
    requires i < |alts|
    requires Tracks(f, table, g, AltPaths(b, s, lhsLen, alts[..i], targets), nextId, toAdd)
    modifies f, table
    ensures Tracks(f, table, g, AltPaths(b, s, lhsLen, alts[..i + 1], targets), nextId', toAdd')
  {
    ghost var p := AltPaths(b, s, lhsLen, alts[..i], targets);
    nextId', toAdd' := AddPathIn(f, table, g, p, s, lhsLen, alts[i], targets, nextId, toAdd);
    assert alts[..i + 1][..i] == alts[..i];
    assert AltPaths(b, s, lhsLen, alts[..i + 1], targets) == AltPath(p, s, lhsLen, alts[i], targets);
  }

  /** The last loop of ApplyToFst: fst.AddArc for every pending arc, in order. */
  method AddAllArcs(f: VectorFst, toAdd: seq<(int, Arc)>)
    requires f.Valid() && forall e :: e in toAdd ==> 0 <= e.0 < |f.arcs|
    modifies f
    ensures f.Valid() && f.arcs == AddArcs(old(f.arcs), toAdd)
    ensures f.finals == old(f.finals) && f.start == old(f.start)
  {
    for i := 0 to |toAdd|
      invariant f.Valid() && f.arcs == AddArcs(old(f.arcs), toAdd[..i])
      invariant f.finals == old(f.finals) && f.start == old(f.start)
    {
      assert toAdd[i] in toAdd;
      assert toAdd[..i + 1][..i] == toAdd[..i];
      f.AddArc(toAdd[i].0, toAdd[i].1);
    }
    assert toAdd[..|toAdd|] == toAdd;
  }
}
