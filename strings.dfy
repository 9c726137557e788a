// String and label helpers of src/utilities.cpp: substring search, the
// entity / synonym / noisecode label predicates, label-id extraction,
// trimming, joining and case-insensitive comparison.
module Strings {
  import opened Wrappers

  /** The marker strings of src/utilities.cpp. */
  const EPSILON: string := "<eps>"
  const INS: string := "<ins>"
  const DEL: string := "<del>"
  const TK_GLOBAL_CLASS: string := "global"
  const NOOP: string := "!!noop-token!!"

  /** 2^64: std::string sizes are size_t and wrap around below zero. */
  const SIZE_MODULUS: int := 0x1_0000_0000_0000_0000

  /** size_t subtraction `a - b`, wrapping below zero as the source's does. */
  function SizeSub(a: nat, b: nat): nat
    requires b <= SIZE_MODULUS
  {
    if a >= b then a - b else SIZE_MODULUS + a - b
  }

  /** std::string::substr(pos, len): out_of_range when pos > size, length clipped at the end. */
  function Substr(s: string, pos: nat, len: nat): Result<string>
  {
    if pos > |s| then Err("out_of_range")
    else Ok(s[pos .. pos + Min(len, |s| - pos)])
  }

  predicate OccursAt(s: string, p: string, i: int)
  {
    0 <= i && i + |p| <= |s| && s[i .. i + |p|] == p
  }

  predicate StartsWith(s: string, p: string)
  {
    OccursAt(s, p, 0)
  }

  ghost predicate Contains(s: string, p: string)
  {
    exists i :: 0 <= i <= |s| && OccursAt(s, p, i)
  }

  /** std::string::find(p, from): the first occurrence at or after `from`; None is npos. */
  function FindFrom(s: string, p: string, from: nat): (r: Option<nat>)
    ensures r.Some? ==> from <= r.value && OccursAt(s, p, r.value)
    ensures r.Some? ==> forall j :: from <= j < r.value ==> !OccursAt(s, p, j)
    ensures r.None? ==> forall j :: from <= j ==> !OccursAt(s, p, j)
    decreases |s| - from
  {
    if from + |p| > |s| then None
    else if s[from .. from + |p|] == p then Some(from)
    else FindFrom(s, p, from + 1)
  }

  function Find(s: string, p: string): Option<nat>
  {
    FindFrom(s, p, 0)
  }

  /** A first occurrence is the unique one with nothing before it. */
  lemma FindIsFirst(s: string, p: string, i: nat)
    requires OccursAt(s, p, i)
    requires forall j :: 0 <= j < i ==> !OccursAt(s, p, j)
    ensures Find(s, p) == Some(i)
  {
  }

  lemma FindNone(s: string, p: string)
    requires !Contains(s, p)
    ensures Find(s, p) == None
  {
  }

  lemma ContainsWhenFound(s: string, p: string)
    requires Find(s, p).Some?
    ensures Contains(s, p)
  {
  }

  lemma FindAtZero(s: string, p: string)
    ensures Find(s, p) == Some(0) <==> OccursAt(s, p, 0)
  {
    if OccursAt(s, p, 0) {
      FindIsFirst(s, p, 0);
    }
  }

  lemma FoundIffContains(s: string, p: string)
    ensures Find(s, p).Some? <==> Contains(s, p)
  {
    if Contains(s, p) {
      var i :| 0 <= i <= |s| && OccursAt(s, p, i);
      assert Find(s, p).Some?;
    }
  }

  /** A one-character pattern is found at the first position holding that character. */
  lemma FindCharAt(s: string, c: char, from: nat, k: nat)
    requires from <= k < |s| && s[k] == c
    requires forall j :: from <= j < k ==> s[j] != c
    ensures FindFrom(s, [c], from) == Some(k)
  {
    assert s[k..k + 1] == [c];
    assert OccursAt(s, [c], k);
    forall j | from <= j < k ensures !OccursAt(s, [c], j) {
      assert s[j..j + 1] == [s[j]];
    }
  }

  lemma FindCharNone(s: string, c: char, from: nat)
    requires forall j :: from <= j < |s| ==> s[j] != c
    ensures FindFrom(s, [c], from) == None
  {
    forall j | from <= j < |s| ensures !OccursAt(s, [c], j) {
      assert s[j..j + 1] == [s[j]];
    }
  }

  /** `find` of a one-character pattern, scanned character by character. */
  function FindChar(s: string, c: char, from: nat): (r: Option<nat>)
    ensures r.Some? ==> from <= r.value < |s| && s[r.value] == c
    decreases |s| - from
  {
    if from >= |s| then None
    else if s[from] == c then Some(from)
    else FindChar(s, c, from + 1)
  }

  /** The position found is the first `c` at or after `from`; when none is found there is no
    * `c` from there on. */
  lemma {:induction false} FindCharSpec(s: string, c: char, from: nat)
    ensures var r := FindChar(s, c, from);
      && (r.Some? ==> forall j :: from <= j < r.value ==> s[j] != c)
      && (r.None? ==> forall j :: from <= j < |s| ==> s[j] != c)
    decreases |s| - from
  {
    if from < |s| && s[from] != c {
      FindCharSpec(s, c, from + 1);
    }
  }

  /** The first `c` at or after `from` is the one found. */
  lemma {:induction false} FindCharFirst(s: string, c: char, from: nat, k: nat)
    requires from <= k < |s| && s[k] == c
    requires forall j :: from <= j < k ==> s[j] != c
    ensures FindChar(s, c, from) == Some(k)
    decreases k - from
  {
    if from < k {
      FindCharFirst(s, c, from + 1, k);
    }
  }

  /** It is the same search as the general substring `find`. */
  lemma FindCharIsFind(s: string, c: char, from: nat)
    ensures FindChar(s, c, from) == FindFrom(s, [c], from)
  {
    FindCharSpec(s, c, from);
    match FindChar(s, c, from)
    case None => FindCharNone(s, c, from);
    case Some(k) => FindCharAt(s, c, from, k);
  }

  /** isEntityLabel: the token starts with three underscores. */
  function IsEntityLabel(t: string): (b: bool)
    ensures b <==> |t| >= 3 && t[..3] == "___"
  {
    FindAtZero(t, "___");
    Find(t, "___") == Some(0)
  }

  /** isSynonymLabel: an entity label that also contains "_SYN_". */
  function IsSynonymLabel(t: string): (b: bool)
    ensures b ==> IsEntityLabel(t)
  {
    IsEntityLabel(t) && Find(t, "_SYN_").Some?
  }

  lemma IsSynonymLabelIff(t: string)
    ensures IsSynonymLabel(t) <==> StartsWith(t, "___") && Contains(t, "_SYN_")
  {
    FoundIffContains(t, "_SYN_");
  }

  lemma NoisecodeShape(t: string)
    requires |t| >= 1
    ensures Find(t, ">") == Some(|t| - 1) <==> t[|t| - 1] == '>' && '>' !in t[..|t| - 1]
  {
    var gt := Find(t, ">");
    if t[|t| - 1] == '>' && '>' !in t[..|t| - 1] {
      assert OccursAt(t, ">", |t| - 1);
      forall j | 0 <= j < |t| - 1 ensures !OccursAt(t, ">", j) {
        assert t[j] in t[..|t| - 1];
      }
      FindIsFirst(t, ">", |t| - 1);
    }
    if gt == Some(|t| - 1) {
      forall j | 0 <= j < |t| - 1 ensures t[j] != '>' {
        assert !OccursAt(t, ">", j);
      }
    }
  }

  /** IsNoisecodeToken: '<' first, and the first '>' is the last character. */
  function IsNoisecodeToken(t: string): (b: bool)
    ensures b <==> |t| >= 2 && t[0] == '<' && t[|t| - 1] == '>' && '>' !in t[..|t| - 1]
  {
    FindAtZero(t, "<");
    if |t| >= 1 then
      NoisecodeShape(t);
      Find(t, "<") == Some(0) && Find(t, ">") == Some(|t| - 1)
    else false
  }

  /** getLabelIdFromToken: drop the three underscores on each side, keep the text before the first
    * '_' when that '_' is not at index 0; "" for non-entities. */
  function GetLabelIdFromToken(t: string): string
  {
    if !IsEntityLabel(t) then ""
    else
      var inner := t[3 .. 3 + Min(SizeSub(|t|, 6), |t| - 3)];
      var p := Find(inner, "_");
      if p.Some? && p.value > 0 then inner[..p.value] else inner
  }

  /** Replace every occurrence of character `a` by `b` (std::replace). */
  function ReplaceChar(s: string, a: char, b: char): (r: string)
    ensures |r| == |s|
    ensures forall i :: 0 <= i < |s| ==> r[i] == (if s[i] == a then b else s[i])
  {
    if |s| == 0 then [] else ReplaceChar(s[..|s| - 1], a, b) + [if s[|s| - 1] == a then b else s[|s| - 1]]
  }

  /** GetClassLabel: "" for "", otherwise the label wrapped in "___" with ':' turned into '_'. */
  function GetClassLabel(best: string): (r: string)
    ensures best == "" ==> r == ""
    ensures best != "" ==> IsEntityLabel(r) && |r| == |best| + 6 && ':' !in r
  {
    if best == "" then ""
    else
      var r := ReplaceChar("___" + best + "___", ':', '_');
      assert r[..3] == "___";
      r
  }

  /** GetLabelNameFromClassLabel: the text after the first '_' of the unwrapped label. */
  function GetLabelNameFromClassLabel(c: string): Result<string>
  {
    if |c| < 3 then Err("out_of_range")
    else
      var inner := c[3 .. 3 + Min(SizeSub(|c|, 6), |c| - 3)];
      var p := Find(inner, "_");
      var start := if p.Some? then p.value + 1 else 0;
      Ok(inner[start..])
  }

  lemma ReplaceCharConcat(x: string, y: string, a: char, b: char)
    ensures ReplaceChar(x + y, a, b) == ReplaceChar(x, a, b) + ReplaceChar(y, a, b)
  {
    var l := ReplaceChar(x + y, a, b);
    var r := ReplaceChar(x, a, b) + ReplaceChar(y, a, b);
    assert |l| == |r|;
    forall i | 0 <= i < |l| ensures l[i] == r[i] {
      if i < |x| { assert (x + y)[i] == x[i]; } else { assert (x + y)[i] == y[i - |x|]; }
    }
  }

  lemma ReplaceCharAbsent(x: string, a: char, b: char)
    requires a !in x
    ensures ReplaceChar(x, a, b) == x
  {
  }

  /** The class label of "id:name" when the id has no ':'. */
  lemma ClassLabelShape(id: string, name: string)
    requires ':' !in id
    ensures GetClassLabel(id + ":" + name) == "___" + (id + "_" + ReplaceChar(name, ':', '_')) + "___"
  {
    var best := id + ":" + name;
    ReplaceCharConcat("___" + best, "___", ':', '_');
    ReplaceCharConcat("___", best, ':', '_');
    ReplaceCharConcat(id + ":", name, ':', '_');
    ReplaceCharConcat(id, ":", ':', '_');
    ReplaceCharAbsent("___", ':', '_');
    ReplaceCharAbsent(id, ':', '_');
    assert ReplaceChar(":", ':', '_') == "_";
  }

  /** The first '_' of id_rest, for an id without '_', is the one after the id. */
  lemma UnderscoreAfterId(id: string, rest: string)
    requires '_' !in id
    ensures Find(id + "_" + rest, "_") == Some(|id|)
  {
    var inner := id + "_" + rest;
    assert inner[|id|] == '_';
    forall j | 0 <= j < |id| ensures inner[j] != '_' {
      assert inner[j] == id[j];
    }
    FindCharAt(inner, '_', 0, |id|);
    assert ['_'] == "_";
  }

  /** A class label built from "id:name" gives back id and the name (with ':' as '_'). */
  lemma ClassLabelRoundTrip(id: string, name: string)
    requires |id| > 0 && ':' !in id && '_' !in id
    ensures GetLabelIdFromToken(GetClassLabel(id + ":" + name)) == id
    ensures GetLabelNameFromClassLabel(GetClassLabel(id + ":" + name)) == Ok(ReplaceChar(name, ':', '_'))
  {
    var rn := ReplaceChar(name, ':', '_');
    var inner := id + "_" + rn;
    var t := GetClassLabel(id + ":" + name);
    ClassLabelShape(id, name);
    Middle("___", inner, "___");
    assert SizeSub(|t|, 6) == |inner|;
    UnderscoreAfterId(id, rn);
    assert inner[..|id|] == id;
    assert inner[|id| + 1..] == rn;
  }

  /** isValidNgram: false iff the token contains "<ins>", "<del>", "<eps>" or "___". */
  function IsValidNgram(t: string): bool
  {
    Find(t, "<ins>").None? && Find(t, "<del>").None? && Find(t, "<eps>").None? && Find(t, "___").None?
  }

  lemma IsValidNgramIff(t: string)
    ensures IsValidNgram(t) <==> !Contains(t, "<ins>") && !Contains(t, "<del>") && !Contains(t, "<eps>") && !Contains(t, "___")
  {
    FoundIffContains(t, "<ins>");
    FoundIffContains(t, "<del>");
    FoundIffContains(t, "<eps>");
    FoundIffContains(t, "___");
  }

  lemma ContainsPrefix(a: string, rest: string, p: string)
    requires Contains(a, p)
    ensures Contains(a + rest, p)
  {
    var i :| 0 <= i <= |a| && OccursAt(a, p, i);
    assert (a + rest)[i .. i + |p|] == a[i .. i + |p|];
    assert OccursAt(a + rest, p, i);
  }

  lemma ContainsSuffix(x: string, b: string, p: string)
    requires Contains(b, p)
    ensures Contains(x + b, p)
  {
    var i :| 0 <= i <= |b| && OccursAt(b, p, i);
    assert (x + b)[|x| + i .. |x| + i + |p|] == b[i .. i + |p|];
    assert OccursAt(x + b, p, |x| + i);
  }

  /** What the words joined by a space do not contain, neither word contains. */
  lemma NgramPart(a: string, b: string, p: string)
    requires !Contains(a + " " + b, p)
    ensures !Contains(a, p) && !Contains(b, p)
  {
    if Contains(a, p) {
      Assoc(a, " ", b);
      ContainsPrefix(a, " " + b, p);
    }
    if Contains(b, p) {
      ContainsSuffix(a + " ", b, p);
    }
  }

  /** A valid bigram is made of valid words, and no entity label is a valid n-gram. */
  lemma ValidNgramParts(a: string, b: string)
    requires IsValidNgram(a + " " + b)
    ensures IsValidNgram(a) && IsValidNgram(b) && !IsEntityLabel(a)
  {
    IsValidNgramIff(a + " " + b);
    IsValidNgramIff(a);
    IsValidNgramIff(b);
    NgramPart(a, b, "<ins>");
    NgramPart(a, b, "<del>");
    NgramPart(a, b, "<eps>");
    NgramPart(a, b, "___");
    assert !OccursAt(a, "___", 0);
  }

  /** Each element followed by the separator, as an ostream_iterator writes them. */
  function Terminated(es: seq<string>, sep: string): string
  {
    if |es| == 0 then "" else Terminated(es[..|es| - 1], sep) + es[|es| - 1] + sep
  }

  /** string_join: the elements with the separator between them and none trailing. */
  function StringJoin(es: seq<string>, sep: string): string
  {
    if |es| == 0 then ""
    else if |es| == 1 then es[0]
    else Terminated(es[..|es| - 1], sep) + es[|es| - 1]
  }

  /** The usual head-first definition of joining. */
  function JoinRef(es: seq<string>, sep: string): string
    decreases |es|
  {
    if |es| == 0 then "" else if |es| == 1 then es[0] else es[0] + sep + JoinRef(es[1..], sep)
  }

  lemma {:induction false} TerminatedHead(es: seq<string>, sep: string)
    requires |es| >= 1
    ensures Terminated(es, sep) == es[0] + sep + Terminated(es[1..], sep)
    decreases |es|
  {
    if |es| == 1 {
      assert es[..0] == [];
      assert es[1..] == [];
    } else {
      var init := es[..|es| - 1];
      TerminatedHead(init, sep);
      assert init[0] == es[0];
      assert init[1..] == es[1..][..|es[1..]| - 1];
      assert es[1..][|es[1..]| - 1] == es[|es| - 1];
    }
  }

  lemma {:induction false} StringJoinIsJoinRef(es: seq<string>, sep: string)
    ensures StringJoin(es, sep) == JoinRef(es, sep)
    decreases |es|
  {
    if |es| >= 2 {
      var init := es[..|es| - 1];
      TerminatedHead(init, sep);
      StringJoinIsJoinRef(es[1..], sep);
      var tl := es[1..];
      assert init[1..] == tl[..|tl| - 1];
      assert tl[|tl| - 1] == es[|es| - 1];
      if |es| == 2 {
        assert init[1..] == [];
        assert StringJoin(tl, sep) == tl[0];
      }
    }
  }

  lemma JoinPair(a: string, b: string, sep: string)
    ensures StringJoin([a, b], sep) == a + sep + b
  {
    assert [a, b][..1] == [a];
    assert [a][..0] == [];
    assert Terminated([a], sep) == Terminated([], sep) + a + sep;
  }

  function SumLengths(es: seq<string>): nat
  {
    if |es| == 0 then 0 else |es[0]| + SumLengths(es[1..])
  }

  /** The joined string has every element and one separator between each pair. */
  lemma {:induction false} StringJoinLength(es: seq<string>, sep: string)
    requires |es| >= 1
    ensures |StringJoin(es, sep)| == SumLengths(es) + (|es| - 1) * |sep|
    decreases |es|
  {
    StringJoinIsJoinRef(es, sep);
    if |es| >= 2 {
      StringJoinLength(es[1..], sep);
      StringJoinIsJoinRef(es[1..], sep);
    }
  }

  /** toupper / tolower of the C locale. */
  function ToUpper(c: char): char
  {
    if 'a' <= c <= 'z' then (c as int - 32) as char else c
  }

  function ToLower(c: char): char
  {
    if 'A' <= c <= 'Z' then (c as int + 32) as char else c
  }

  function LowerString(s: string): (r: string)
    ensures |r| == |s| && forall i :: 0 <= i < |s| ==> r[i] == ToLower(s[i])
  {
    if |s| == 0 then "" else LowerString(s[..|s| - 1]) + [ToLower(s[|s| - 1])]
  }

  lemma UpperLowerAgree(a: char, b: char)
    ensures ToUpper(a) == ToUpper(b) <==> ToLower(a) == ToLower(b)
  {
  }

  /** Per-character case-insensitive equality from index i on. */
  function EqualFrom(s1: string, s2: string, i: nat): (b: bool)
    requires |s1| == |s2| && i <= |s1|
    ensures b <==> forall k :: i <= k < |s1| ==> ToUpper(s1[k]) == ToUpper(s2[k])
    decreases |s1| - i
  {
    if i == |s1| then true
    else ToUpper(s1[i]) == ToUpper(s2[i]) && EqualFrom(s1, s2, i + 1)
  }

  lemma UpperEqualIffLowerEqual(s1: string, s2: string)
    requires |s1| == |s2|
    ensures (forall k :: 0 <= k < |s1| ==> ToUpper(s1[k]) == ToUpper(s2[k])) <==> LowerString(s1) == LowerString(s2)
  {
    if forall k :: 0 <= k < |s1| ==> ToUpper(s1[k]) == ToUpper(s2[k]) {
      forall k | 0 <= k < |s1| ensures LowerString(s1)[k] == LowerString(s2)[k] {
        UpperLowerAgree(s1[k], s2[k]);
      }
    }
    if LowerString(s1) == LowerString(s2) {
      forall k | 0 <= k < |s1| ensures ToUpper(s1[k]) == ToUpper(s2[k]) {
        assert LowerString(s1)[k] == LowerString(s2)[k];
        UpperLowerAgree(s1[k], s2[k]);
      }
    }
  }

  /** iequals: same length and equal up to ASCII case. */
  function IEquals(s1: string, s2: string): (b: bool)
    ensures b <==> |s1| == |s2| && LowerString(s1) == LowerString(s2)
  {
    if |s1| != |s2| then false
    else
      UpperUpperEqualIff(s1, s2);
      s1 == s2 || EqualFrom(s1, s2, 0)
  }

  lemma UpperUpperEqualIff(s1: string, s2: string)
    requires |s1| == |s2|
    ensures s1 == s2 || EqualFrom(s1, s2, 0) <==> LowerString(s1) == LowerString(s2)
  {
    UpperEqualIffLowerEqual(s1, s2);
  }

  lemma IEqualsSymmetric(s1: string, s2: string)
    ensures IEquals(s1, s2) == IEquals(s2, s1)
  {
  }

  /** Compare the last n characters of value and ending case-insensitively, back to front. */
  function TailEqual(value: string, ending: string, n: nat): (b: bool)
    requires n <= |ending| <= |value|
    ensures b <==> forall k :: |ending| - n <= k < |ending| ==> ToLower(ending[k]) == ToLower(value[|value| - |ending| + k])
  {
    if n == 0 then true
    else ToLower(ending[|ending| - n]) == ToLower(value[|value| - n]) && TailEqual(value, ending, n - 1)
  }

  lemma TailEqualIffLower(value: string, ending: string)
    requires |ending| <= |value|
    ensures TailEqual(value, ending, |ending|) <==> LowerString(value[|value| - |ending|..]) == LowerString(ending)
  {
    var suffix := value[|value| - |ending|..];
    var ls := LowerString(suffix);
    var le := LowerString(ending);
    if TailEqual(value, ending, |ending|) {
      forall k | 0 <= k < |ending| ensures ls[k] == le[k] {
        assert suffix[k] == value[|value| - |ending| + k];
      }
      assert ls == le;
    }
    if ls == le {
      forall k | 0 <= k < |ending| ensures ToLower(ending[k]) == ToLower(value[|value| - |ending| + k]) {
        assert ls[k] == le[k];
        assert suffix[k] == value[|value| - |ending| + k];
      }
    }
  }

  /** EndsWithCaseInsensitive: false if the ending is longer, else a case-insensitive suffix test. */
  function EndsWithCaseInsensitive(value: string, ending: string): (b: bool)
    ensures b <==> |ending| <= |value| && IEquals(value[|value| - |ending|..], ending)
  {
    if |ending| > |value| then false
    else
      TailEqualIffLower(value, ending);
      TailEqual(value, ending, |ending|)
  }

  /** The characters std::isspace accepts in the C locale: space, tab, newline, vertical tab,
    * form feed and carriage return. */
  const SPACES: set<char> := {' ', '\t', '\n', 11 as char, 12 as char, '\r'}

  /** std::isspace in the C locale. */
  predicate IsSpace(c: char)
  {
    c in SPACES
  }

  /** The end of the run of whitespace that starts at i. */
  function SkipSpaces(s: string, i: nat): (k: nat)
    requires i <= |s|
    ensures i <= k <= |s| && (k < |s| ==> !IsSpace(s[k]))
    decreases |s| - i
  {
    if i < |s| && IsSpace(s[i]) then SkipSpaces(s, i + 1) else i
  }

  /** What SkipSpaces skips is whitespace. */
  lemma {:induction false} SkipSpacesSpec(s: string, i: nat)
    requires i <= |s|
    ensures forall j :: i <= j < SkipSpaces(s, i) ==> IsSpace(s[j])
    decreases |s| - i
  {
    if i < |s| && IsSpace(s[i]) {
      SkipSpacesSpec(s, i + 1);
    }
  }

  /** The start of the run of whitespace that ends just before k. */
  function BackSpaces(s: string, k: nat): (e: nat)
    requires k <= |s|
    ensures e <= k && (e > 0 ==> !IsSpace(s[e - 1]))
  {
    if k > 0 && IsSpace(s[k - 1]) then BackSpaces(s, k - 1) else k
  }

  /** What BackSpaces skips is whitespace. */
  lemma {:induction false} BackSpacesSpec(s: string, k: nat)
    requires k <= |s|
    ensures forall j :: BackSpaces(s, k) <= j < k ==> IsSpace(s[j])
  {
    if k > 0 && IsSpace(s[k - 1]) {
      BackSpacesSpec(s, k - 1);
    }
  }

  /** ltrim: erase the leading run of whitespace. */
  function LTrim(s: string): (r: string)
    ensures |r| <= |s| && r == s[|s| - |r|..]
    ensures |r| > 0 ==> !IsSpace(r[0])
  {
    s[SkipSpaces(s, 0)..]
  }

  /** What ltrim erases is whitespace. */
  lemma LTrimSpaces(s: string)
    ensures forall i :: 0 <= i < |s| - |LTrim(s)| ==> IsSpace(s[i])
  {
    SkipSpacesSpec(s, 0);
  }

  /** rtrim: erase the trailing run of whitespace. */
  function RTrim(s: string): (r: string)
    ensures |r| <= |s| && r == s[..|r|]
    ensures |r| > 0 ==> !IsSpace(r[|r| - 1])
  {
    s[..BackSpaces(s, |s|)]
  }

  /** What rtrim erases is whitespace. */
  lemma RTrimSpaces(s: string)
    ensures forall i :: |RTrim(s)| <= i < |s| ==> IsSpace(s[i])
  {
    BackSpacesSpec(s, |s|);
  }

  /** trim / trim_copy: ltrim then rtrim. */
  function Trim(s: string): string
  {
    RTrim(LTrim(s))
  }

  /** The trimmed string is the middle of s, all that was cut is whitespace, and its ends are not. */
  lemma TrimSpec(s: string)
    ensures var r := Trim(s); var i := |s| - |LTrim(s)|;
      i + |r| <= |s| && r == s[i .. i + |r|]
      && (forall k :: 0 <= k < i ==> IsSpace(s[k]))
      && (forall k :: i + |r| <= k < |s| ==> IsSpace(s[k]))
      && (|r| > 0 ==> !IsSpace(r[0]) && !IsSpace(r[|r| - 1]))
  {
    LTrimSpaces(s);
    RTrimSpaces(LTrim(s));
    TrimParts(s, LTrim(s), Trim(s));
    TrimEnds(s);
  }

  /** Neither end of a non-empty trimmed string is whitespace. */
  lemma TrimEnds(s: string)
    ensures var r := Trim(s); |r| > 0 ==> !IsSpace(r[0]) && !IsSpace(r[|r| - 1])
  {
    var l := LTrim(s);
    var r := RTrim(l);
    if |r| > 0 {
      assert r[0] == l[0];
    }
  }

  /** Cutting a suffix of whitespace off a suffix of s leaves a slice of s, and what follows the
    * slice is whitespace. */
  lemma TrimParts(s: string, l: string, r: string)
    requires |l| <= |s| && l == s[|s| - |l|..]
    requires |r| <= |l| && r == l[..|r|] && forall k :: |r| <= k < |l| ==> IsSpace(l[k])
    ensures var i := |s| - |l|;
      i + |r| <= |s| && r == s[i .. i + |r|] && forall k :: i + |r| <= k < |s| ==> IsSpace(s[k])
  {
    var i := |s| - |l|;
    forall k | i + |r| <= k < |s| ensures IsSpace(s[k]) {
      assert s[k] == l[k - i];
    }
  }

  lemma LTrimNoLeading(s: string)
    requires |s| == 0 || !IsSpace(s[0])
    ensures LTrim(s) == s
  {
    assert SkipSpaces(s, 0) == 0;
  }

  lemma RTrimNoTrailing(s: string)
    requires |s| == 0 || !IsSpace(s[|s| - 1])
    ensures RTrim(s) == s
  {
    assert BackSpaces(s, |s|) == |s|;
  }

  /** Trimming the end keeps a non-blank first character. */
  lemma RTrimKeepsHead(s: string)
    requires |s| > 0 && !IsSpace(s[0])
    ensures |RTrim(s)| > 0 && RTrim(s)[0] == s[0]
  {
    BackSpacesSpec(s, |s|);
    assert BackSpaces(s, |s|) > 0;
  }

  lemma TrimIdempotent(s: string)
    ensures Trim(Trim(s)) == Trim(s)
  {
    var t := Trim(s);
    var l := LTrim(s);
    if |t| > 0 {
      RTrimKeepsHead(l);
    }
    LTrimNoLeading(t);
    RTrimNoTrailing(t);
  }
}
