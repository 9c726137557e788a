// The field parsers of the NLP reader (src/Nlp.cpp): the best label of a row's label list,
// the id part of a label, and the list of WER tags. The lists are written Python-style:
// ['0:CARDINAL','0:MONEY'] and ['89', '90', '100'].
module NlpFields {
  import opened Wrappers
  import opened Strings

  // ---------------------------------------------------------------------------------------
  // Writers of the two list formats

  function Quote(t: string): string
  {
    "'" + t + "'"
  }

  /** Each element between single quotes. */
  function Quoted(ts: seq<string>): (r: seq<string>)
    ensures |r| == |ts|
    ensures forall i :: 0 <= i < |ts| ==> r[i] == Quote(ts[i])
  {
    if |ts| == 0 then [] else [Quote(ts[0])] + Quoted(ts[1..])
  }

  /** A label list as the NLP files hold it: ['a','b']. */
  function FormatLabels(ls: seq<string>): string
  {
    "[" + JoinRef(Quoted(ls), ",") + "]"
  }

  /** A WER tag list as the NLP files hold it: ['a', 'b']. */
  function FormatTags(ts: seq<string>): string
  {
    "[" + JoinRef(Quoted(ts), ", ") + "]"
  }

  predicate NoQuote(t: string)
  {
    forall i :: 0 <= i < |t| ==> t[i] != '\''
  }

  predicate NoComma(t: string)
  {
    forall i :: 0 <= i < |t| ==> t[i] != ','
  }

  // ---------------------------------------------------------------------------------------
  // GetBestLabel

  /** The text "[]" of an empty list, compared character by character. */
  predicate IsEmptyList(s: string)
  {
    |s| == 2 && s[0] == '[' && s[1] == ']'
  }

  lemma IsEmptyListIff(s: string)
    ensures IsEmptyList(s) <==> s == "[]"
  {
  }

  /** GetBestLabel as written: "" for "[]"; otherwise the brackets are dropped, then, when a
    * comma at position p > 0 is found (npos counts as found), the first p - 2 characters are
    * kept (p - 2 wraps around for p = 1 and keeps everything), then the first and last
    * characters are dropped. Strings of length at most 2 come back unchanged. */
  function GetBestLabel(labels: string): Result<string>
  {
    if IsEmptyList(labels) then Ok("")
    else if |labels| > 2 then
      var trimmed := labels[1 .. |labels| - 1];
      var found := Find(trimmed, ",");
      // npos is positive too, and npos - 2 keeps the whole string
      var chopped :=
        if found.None? then trimmed
        else if found.value > 0 then trimmed[.. Min(SizeSub(found.value, 2), |trimmed|)]
        else trimmed;
      Substr(chopped, 1, SizeSub(|chopped|, 2))
    else Ok(labels)
  }

  /** GetBestLabel as its comments describe it: the first label of the list, cut before the
    * first comma, without its quotes. */
  function GetBestLabelIntended(labels: string): Result<string>
  {
    if IsEmptyList(labels) then Ok("")
    else if |labels| > 2 then
      var trimmed := labels[1 .. |labels| - 1];
      var found := Find(trimmed, ",");
      var chopped := if found.Some? && found.value > 0 then trimmed[..found.value] else trimmed;
      Substr(chopped, 1, SizeSub(|chopped|, 2))
    else Ok(labels)
  }

  /** The short cases: "[]" gives "" and other strings of length at most 2 come back. */
  lemma BestLabelShort(s: string)
    requires |s| <= 2
    ensures GetBestLabel(s) == if s == "[]" then Ok("") else Ok(s)
  {
    IsEmptyListIff(s);
  }

  /** The text of a label list between its brackets: the first label quoted, then, when
    * there are more, a comma and the rest. */
  lemma LabelsInside(ls: seq<string>, l: string, s: string)
    requires |ls| >= 1 && l == ls[0] && s == FormatLabels(ls)
    ensures |s| > 2
    ensures |ls| == 1 ==> s[1 .. |s| - 1] == Quote(l)
    ensures |ls| > 1 ==> s[1 .. |s| - 1] == Quote(l) + ("," + JoinRef(Quoted(ls[1..]), ","))
  {
    var j := JoinRef(Quoted(ls), ",");
    assert s[1 .. |s| - 1] == j;
    if |ls| > 1 {
      var rest := JoinRef(Quoted(ls[1..]), ",");
      QuotedTail(ls);
      assert j == Quote(l) + "," + rest;
      Assoc(Quote(l), ",", rest);
    }
  }

  /** No comma in a quoted label without commas. */
  lemma NoCommaQuoted(l: string)
    requires NoComma(l)
    ensures Find(Quote(l), ",") == None
  {
    var u := Quote(l);
    forall j | 0 <= j < |u| ensures u[j] != ',' {
      if 0 < j < |u| - 1 {
        assert u[j] == l[j - 1];
      }
    }
    FindCharNone(u, ',', 0);
    assert [','] == ",";
  }

  /** In a quoted label without commas followed by a comma, that comma is the first. */
  lemma CommaAfterQuoted(u: string, l: string, tail: string)
    requires NoComma(l) && u == Quote(l) + tail && |tail| > 0 && tail[0] == ','
    ensures Find(u, ",") == Some(|l| + 2)
  {
    forall j | 0 <= j < |l| + 2 ensures u[j] != ',' {
      if 0 < j < |l| + 1 {
        assert u[j] == l[j - 1];
      }
    }
    assert u[|l| + 2] == ',';
    FindCharAt(u, ',', 0, |l| + 2);
    assert [','] == ",";
  }

  /** The quoted label without its closing quote and last two characters, then without its
    * opening quote. */
  lemma ChoppedLabel(u: string, l: string, tail: string)
    requires u == Quote(l) + tail && |l| >= 2
    ensures u[.. |l|][1 .. |l| - 1] == l[.. |l| - 2]
  {
    assert u[.. |l|][1 .. |l| - 1] == u[1 .. |l| - 1];
  }

  /** A list of one quoted label gives the label. */
  lemma BestLabelOfOne(l: string)
    requires NoComma(l)
    ensures GetBestLabel(FormatLabels([l])) == Ok(l)
  {
    var s := FormatLabels([l]);
    LabelsInside([l], l, s);
    NoCommaQuoted(l);
    assert Quote(l)[1 .. |l| + 1] == l;
  }

  /** A list whose text between the brackets is a quoted label and then a comma: the code as
    * written keeps that label without its last two characters. */
  lemma BestLabelBeforeComma(s: string, l: string, tail: string)
    requires |s| > 2 && s[1 .. |s| - 1] == Quote(l) + tail && |tail| > 0 && tail[0] == ','
    requires NoComma(l) && |l| >= 2
    ensures GetBestLabel(s) == Ok(l[.. |l| - 2])
  {
    var u := s[1 .. |s| - 1];
    CommaAfterQuoted(u, l, tail);
    ChoppedLabel(u, l, tail);
    assert Min(SizeSub(|l| + 2, 2), |u|) == |l|;
    var chopped := u[.. |l|];
    assert Substr(chopped, 1, SizeSub(|chopped|, 2)) == Ok(chopped[1 .. |l| - 1]);
  }

  /** With two or more labels, the code as written loses the last two characters of the
    * first one. */
  lemma BestLabelOfManyAsWritten(ls: seq<string>, l: string)
    requires |ls| >= 2 && l == ls[0] && |l| >= 2
    requires forall i :: 0 <= i < |ls| ==> NoComma(ls[i])
    ensures GetBestLabel(FormatLabels(ls)) == Ok(l[.. |l| - 2])
  {
    var s := FormatLabels(ls);
    LabelsInside(ls, l, s);
    assert NoComma(l);
    BestLabelBeforeComma(s, l, "," + JoinRef(Quoted(ls[1..]), ","));
  }

  /** The concrete input that shows it. */
  lemma BestLabelCounterexample(s: string)
    requires s == "['0:CARDINAL','0:MONEY']"
    ensures GetBestLabel(s) == Ok("0:CARDIN")
  {
    var l := "0:CARDINAL";
    CounterexampleShape(s);
    assert NoComma(l);
    BestLabelBeforeComma(s, l, ",'0:MONEY'");
    assert l[.. |l| - 2] == "0:CARDIN";
  }

  /** The example list is a quoted first label followed by a comma and the rest. */
  lemma CounterexampleShape(s: string)
    requires s == "['0:CARDINAL','0:MONEY']"
    ensures |s| > 2 && s[1 .. |s| - 1] == Quote("0:CARDINAL") + ",'0:MONEY'"
  {
    var inside := "'0:CARDINAL','0:MONEY'";
    assert s == "[" + inside + "]";
    Inner("[", inside, "]");
    CounterexampleInside();
  }

  /** The inside of the example list, split after its first quoted label. */
  lemma CounterexampleInside()
    ensures "'0:CARDINAL','0:MONEY'" == Quote("0:CARDINAL") + ",'0:MONEY'"
  {
    assert Quote("0:CARDINAL") == "'0:CARDINAL'";
  }

  /** The intended version gives back the first label of any list. */
  lemma BestLabelIntendedRoundTrip(ls: seq<string>, l: string)
    requires |ls| >= 1 && l == ls[0] && |l| >= 1
    requires forall i :: 0 <= i < |ls| ==> NoComma(ls[i])
    ensures GetBestLabelIntended(FormatLabels(ls)) == Ok(l)
  {
    var s := FormatLabels(ls);
    LabelsInside(ls, l, s);
    assert NoComma(l);
    assert Quote(l)[1 .. |l| + 1] == l;
    if |ls| == 1 {
      NoCommaQuoted(l);
    } else {
      var u := s[1 .. |s| - 1];
      var tail := "," + JoinRef(Quoted(ls[1..]), ",");
      CommaAfterQuoted(u, l, tail);
      assert u[.. |l| + 2] == Quote(l);
    }
  }

  // ---------------------------------------------------------------------------------------
  // GetLabelId

  /** GetLabelId: "" for ""; for more than two characters the text before the first ':' (all
    * of it when there is none); an error for one or two characters or a ':' at the start. */
  function GetLabelId(text: string): (r: Result<string>)
    ensures |text| == 0 ==> r == Ok("")
    ensures 1 <= |text| <= 2 ==> r.Err?
    ensures |text| > 2 ==> (r.Err? <==> text[0] == ':')
    ensures r.Ok? ==> |r.value| <= |text| && text[..|r.value|] == r.value && ':' !in r.value
    ensures r.Ok? && |r.value| < |text| ==> text[|r.value|] == ':'
  {
    if |text| == 0 then Ok("")
    else if |text| > 2 then
      var found := Find(text, ":");
      // npos is positive too, and substr(0, npos) is the whole label
      if found.None? || found.value > 0 then
        var pos := if found.Some? then found.value else |text|;
        var id := text[..pos];
        assert ':' !in id by {
          forall j | 0 <= j < |id| ensures id[j] != ':' {
            assert !OccursAt(text, ":", j);
            assert text[j..j + 1] == [text[j]];
          }
        }
        assert found.Some? ==> pos < |text| && text[pos] == text[pos..pos + 1][0] == ':';
        Ok(id)
      else
        assert text[0..1] == ":";
        Err("label not formatted as expected")
    else Err("label not formatted as expected")
  }

  /** A label written as id:name gives back its id. */
  lemma LabelIdOf(id: string, name: string)
    requires |id| > 0 && ':' !in id && |id| + |name| >= 2
    ensures GetLabelId(id + ":" + name) == Ok(id)
  {
    var l := id + ":" + name;
    assert l[|id|] == ':';
    FindCharAt(l, ':', 0, |id|);
    assert [':'] == ":";
    assert l[..|id|] == id;
  }

  // ---------------------------------------------------------------------------------------
  // GetWerTags

  /** The tags from position `cur`: the text up to the next quote, then the scan resumes one
    * past the quote after that; it stops when either quote is missing. */
  function TagsFrom(s: string, cur: nat): seq<string>
    decreases |s| - cur, 1
  {
    match FindChar(s, '\'', cur)
    case None => []
    case Some(p) => [s[cur..p]] + TagsAfter(s, p)
  }

  /** The tags after the opening quote at p: none when no quote closes the tag, else those
    * from one past the closing quote. */
  function TagsAfter(s: string, p: nat): seq<string>
    decreases |s| - p, 0
  {
    match FindChar(s, '\'', p + 1)
    case None => []
    case Some(q) => TagsFrom(s, q + 1)
  }

  lemma TagsFromLast(s: string, cur: nat, p: nat)
    requires FindChar(s, '\'', cur) == Some(p) && FindChar(s, '\'', p + 1) == None
    ensures TagsFrom(s, cur) == [s[cur..p]]
  {
    assert TagsAfter(s, p) == [];
  }

  lemma TagsFromNext(s: string, cur: nat, p: nat, q: nat)
    requires FindChar(s, '\'', cur) == Some(p) && FindChar(s, '\'', p + 1) == Some(q)
    ensures TagsFrom(s, cur) == [s[cur..p]] + TagsFrom(s, q + 1)
  {
    assert TagsAfter(s, p) == TagsFrom(s, q + 1);
  }

  /** GetWerTags: none for "[]", otherwise the tags from position 2 (just past "['"). */
  function WerTags(s: string): seq<string>
  {
    if IsEmptyList(s) then [] else TagsFrom(s, 2)
  }

  /** The scan of GetWerTags so far: the tags found, followed by those from `cur` on, are
    * all the tags. */
  ghost predicate Scanned(s: string, tags: seq<string>, cur: nat)
  {
    tags + TagsFrom(s, cur) == WerTags(s)
  }

  /** One more tag, and the scan resumes past the closing quote. */
  lemma ScanNext(s: string, tags: seq<string>, cur: nat, p: nat, q: nat)
    requires Scanned(s, tags, cur)
    requires FindChar(s, '\'', cur) == Some(p) && FindChar(s, '\'', p + 1) == Some(q)
    ensures Scanned(s, tags + [s[cur..p]], q + 1)
  {
    TagsFromNext(s, cur, p, q);
    SnocAppend(tags, s[cur..p], TagsFrom(s, q + 1));
  }

  /** The last tag, when no quote closes it. */
  lemma ScanLast(s: string, tags: seq<string>, cur: nat, p: nat)
    requires Scanned(s, tags, cur)
    requires FindChar(s, '\'', cur) == Some(p) && FindChar(s, '\'', p + 1) == None
    ensures tags + [s[cur..p]] == WerTags(s)
  {
    TagsFromLast(s, cur, p);
  }

  method GetWerTags(werTagsStr: string) returns (werTags: seq<string>)
    ensures werTags == WerTags(werTagsStr)
  {
    werTags := [];
    if IsEmptyList(werTagsStr) {
      return;
    }
    var currentPos: nat := 2;
    var pos := FindChar(werTagsStr, '\'', currentPos);
    while pos.Some?
      invariant pos == FindChar(werTagsStr, '\'', currentPos)
      invariant Scanned(werTagsStr, werTags, currentPos)
      decreases |werTagsStr| - currentPos
    {
      var p := pos.value;
      var tag := werTagsStr[currentPos .. p];
      var next := FindChar(werTagsStr, '\'', p + 1);
      // npos + 1 wraps around to 0
      var afterNext := if next.Some? then next.value + 1 else 0;
      if afterNext == 0 {
        ScanLast(werTagsStr, werTags, currentPos, p);
        werTags := werTags + [tag];
        return;
      }
      ScanNext(werTagsStr, werTags, currentPos, p, afterNext - 1);
      werTags := werTags + [tag];
      currentPos := afterNext;
      pos := FindChar(werTagsStr, '\'', currentPos);
    }
    assert TagsFrom(werTagsStr, currentPos) == [];
  }

  /** A tag without quotes that ends at a quote is found up to that quote. */
  lemma QuoteScan(s: string, c: nat, t: string)
    requires c + |t| < |s| && s[c .. c + |t|] == t && NoQuote(t) && s[c + |t|] == '\''
    ensures FindChar(s, '\'', c) == Some(c + |t|)
  {
    forall j | c <= j < c + |t| ensures s[j] != '\'' {
      assert s[j] == s[c .. c + |t|][j - c];
    }
    FindCharFirst(s, '\'', c, c + |t|);
  }

  /** The last tag: it runs up to a quote, and only the closing bracket follows. */
  lemma TagsFromEnd(s: string, c: nat, t: string)
    requires c + |t| + 2 == |s| && s[c .. c + |t|] == t && NoQuote(t)
    requires s[c + |t|] == '\'' && s[c + |t| + 1] == ']'
    ensures TagsFrom(s, c) == [t]
  {
    QuoteScan(s, c, t);
    assert FindChar(s, '\'', c + |t| + 1) == None;
    TagsFromLast(s, c, c + |t|);
  }

  /** A tag that runs up to a quote, followed by a comma, a space and the next opening quote. */
  lemma TagsFromStep(s: string, c: nat, t: string)
    requires c + |t| + 4 <= |s| && s[c .. c + |t|] == t && NoQuote(t)
    requires s[c + |t|] == '\'' && s[c + |t| + 1] == ',' && s[c + |t| + 2] == ' '
    requires s[c + |t| + 3] == '\''
    ensures TagsFrom(s, c) == [t] + TagsFrom(s, c + |t| + 4)
  {
    var e := c + |t|;
    QuoteScan(s, c, t);
    FindCharFirst(s, '\'', e + 1, e + 3);
    TagsFromNext(s, c, e, e + 3);
  }

  /** The text from one before `c` is a quoted tag followed by `tail`. */
  lemma QuotedAt(s: string, c: nat, t: string, tail: string)
    requires 0 < c <= |s| && s[c - 1 ..] == Quote(t) + tail
    ensures |s| == c + |t| + 1 + |tail| && s[c .. c + |t|] == t && s[c + |t|] == '\''
    ensures s[c + |t| + 1 ..] == tail
  {
    var u := Quote(t) + tail;
    assert u[1 .. |t| + 1] == t;
    assert u[|t| + 2 ..] == tail;
    SuffixSlice(s, c - 1, 1, |t| + 1);
    SuffixSlice(s, c - 1, |t| + 2, |u|);
  }

  /** The text from `k` is a separator, the rest of the list and the closing bracket. */
  lemma SeparatorAt(s: string, k: nat, rest: string)
    requires k <= |s| && s[k ..] == ", " + rest + "]"
    ensures k + 3 <= |s| && s[k] == ',' && s[k + 1] == ' ' && s[k + 2 ..] == rest + "]"
  {
    SuffixSlice(s, k, 2, |s| - k);
  }

  /** The quoted list without its first element. */
  lemma QuotedTail(ts: seq<string>)
    requires |ts| > 0
    ensures Quoted(ts)[1..] == Quoted(ts[1..])
  {
  }

  /** The first tag `t` of a list of two or more, and where the rest of the list starts. */
  lemma ListHead(s: string, c: nat, ts: seq<string>, t: string)
    requires 0 < c <= |s| && |ts| > 1 && t == ts[0] && NoQuote(t)
    requires s[c - 1 ..] == JoinRef(Quoted(ts), ", ") + "]"
    ensures c + |t| + 4 <= |s|
    ensures TagsFrom(s, c) == [t] + TagsFrom(s, c + |t| + 4)
    ensures s[c + |t| + 3 ..] == JoinRef(Quoted(ts[1..]), ", ") + "]"
  {
    var rest := JoinRef(Quoted(ts[1..]), ", ");
    QuotedTail(ts);
    assert JoinRef(Quoted(ts), ", ") == Quote(t) + ", " + rest;
    Regroup(Quote(t), ", ", rest, "]");
    QuotedAt(s, c, t, ", " + rest + "]");
    SeparatorAt(s, c + |t| + 1, rest);
    assert rest[0] == '\'';
    TagsFromStep(s, c, t);
  }

  /** The text from one before `c` is a quoted tag list and its closing bracket: the tags
    * from `c` are the list. */
  lemma {:induction false} TagsFromList(s: string, c: nat, ts: seq<string>)
    requires 0 < c <= |s| && |ts| > 0
    requires forall i :: 0 <= i < |ts| ==> NoQuote(ts[i])
    requires s[c - 1 ..] == JoinRef(Quoted(ts), ", ") + "]"
    ensures TagsFrom(s, c) == ts
    decreases |ts|
  {
    var t := ts[0];
    assert NoQuote(t);
    if |ts| == 1 {
      assert JoinRef(Quoted(ts), ", ") == Quote(t);
      QuotedAt(s, c, t, "]");
      TagsFromEnd(s, c, t);
    } else {
      ListHead(s, c, ts, t);
      TagsFromList(s, c + |t| + 4, ts[1..]);
      ConsBack(ts, t, TagsFrom(s, c + |t| + 4));
    }
  }

  /** The text of a non-empty tag list past its opening bracket. */
  lemma TagsText(ts: seq<string>, s: string)
    requires |ts| > 0 && s == FormatTags(ts)
    ensures 2 < |s| && s[1..] == JoinRef(Quoted(ts), ", ") + "]"
  {
    var j := JoinRef(Quoted(ts), ", ");
    JoinLength(Quoted(ts), ", ");
    Assoc("[", j, "]");
    DropOne("[", j + "]");
  }

  /** A tag list written as ['t1', 't2', ...] is read back unchanged. */
  lemma WerTagsRoundTrip(ts: seq<string>)
    requires forall i :: 0 <= i < |ts| ==> NoQuote(ts[i])
    ensures WerTags(FormatTags(ts)) == ts
  {
    if |ts| > 0 {
      var s := FormatTags(ts);
      TagsText(ts, s);
      TagsFromList(s, 2, ts);
    }
  }

  lemma JoinLength(qs: seq<string>, sep: string)
    requires |qs| > 0 && |qs[0]| > 0
    ensures |JoinRef(qs, sep)| > 0
  {
  }

  /** The example of the source's comment. */
  lemma WerTagsExample(s: string)
    requires s == "['89', '90', '100']"
    ensures WerTags(s) == ["89", "90", "100"]
  {
    assert |s| == 19;
    assert s[2 .. 4] == "89" && NoQuote("89");
    assert s[4] == '\'' && s[5] == ',' && s[6] == ' ' && s[7] == '\'';
    WerTagsExampleRest(s);
    TagsFromStep(s, 2, "89");
  }

  /** The tags of the example after its first one. */
  lemma WerTagsExampleRest(s: string)
    requires s == "['89', '90', '100']"
    ensures TagsFrom(s, 8) == ["90", "100"]
  {
    assert s[8 .. 10] == "90" && NoQuote("90");
    assert s[10] == '\'' && s[11] == ',' && s[12] == ' ' && s[13] == '\'';
    WerTagsExampleLast(s);
    TagsFromStep(s, 8, "90");
  }

  /** The last tag of the example. */
  lemma WerTagsExampleLast(s: string)
    requires s == "['89', '90', '100']"
    ensures TagsFrom(s, 14) == ["100"]
  {
    assert s[14 .. 17] == "100" && NoQuote("100");
    assert s[17] == '\'' && s[18] == ']';
    TagsFromEnd(s, 14, "100");
  }
}
