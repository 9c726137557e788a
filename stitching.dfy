// The stitching of src/fstalign.cpp: make_stitches turns the traversal of the best alignment into
// one stitch per token pair, carrying the original spelling of the hypothesis word, and
// align_stitches_to_nlp attaches the rows of the reference NLP file to the stitches, one class run
// at a time.
module Stitching {
  import opened Wrappers
  import opened Strings
  import opened Alignment
  import opened Traversal
  import opened Synonyms
  import Loaders

  /** RawNlpRecord: one row of an NLP file, every column kept as text. */
  datatype NlpRecord = NlpRecord(token: string, speakerId: string, punctuation: string,
                                 prepunctuation: string, ts: string, endTs: string, casing: string,
                                 labels: string, bestLabel: string, bestLabelId: string,
                                 werTags: seq<string>)

  /** A default-constructed record. */
  const EMPTY_RECORD := NlpRecord("", "", "", "", "", "", "", "", "", "", [])

  /** Stitching: the two words, their class, the NLP row attached to them, the original spelling of
    * the hypothesis word and a comment on the edit. */
  datatype Stitch = Stitch(reftk: string, hyptk: string, classLabel: string, nlpRow: NlpRecord,
                           hypOrig: string, comment: string)

  /** The rows the hypothesis came from; each source is read only when it is not empty. */
  datatype HypRows = HypRows(ctmRows: seq<Loaders.CtmRecord>, nlpRows: seq<NlpRecord>, oneBest: seq<string>)

  // ---------------------------------------------------------------------------------------
  // make_stitches

  /** The comment of a new stitch: "ins", "del" or "sub(hyp)", where the deletion test is made
    * again after the first choice and so wins over an insertion. */
  function EditComment(ref: string, hyp: string): string
  {
    var first := if ref == INS then "ins"
                 else if hyp == DEL then "del"
                 else if hyp != ref then "sub(" + hyp + ")"
                 else "";
    if hyp == DEL then "del" else first
  }

  /** The comment starts with "ins" exactly for an insertion that is not also a deletion, so the
    * NLP pass skips exactly those stitches; "del" marks exactly the deletions; an unmarked stitch
    * is a match. */
  lemma EditCommentKinds(ref: string, hyp: string)
    ensures StartsWith(EditComment(ref, hyp), "ins") <==> ref == INS && hyp != DEL
    ensures EditComment(ref, hyp) == "del" <==> hyp == DEL
    ensures EditComment(ref, hyp) == "" <==> ref == hyp && ref != INS && hyp != DEL
  {
    var c := EditComment(ref, hyp);
    if ref != INS && hyp != DEL && hyp != ref {
      assert c[0] == 's';
    }
    if hyp == DEL {
      assert c[0] == 'd';
    }
  }

  /** The NLP pass skips exactly the stitches of insertions that are not also deletions. */
  lemma InsertionStitch(t: Triple, orig: string)
    ensures StartsWith(NewStitch(t, orig).comment, "ins") <==> t.ref == INS && t.hyp != DEL
  {
    EditCommentKinds(t.ref, t.hyp);
  }

  /** A pair consumes a hypothesis row unless it is a deletion or a no-op. */
  predicate Consumes(t: Triple)
  {
    t.hyp != DEL && t.ref != NOOP
  }

  /** How many of the pairs consume a hypothesis row. */
  function HypCount(ts: seq<Triple>): (r: nat)
    ensures r <= |ts|
  {
    if |ts| == 0 then 0 else HypCount(ts[..|ts| - 1]) + (if Consumes(ts[|ts| - 1]) then 1 else 0)
  }

  /** Every non-empty source has at least n rows. */
  predicate Covers(rows: HypRows, n: nat)
  {
    && (|rows.ctmRows| == 0 || n <= |rows.ctmRows|)
    && (|rows.nlpRows| == 0 || n <= |rows.nlpRows|)
    && (|rows.oneBest| == 0 || n <= |rows.oneBest|)
  }

  /** The original spelling of hypothesis row h: the one-best token, else the NLP token, else the
    * CTM word, else nothing. */
  function Orig(rows: HypRows, h: nat): string
    requires Covers(rows, h + 1)
  {
    if |rows.oneBest| > 0 then rows.oneBest[h]
    else if |rows.nlpRows| > 0 then rows.nlpRows[h].token
    else if |rows.ctmRows| > 0 then rows.ctmRows[h].word
    else ""
  }

  function NewStitch(t: Triple, orig: string): Stitch
  {
    Stitch(t.ref, t.hyp, t.classLabel, EMPTY_RECORD, orig, EditComment(t.ref, t.hyp))
  }

  /** The stitches of a sequence of pairs, the hypothesis rows read in order. */
  function Stitches(ts: seq<Triple>, rows: HypRows): (r: seq<Stitch>)
    requires Covers(rows, HypCount(ts))
    ensures |r| == |ts|
  {
    if |ts| == 0 then []
    else
      var init, t := ts[..|ts| - 1], ts[|ts| - 1];
      Stitches(init, rows) + [NewStitch(t, if Consumes(t) then Orig(rows, HypCount(init)) else "")]
  }

  /** The class of the previous pair, "" before the first. */
  function PrevClass(ts: seq<Triple>): string
  {
    if |ts| == 0 then "" else ts[|ts| - 1].classLabel
  }

  /** The alignment rows the pairs stand for: a global pair is one row, and a class is one row
    * wherever its label differs from the previous pair's. */
  function ClassRows(ts: seq<Triple>): (r: nat)
    ensures r <= |ts|
  {
    if |ts| == 0 then 0
    else
      var init, t := ts[..|ts| - 1], ts[|ts| - 1];
      ClassRows(init) + (if t.classLabel == TK_GLOBAL_CLASS || t.classLabel != PrevClass(init) then 1 else 0)
  }

  lemma {:induction false} HypCountPrefix(ts: seq<Triple>, k: nat)
    requires k <= |ts|
    ensures HypCount(ts[..k]) <= HypCount(ts)
    decreases |ts|
  {
    if k < |ts| {
      HypCountPrefix(ts[..|ts| - 1], k);
      assert ts[..|ts| - 1][..k] == ts[..k];
    } else {
      assert ts[..k] == ts;
    }
  }

  /** Stitch i is pair i with the words, the class and the edit comment of the pair; when the pair
    * consumes a hypothesis row it is the row numbered by the consuming pairs before it. */
  lemma {:induction false} StitchAt(ts: seq<Triple>, rows: HypRows, i: nat)
    requires Covers(rows, HypCount(ts)) && i < |ts|
    ensures Covers(rows, HypCount(ts[..i + 1]))
    ensures Consumes(ts[i]) ==> HypCount(ts[..i]) < HypCount(ts)
    ensures Stitches(ts, rows)[i]
         == NewStitch(ts[i], if Consumes(ts[i]) then Orig(rows, HypCount(ts[..i])) else "")
    decreases |ts|
  {
    HypCountPrefix(ts, i + 1);
    var init := ts[..|ts| - 1];
    assert ts[..i + 1][..i] == ts[..i];
    if i < |ts| - 1 {
      StitchAt(init, rows, i);
      assert init[..i] == ts[..i];
      assert init[..i + 1] == ts[..i + 1];
    } else {
      assert init == ts[..i];
    }
  }

  /** With every pair global, each pair is a row of its own. */
  lemma {:induction false} ClassRowsGlobal(ts: seq<Triple>)
    requires forall k :: 0 <= k < |ts| ==> ts[k].classLabel == TK_GLOBAL_CLASS
    ensures ClassRows(ts) == |ts|
  {
    if |ts| > 0 {
      ClassRowsGlobal(ts[..|ts| - 1]);
    }
  }

  /** For an alignment without entity tokens the row count agrees with the alignment's tokens,
    * which is the check make_stitches logs about. */
  lemma FlatRowsInSync(alignment: WerAlignment)
    requires forall k :: 0 <= k < |alignment.tokens| ==>
      !IsEntityLabel(alignment.tokens[k].0) && !IsEntityLabel(alignment.tokens[k].1)
    ensures ClassRows(Triples(alignment)) == |alignment.tokens|
  {
    RootFromFlat(alignment, 0);
    assert alignment.tokens[0..] == alignment.tokens;
    ClassRowsGlobal(Triples(alignment));
  }

  /** One more pair extends the stitches and the counters of the pairs before it. */
  lemma Snoc(prefix: seq<Triple>, t: Triple, rest: seq<Triple>, rows: HypRows)
    requires Covers(rows, HypCount(prefix + [t] + rest))
    ensures Covers(rows, HypCount(prefix + [t]))
    ensures HypCount(prefix + [t]) == HypCount(prefix) + (if Consumes(t) then 1 else 0)
    ensures Stitches(prefix + [t], rows)
         == Stitches(prefix, rows) + [NewStitch(t, if Consumes(t) then Orig(rows, HypCount(prefix)) else "")]
    ensures ClassRows(prefix + [t])
         == ClassRows(prefix) + (if t.classLabel == TK_GLOBAL_CLASS || t.classLabel != PrevClass(prefix) then 1 else 0)
    ensures PrevClass(prefix + [t]) == t.classLabel
  {
    var ts := prefix + [t] + rest;
    HypCountPrefix(ts, |prefix| + 1);
    assert ts[..|prefix| + 1] == prefix + [t];
    assert (prefix + [t])[..|prefix|] == prefix;
  }

  /** The original spelling as make_stitches picks it, each non-empty source overriding the
    * previous one. */
  method HypOrig(rows: HypRows, h: nat) returns (orig: string)
    requires Covers(rows, h + 1)
    ensures orig == Orig(rows, h)
  {
    orig := "";
    if |rows.ctmRows| > 0 {
      orig := rows.ctmRows[h].word;
    }
    if |rows.nlpRows| > 0 {
      orig := rows.nlpRows[h].token;
    }
    if |rows.oneBest| > 0 {
      orig := rows.oneBest[h];
    }
  }

  /** make_stitches: one stitch per pair of the traversal, with the two counters the function
    * keeps (alignment rows and hypothesis rows) returned alongside. Reading a hypothesis source
    * past its end is undefined in the source, so the sources must cover the pairs. */
  method MakeStitches(alignment: WerAlignment, rows: HypRows)
    returns (stitches: seq<Stitch>, alignedTokensIndex: int, hypRowIndex: int)
    requires Covers(rows, HypCount(Triples(alignment)))
    ensures stitches == Stitches(Triples(alignment), rows)
    ensures alignedTokensIndex == ClassRows(Triples(alignment))
    ensures hypRowIndex == HypCount(Triples(alignment))
  {
    var visitor := new AlignmentTraversor(alignment);
    ghost var all := Triples(alignment);
    ghost var prefix: seq<Triple> := [];
    stitches, alignedTokensIndex, hypRowIndex := [], 0, 0;
    var prevClassLabel := "";
    while true
      invariant visitor.Valid() && all == prefix + visitor.Remaining()
      invariant Covers(rows, HypCount(prefix))
      invariant stitches == Stitches(prefix, rows)
      invariant alignedTokensIndex == ClassRows(prefix)
      invariant hypRowIndex == HypCount(prefix)
      invariant prevClassLabel == PrevClass(prefix)
      decreases |visitor.Remaining()|
    {
      ghost var rest := visitor.Remaining();
      var next := visitor.NextTriple();
      if next.None? {
        assert prefix == all;
        break;
      }
      var t := next.value;
      ConsBack(rest, t, visitor.Remaining());
      SnocAppend(prefix, t, visitor.Remaining());
      Snoc(prefix, t, visitor.Remaining(), rows);
      var orig := "";
      if t.hyp != DEL && t.ref != NOOP {
        orig := HypOrig(rows, hypRowIndex);
      }
      stitches := stitches + [NewStitch(t, orig)];
      if t.classLabel == TK_GLOBAL_CLASS || t.classLabel != prevClassLabel {
        alignedTokensIndex := alignedTokensIndex + 1;
      }
      prevClassLabel := t.classLabel;
      if t.hyp != DEL && t.ref != NOOP {
        hypRowIndex := hypRowIndex + 1;
      }
      prefix := prefix + [t];
    }
  }

  // ---------------------------------------------------------------------------------------
  // align_stitches_to_nlp

  /** A stitch the NLP pass steps over: its comment starts with "ins". */
  predicate IsInsertion(st: Stitch)
  {
    StartsWith(st.comment, "ins")
  }

  /** The length of the run of stitches labelled `cls` from a, counting from k: extended while
    * the stitch at a + k carries the label. */
  function StitchRun(s: seq<Stitch>, a: nat, cls: string, k: nat): (r: nat)
    ensures r >= k
    decreases |s| - (a + k)
  {
    if a + k < |s| && s[a + k].classLabel == cls then StitchRun(s, a, cls, k + 1) else k
  }

  /** The run from a stitch over its own label takes in at least that stitch. */
  lemma StitchRunSelf(s: seq<Stitch>, a: nat, k: nat)
    requires a < |s|
    ensures StitchRun(s, a, s[a].classLabel, k) >= 1
  {
    if k == 0 {
      assert StitchRun(s, a, s[a].classLabel, 0) == StitchRun(s, a, s[a].classLabel, 1);
    }
  }

  /** Every stitch the run passes over carries the label... */
  lemma {:induction false} StitchRunCovers(s: seq<Stitch>, a: nat, cls: string, k: nat, j: nat)
    requires a + k <= j < a + StitchRun(s, a, cls, k)
    ensures j < |s| && s[j].classLabel == cls
    decreases |s| - (a + k)
  {
    if j > a + k {
      StitchRunCovers(s, a, cls, k + 1, j);
    }
  }

  /** ... and the run stops at the end or at the first stitch with another label. */
  lemma {:induction false} StitchRunEnds(s: seq<Stitch>, a: nat, cls: string, k: nat)
    ensures a + StitchRun(s, a, cls, k) >= |s| || s[a + StitchRun(s, a, cls, k)].classLabel != cls
    decreases |s| - (a + k)
  {
    if a + k < |s| && s[a + k].classLabel == cls {
      StitchRunEnds(s, a, cls, k + 1);
    }
  }

  /** The class of every NLP row, from its best label. */
  function RowClasses(rows: seq<NlpRecord>): (r: seq<string>)
    ensures |r| == |rows|
  {
    seq(|rows|, i requires 0 <= i < |rows| => GetClassLabel(rows[i].bestLabel))
  }

  /** The length of the run of NLP rows from n whose class (in `classes`) is `cls`, counting
    * from m. */
  function RowRun(classes: seq<string>, n: nat, cls: string, m: nat): (r: nat)
    ensures r >= m
    decreases |classes| - (n + m)
  {
    if n + m < |classes| && classes[n + m] == cls then RowRun(classes, n, cls, m + 1) else m
  }

  /** Every row the run passes over has the class... */
  lemma {:induction false} RowRunCovers(classes: seq<string>, n: nat, cls: string, m: nat, j: nat)
    requires n + m <= j < n + RowRun(classes, n, cls, m)
    ensures j < |classes| && classes[j] == cls
    decreases |classes| - (n + m)
  {
    if j > n + m {
      RowRunCovers(classes, n, cls, m + 1, j);
    }
  }

  /** ... and the run stops at the end or at the first row of another class. */
  lemma {:induction false} RowRunEnds(classes: seq<string>, n: nat, cls: string, m: nat)
    ensures n + RowRun(classes, n, cls, m) >= |classes| || classes[n + RowRun(classes, n, cls, m)] != cls
    decreases |classes| - (n + m)
  {
    if n + m < |classes| && classes[n + m] == cls {
      RowRunEnds(classes, n, cls, m + 1);
    }
  }

  /** The number of decimal digits s starts with. */
  function DigitsLen(s: string): (e: nat)
    ensures e <= |s| && IsDigits(s[..e])
    ensures e == |s| || !('0' <= s[e] <= '9')
  {
    if |s| > 0 && '0' <= s[0] <= '9' then
      var e := 1 + DigitsLen(s[1..]);
      assert s[1..][..e - 1] == s[1..e];
      e
    else 0
  }

  /** What a %d conversion on unsigned text yields: the number and the text after it, NoNumber
    * when the text does not start with a digit. */
  datatype Scanned = NoNumber | Number(value: nat, rest: string)

  function ScanNumber(s: string): Scanned
  {
    var e := DigitsLen(s);
    if e == 0 then NoNumber else Number(DigitsValue(s[..e]), s[e..])
  }

  /** A literal of the format: the text after it, None on a mismatch. */
  function ScanLiteral(s: string, lit: string): Option<string>
  {
    if |lit| <= |s| && s[..|lit|] == lit then Some(s[|lit|..]) else None
  }

  /** The two row counts of a synonym path. */
  datatype RowCounts = RowCounts(inNlp: nat, inStitches: nat)

  /** sscanf(label, "___%d_SYN_%d-%d___", &id, &rowsInNlp, &rowsInStitches): the two row counts
    * of a synonym path, each left at 1 when the scan stops before reaching it. */
  function SynCounts(lbl: string): RowCounts
  {
    match ScanLiteral(lbl, "___")
    case None => RowCounts(1, 1)
    case Some(s1) =>
      match ScanNumber(s1)
      case NoNumber => RowCounts(1, 1)
      case Number(_, s2) =>
        match ScanLiteral(s2, "_SYN_")
        case None => RowCounts(1, 1)
        case Some(s3) =>
          match ScanNumber(s3)
          case NoNumber => RowCounts(1, 1)
          case Number(inNlp, s4) =>
            var inStitches :=
              match ScanLiteral(s4, "-")
              case None => 1
              case Some(s5) => (match ScanNumber(s5) case NoNumber => 1 case Number(x, _) => x);
            RowCounts(inNlp, inStitches)
  }

  lemma {:induction false} DigitsLenOf(d: string, rest: string)
    requires IsDigits(d) && (rest == [] || !('0' <= rest[0] <= '9'))
    ensures DigitsLen(d + rest) == |d|
    decreases |d|
  {
    if |d| > 0 {
      assert (d + rest)[0] == d[0];
      assert (d + rest)[1..] == d[1..] + rest;
      DigitsLenOf(d[1..], rest);
    } else {
      assert d + rest == rest;
    }
  }

  /** A literal is matched and skipped. */
  lemma ScanLiteralOf(lit: string, rest: string)
    ensures ScanLiteral(lit + rest, lit) == Some(rest)
  {
    assert (lit + rest)[..|lit|] == lit;
    assert (lit + rest)[|lit|..] == rest;
  }

  /** A run of digits not followed by another digit is read as its value. */
  lemma ScanNumberOf(d: string, rest: string)
    requires |d| > 0 && IsDigits(d) && (rest == [] || !('0' <= rest[0] <= '9'))
    ensures ScanNumber(d + rest) == Number(DigitsValue(d), rest)
  {
    DigitsLenOf(d, rest);
    assert (d + rest)[..|d|] == d;
    assert (d + rest)[|d|..] == rest;
  }

  /** The scan reads back the two counts the synonym engine writes into the label of a
    * synonym path. */
  lemma SynCountsOfLabel(n: nat, lhsLen: nat, altLen: nat)
    ensures SynCounts(SynLabel(n, lhsLen, altLen)) == RowCounts(lhsLen, altLen)
  {
    var id, l, x := NatToString(n), NatToString(lhsLen), NatToString(altLen);
    var s5 := x + "___";
    var s4 := "-" + s5;
    var s3 := l + s4;
    var s2 := "_SYN_" + s3;
    var s1 := id + s2;
    RightNest("SYN_", l, "-", x, "___");
    assert SynTail(lhsLen, altLen) == "SYN_" + s3;
    assert "_" + ("SYN_" + s3) == s2;
    Regroup("___", id, "_", "SYN_" + s3);
    assert SynLabel(n, lhsLen, altLen) == "___" + s1;
    ScanLiteralOf("___", s1);
    ScanNumberOf(id, s2);
    ScanLiteralOf("_SYN_", s3);
    ScanNumberOf(l, s4);
    ScanLiteralOf("-", s5);
    ScanNumberOf(x, "___");
    DigitsOfNat(lhsLen);
    DigitsOfNat(altLen);
  }

  lemma RightNest<T>(a: seq<T>, b: seq<T>, c: seq<T>, d: seq<T>, e: seq<T>)
    ensures a + b + c + d + e == a + (b + (c + (d + e)))
  {
  }

  /** A stitch with a row attached and a tag appended to its comment. */
  function Attach(st: Stitch, row: NlpRecord, tag: string): Stitch
  {
    st.(nlpRow := row, comment := st.comment + tag)
  }

  /** ",direct": the k stitches from a get the k rows from n, in order. */
  function Direct(s: seq<Stitch>, rows: seq<NlpRecord>, a: nat, n: nat, k: nat): (r: seq<Stitch>)
    requires a + k <= |s| && n + k <= |rows|
  {
    seq(|s|, i requires 0 <= i < |s| =>
      if a <= i < a + k then Attach(s[i], rows[n + (i - a)], ",direct") else s[i])
  }

  /** ",push_last": one row over k >= 2 stitches; the first keeps the row's casing, the middle
    * ones get the row lower-cased and without punctuation, the last the full row lower-cased. */
  function PushLast(s: seq<Stitch>, part: NlpRecord, a: nat, k: nat): (r: seq<Stitch>)
    requires 2 <= k && a + k <= |s|
  {
    var bare := part.(punctuation := "", prepunctuation := "", casing := "LC");
    seq(|s|, i requires 0 <= i < |s| =>
      if i == a then Attach(s[i], bare.(casing := part.casing), ",push_last")
      else if a < i < a + k - 1 then Attach(s[i], bare, ",push_last")
      else if i == a + k - 1 then Attach(s[i], part.(casing := "LC"), ",push_last")
      else s[i])
  }

  /** The row given to the middle stitches of a split: only the speaker, the labels and the WER
    * tags of the first row, lower-cased. */
  function Filler(part: NlpRecord): NlpRecord
  {
    EMPTY_RECORD.(speakerId := part.speakerId, casing := "LC", labels := part.labels, werTags := part.werTags)
  }

  /** ",split_worst": the first stitch gets the first row, the last stitch the last row and the
    * ones between a filler; a lone stitch gets the first row with the last row's punctuation. */
  function SplitWorst(s: seq<Stitch>, part: NlpRecord, last: NlpRecord, a: nat, k: nat): (r: seq<Stitch>)
    requires 1 <= k && a + k <= |s|
  {
    if k == 1 then s[a := Attach(s[a], part.(punctuation := last.punctuation), ",split_worst")]
    else
      seq(|s|, i requires 0 <= i < |s| =>
        if i == a then Attach(s[i], part, ",split_worst")
        else if a < i < a + k - 1 then Attach(s[i], Filler(part), ",split_worst")
        else if i == a + k - 1 then Attach(s[i], last, ",split_worst")
        else s[i])
  }

  /** The stitches, the stitch index and the NLP row index of the pass. */
  datatype Cursor = Cursor(s: seq<Stitch>, a: nat, n: nat)

  /** A class run of k stitches against m rows from a and n: one to one, directly, pushed onto the
    * last stitch or split between the first and last; None where the source would read past the
    * end of either vector. */
  function Place(s: seq<Stitch>, rows: seq<NlpRecord>, a: nat, n: nat, m: nat, k: nat): (r: Option<Cursor>)
    requires a < |s| && n < |rows| && k >= 1
    ensures r.Some? ==> |r.value.s| == |s| && a < r.value.a <= |s|
  {
    if m == k && k == 1 then Some(Cursor(s[a := s[a].(nlpRow := rows[n])], a + 1, n + 1))
    else if m == k then
      if a + k <= |s| && n + k <= |rows| then Some(Cursor(Direct(s, rows, a, n, k), a + k, n + k)) else None
    else if m == 1 then
      if a + k <= |s| then Some(Cursor(PushLast(s, rows[n], a, k), a + k, n + 1)) else None
    else if 1 <= n + m <= |rows| && a + k <= |s| then
      Some(Cursor(SplitWorst(s, rows[n], rows[n + m - 1], a, k), a + k, n + m))
    else None
  }

  /** A synonym path: the row counts written into the label, the stitch count extended over
    * the following stitches with the same label. */
  function SynStep(s: seq<Stitch>, rows: seq<NlpRecord>, a: nat, n: nat): (r: Option<Cursor>)
    requires a < |s| && n < |rows|
    ensures r.Some? ==> |r.value.s| == |s| && a < r.value.a <= |s|
  {
    var cls := s[a].classLabel;
    var counts := SynCounts(cls);
    StitchRunSelf(s, a, counts.inStitches);
    Place(s, rows, a, n, counts.inNlp, StitchRun(s, a, cls, counts.inStitches))
  }

  /** A class outside a synonym path: the run of stitches with the stitch's label against the
    * run of rows with the row's class. */
  function ClassStep(s: seq<Stitch>, rows: seq<NlpRecord>, a: nat, n: nat): (r: Option<Cursor>)
    requires a < |s| && n < |rows|
    ensures r.Some? ==> |r.value.s| == |s| && a < r.value.a <= |s|
  {
    Place(s, rows, a, n, RowRun(RowClasses(rows), n, GetClassLabel(rows[n].bestLabel), 1), StitchRun(s, a, s[a].classLabel, 1))
  }

  /** One turn of the loop at stitch a and NLP row n: an insertion is skipped; otherwise the
    * row at n (None when there is none) goes to a synonym path, to a class, or directly to the
    * stitch. */
  function Step(s: seq<Stitch>, rows: seq<NlpRecord>, a: nat, n: nat): (r: Option<Cursor>)
    requires a < |s|
    ensures r.Some? ==> |r.value.s| == |s| && a < r.value.a <= |s|
  {
    if IsInsertion(s[a]) then Some(Cursor(s, a + 1, n))
    else if n >= |rows| then None
    else if Find(s[a].classLabel, "_SYN_").Some? then SynStep(s, rows, a, n)
    else if s[a].classLabel != TK_GLOBAL_CLASS || GetClassLabel(rows[n].bestLabel) != "" then ClassStep(s, rows, a, n)
    else Some(Cursor(s[a := s[a].(nlpRow := rows[n])], a + 1, n + 1))
  }

  /** The pass from stitch a and row n to the end; None where the source reads out of range. */
  function Align(s: seq<Stitch>, rows: seq<NlpRecord>, a: nat, n: nat): (r: Option<seq<Stitch>>)
    ensures r.Some? ==> |r.value| == |s|
    decreases |s| - a
  {
    if a >= |s| then Some(s)
    else
      match Step(s, rows, a, n)
      case None => None
      case Some(c) => Align(c.s, rows, c.a, c.n)
  }

  /** The stitch y is the stitch x with, at most, another NLP row and one tag of the pass appended
    * to its comment. */
  predicate Retagged(x: Stitch, y: Stitch)
  {
    && y == x.(nlpRow := y.nlpRow, comment := y.comment)
    && (|| y.comment == x.comment || y.comment == x.comment + ",direct"
        || y.comment == x.comment + ",push_last" || y.comment == x.comment + ",split_worst")
  }

  /** A placement changes only the k stitches from a, and only their rows and comments. */
  lemma PlaceKeeps(s: seq<Stitch>, rows: seq<NlpRecord>, a: nat, n: nat, m: nat, k: nat)
    requires a < |s| && n < |rows| && k >= 1 && Place(s, rows, a, n, m, k).Some?
    ensures var c := Place(s, rows, a, n, m, k).value;
      c.a == a + k && forall i :: 0 <= i < |s| ==> if a <= i < c.a then Retagged(s[i], c.s[i]) else c.s[i] == s[i]
  {
    var c := Place(s, rows, a, n, m, k).value;
    if m == k && k == 1 {
    } else if m == k {
      assert c.s == Direct(s, rows, a, n, k);
    } else if m == 1 {
      assert c.s == PushLast(s, rows[n], a, k);
    } else {
      assert c.s == SplitWorst(s, rows[n], rows[n + m - 1], a, k);
    }
  }

  /** A turn changes only the stitches from a up to where it leaves the cursor, and only their
    * rows and comments. */
  lemma StepKeeps(s: seq<Stitch>, rows: seq<NlpRecord>, a: nat, n: nat)
    requires a < |s| && Step(s, rows, a, n).Some?
    ensures var c := Step(s, rows, a, n).value;
      forall i :: 0 <= i < |s| ==> if a <= i < c.a then Retagged(s[i], c.s[i]) else c.s[i] == s[i]
  {
    if !IsInsertion(s[a]) {
      var cls := s[a].classLabel;
      if Find(cls, "_SYN_").Some? {
        var counts := SynCounts(cls);
        StitchRunSelf(s, a, counts.inStitches);
        PlaceKeeps(s, rows, a, n, counts.inNlp, StitchRun(s, a, cls, counts.inStitches));
      } else if cls != TK_GLOBAL_CLASS || GetClassLabel(rows[n].bestLabel) != "" {
        PlaceKeeps(s, rows, a, n, RowRun(RowClasses(rows), n, GetClassLabel(rows[n].bestLabel), 1), StitchRun(s, a, cls, 1));
      }
    }
  }

  /** The pass keeps the words, the classes and the original spellings of every stitch, leaves the
    * stitches before a alone, and adds at most one tag to each comment. */
  lemma {:induction false} AlignKeeps(s: seq<Stitch>, rows: seq<NlpRecord>, a: nat, n: nat)
    requires Align(s, rows, a, n).Some?
    ensures var t := Align(s, rows, a, n).value;
      && |t| == |s|
      && forall i :: 0 <= i < |s| ==> if i < a then t[i] == s[i] else Retagged(s[i], t[i])
    decreases |s| - a
  {
    if a < |s| {
      var c := Step(s, rows, a, n).value;
      StepKeeps(s, rows, a, n);
      AlignKeeps(c.s, rows, c.a, c.n);
    }
  }

  /** How many of the stitches are not insertions, i.e. take an NLP row. */
  function NonIns(xs: seq<Stitch>): (r: nat)
    ensures r <= |xs|
  {
    if |xs| == 0 then 0 else (if IsInsertion(xs[0]) then 0 else 1) + NonIns(xs[1..])
  }

  lemma NonInsCons(s: seq<Stitch>, a: nat, i: nat)
    requires a < i <= |s|
    ensures NonIns(s[a..i]) == (if IsInsertion(s[a]) then 0 else 1) + NonIns(s[a + 1..i])
  {
    assert s[a..i][0] == s[a];
    assert s[a..i][1..] == s[a + 1..i];
  }

  /** The global class is not a synonym path. */
  lemma GlobalNotSynonym()
    ensures Find(TK_GLOBAL_CLASS, "_SYN_").None?
  {
    assert FindFrom(TK_GLOBAL_CLASS, "_SYN_", 2).None?;
    assert TK_GLOBAL_CLASS[1..6][0] == 'l';
    assert TK_GLOBAL_CLASS[0..5][0] == 'g';
  }

  /** The result of the pass without classes from a and n: the insertions untouched, every other
    * stitch given the row numbered by the non-insertions from a before it. */
  predicate PlainResult(s: seq<Stitch>, rows: seq<NlpRecord>, a: nat, n: nat, t: seq<Stitch>)
    requires a <= |s| == |t|
  {
    && (forall i :: a <= i < |s| && IsInsertion(s[i]) ==> t[i] == s[i])
    && (forall i :: a <= i < |s| && !IsInsertion(s[i]) ==>
         && n + NonIns(s[a..i]) < |rows|
         && t[i] == s[i].(nlpRow := rows[n + NonIns(s[a..i])]))
  }

  lemma PlainSkip(s: seq<Stitch>, rows: seq<NlpRecord>, a: nat, n: nat)
    requires a < |s| && IsInsertion(s[a])
    ensures Align(s, rows, a, n) == Align(s, rows, a + 1, n)
  {
  }

  lemma PlainTake(s: seq<Stitch>, rows: seq<NlpRecord>, a: nat, n: nat)
    requires a < |s| && !IsInsertion(s[a]) && s[a].classLabel == TK_GLOBAL_CLASS
    ensures n >= |rows| ==> Align(s, rows, a, n).None?
    ensures n < |rows| && rows[n].bestLabel == "" ==>
      Align(s, rows, a, n) == Align(s[a := s[a].(nlpRow := rows[n])], rows, a + 1, n + 1)
  {
    GlobalNotSynonym();
  }

  lemma PlainResultSkip(s: seq<Stitch>, rows: seq<NlpRecord>, a: nat, n: nat, t: seq<Stitch>)
    requires a < |s| == |t| && IsInsertion(s[a]) && t[a] == s[a]
    requires PlainResult(s, rows, a + 1, n, t)
    ensures PlainResult(s, rows, a, n, t)
  {
    forall i | a < i < |s|
      ensures NonIns(s[a..i]) == NonIns(s[a + 1..i])
    {
      NonInsCons(s, a, i);
    }
  }

  lemma PlainResultTake(s: seq<Stitch>, rows: seq<NlpRecord>, a: nat, n: nat, t: seq<Stitch>)
    requires a < |s| == |t| && !IsInsertion(s[a]) && n < |rows|
    requires t[a] == s[a].(nlpRow := rows[n])
    requires PlainResult(s[a := s[a].(nlpRow := rows[n])], rows, a + 1, n + 1, t)
    ensures PlainResult(s, rows, a, n, t)
  {
    var s' := s[a := s[a].(nlpRow := rows[n])];
    assert s[a..a] == [];
    forall i | a < i < |s|
      ensures NonIns(s[a..i]) == 1 + NonIns(s'[a + 1..i])
    {
      NonInsCons(s, a, i);
      assert s'[a + 1..i] == s[a + 1..i];
    }
  }

  /** The outcome PlainAlign states for the pass from a and n. */
  predicate PlainOutcome(s: seq<Stitch>, rows: seq<NlpRecord>, a: nat, n: nat)
    requires a <= |s|
  {
    && (Align(s, rows, a, n).Some? <==> n + NonIns(s[a..]) <= |rows|)
    && (Align(s, rows, a, n).Some? ==> PlainResult(s, rows, a, n, Align(s, rows, a, n).value))
  }

  lemma PlainEnd(s: seq<Stitch>, rows: seq<NlpRecord>, n: nat)
    requires n <= |rows|
    ensures PlainOutcome(s, rows, |s|, n)
  {
    assert s[|s|..] == [];
  }

  lemma PlainCaseSkip(s: seq<Stitch>, rows: seq<NlpRecord>, a: nat, n: nat)
    requires a < |s| && IsInsertion(s[a]) && PlainOutcome(s, rows, a + 1, n)
    ensures PlainOutcome(s, rows, a, n)
  {
    NonInsCons(s, a, |s|);
    PlainSkip(s, rows, a, n);
    if Align(s, rows, a, n).Some? {
      AlignKeeps(s, rows, a + 1, n);
      PlainResultSkip(s, rows, a, n, Align(s, rows, a, n).value);
    }
  }

  lemma PlainCaseTake(s: seq<Stitch>, rows: seq<NlpRecord>, a: nat, n: nat)
    requires a < |s| && !IsInsertion(s[a]) && s[a].classLabel == TK_GLOBAL_CLASS
    requires n < |rows| && rows[n].bestLabel == ""
    requires PlainOutcome(s[a := s[a].(nlpRow := rows[n])], rows, a + 1, n + 1)
    ensures PlainOutcome(s, rows, a, n)
  {
    var s' := s[a := s[a].(nlpRow := rows[n])];
    NonInsCons(s, a, |s|);
    assert s'[a + 1..] == s[a + 1..];
    PlainTake(s, rows, a, n);
    if Align(s, rows, a, n).Some? {
      AlignKeeps(s', rows, a + 1, n + 1);
      PlainResultTake(s, rows, a, n, Align(s, rows, a, n).value);
    }
  }

  lemma PlainCaseFail(s: seq<Stitch>, rows: seq<NlpRecord>, a: nat, n: nat)
    requires a < |s| && !IsInsertion(s[a]) && s[a].classLabel == TK_GLOBAL_CLASS && n >= |rows|
    ensures PlainOutcome(s, rows, a, n)
  {
    NonInsCons(s, a, |s|);
    PlainTake(s, rows, a, n);
  }

  /** Without classes (every stitch global, no NLP row with a best label) the pass succeeds
    * exactly when there are rows for all stitches that are not insertions, skips the insertions,
    * and gives each other stitch the row numbered by the non-insertions before it. */
  lemma {:induction false} PlainAlign(s: seq<Stitch>, rows: seq<NlpRecord>, a: nat, n: nat)
    requires a <= |s| && n <= |rows|
    requires forall i :: a <= i < |s| ==> s[i].classLabel == TK_GLOBAL_CLASS
    requires forall j :: n <= j < |rows| ==> rows[j].bestLabel == ""
    ensures Align(s, rows, a, n).Some? <==> n + NonIns(s[a..]) <= |rows|
    ensures Align(s, rows, a, n).Some? ==> PlainResult(s, rows, a, n, Align(s, rows, a, n).value)
    decreases |s| - a
  {
    if a == |s| {
      PlainEnd(s, rows, n);
    } else if IsInsertion(s[a]) {
      PlainAlign(s, rows, a + 1, n);
      PlainCaseSkip(s, rows, a, n);
    } else if n < |rows| {
      PlainAlign(s[a := s[a].(nlpRow := rows[n])], rows, a + 1, n + 1);
      PlainCaseTake(s, rows, a, n);
    } else {
      PlainCaseFail(s, rows, a, n);
    }
  }

  // ---------------------------------------------------------------------------------------
  // The pass on the array of stitches

  /** The run of stitches from a with the label `cls`, extended from k0. */
  method StitchRunAt(stitches: array<Stitch>, a: nat, cls: string, k0: nat) returns (k: nat)
    ensures k == StitchRun(stitches[..], a, cls, k0)
  {
    k := k0;
    while a + k < stitches.Length && stitches[a + k].classLabel == cls
      invariant StitchRun(stitches[..], a, cls, k) == StitchRun(stitches[..], a, cls, k0)
      decreases stitches.Length - (a + k)
    {
      k := k + 1;
    }
  }

  /** The run of rows from n of the class `cls`, starting at one row. */
  method RowRunAt(rows: seq<NlpRecord>, n: nat, cls: string) returns (m: nat)
    ensures m == RowRun(RowClasses(rows), n, cls, 1)
  {
    var classes := RowClasses(rows);
    m := 1;
    while n + m < |classes| && classes[n + m] == cls
      invariant RowRun(classes, n, cls, m) == RowRun(classes, n, cls, 1)
      decreases |classes| - (n + m)
    {
      m := m + 1;
    }
  }

  /** ",direct" on the array. */
  method DirectAt(stitches: array<Stitch>, rows: seq<NlpRecord>, a: nat, n: nat, k: nat)
    requires a + k <= stitches.Length && n + k <= |rows|
    modifies stitches
    ensures stitches[..] == Direct(old(stitches[..]), rows, a, n, k)
  {
    var i := 0;
    while i < k
      invariant i <= k
      invariant forall j :: 0 <= j < stitches.Length ==>
        stitches[j] == if a <= j < a + i then Attach(old(stitches[j]), rows[n + (j - a)], ",direct") else old(stitches[j])
    {
      stitches[a + i] := Attach(stitches[a + i], rows[n + i], ",direct");
      i := i + 1;
    }
  }

  /** ",push_last" on the array. */
  method PushLastAt(stitches: array<Stitch>, part: NlpRecord, a: nat, k: nat)
    requires 2 <= k && a + k <= stitches.Length
    modifies stitches
    ensures stitches[..] == PushLast(old(stitches[..]), part, a, k)
  {
    var bare := part.(punctuation := "", prepunctuation := "", casing := "LC");
    stitches[a] := Attach(stitches[a], bare.(casing := part.casing), ",push_last");
    var i := 1;
    while i < k - 1
      invariant 1 <= i <= k - 1
      invariant forall j :: 0 <= j < stitches.Length ==>
        stitches[j] == if j == a then Attach(old(stitches[j]), bare.(casing := part.casing), ",push_last")
                       else if a < j < a + i then Attach(old(stitches[j]), bare, ",push_last")
                       else old(stitches[j])
    {
      stitches[a + i] := Attach(stitches[a + i], bare, ",push_last");
      i := i + 1;
    }
    stitches[a + k - 1] := Attach(stitches[a + k - 1], part.(casing := "LC"), ",push_last");
  }

  /** ",split_worst" on the array. */
  method SplitWorstAt(stitches: array<Stitch>, part: NlpRecord, last: NlpRecord, a: nat, k: nat)
    requires 1 <= k && a + k <= stitches.Length
    modifies stitches
    ensures stitches[..] == SplitWorst(old(stitches[..]), part, last, a, k)
  {
    if k == 1 {
      stitches[a] := Attach(stitches[a], part.(punctuation := last.punctuation), ",split_worst");
      return;
    }
    stitches[a] := Attach(stitches[a], part, ",split_worst");
    var i := 1;
    while i < k - 1
      invariant 1 <= i <= k - 1
      invariant forall j :: 0 <= j < stitches.Length ==>
        stitches[j] == if j == a then Attach(old(stitches[j]), part, ",split_worst")
                       else if a < j < a + i then Attach(old(stitches[j]), Filler(part), ",split_worst")
                       else old(stitches[j])
    {
      stitches[a + i] := Attach(stitches[a + i], Filler(part), ",split_worst");
      i := i + 1;
    }
    stitches[a + k - 1] := Attach(stitches[a + k - 1], last, ",split_worst");
  }

  /** The placement of a class run on the array; false where the source would read out of range. */
  method PlaceAt(stitches: array<Stitch>, rows: seq<NlpRecord>, a: nat, n: nat, m: nat, k: nat)
    returns (ok: bool, a': nat, n': nat)
    requires a < stitches.Length && n < |rows| && k >= 1
    modifies stitches
    ensures var r := Place(old(stitches[..]), rows, a, n, m, k);
      && ok == r.Some?
      && (ok ==> stitches[..] == r.value.s && a' == r.value.a && n' == r.value.n)
  {
    ok, a', n' := true, a + k, n + 1;
    if m == k && k == 1 {
      stitches[a] := stitches[a].(nlpRow := rows[n]);
    } else if m == k {
      if a + k <= stitches.Length && n + k <= |rows| {
        DirectAt(stitches, rows, a, n, k);
        n' := n + k;
      } else {
        ok := false;
      }
    } else if m == 1 {
      if a + k <= stitches.Length {
        PushLastAt(stitches, rows[n], a, k);
      } else {
        ok := false;
      }
    } else if 1 <= n + m <= |rows| && a + k <= stitches.Length {
      SplitWorstAt(stitches, rows[n], rows[n + m - 1], a, k);
      n' := n + m;
    } else {
      ok := false;
    }
  }

  /** One turn of the pass on the array. */
  method StepAt(stitches: array<Stitch>, rows: seq<NlpRecord>, a: nat, n: nat)
    returns (ok: bool, a': nat, n': nat)
    requires a < stitches.Length
    modifies stitches
    ensures var r := Step(old(stitches[..]), rows, a, n);
      && ok == r.Some?
      && (ok ==> stitches[..] == r.value.s && a' == r.value.a && n' == r.value.n)
  {
    var stitch := stitches[a];
    if StartsWith(stitch.comment, "ins") {
      return true, a + 1, n;
    }
    if n >= |rows| {
      return false, a, n;
    }
    var part := rows[n];
    var nlpClass := GetClassLabel(part.bestLabel);
    var inSynonymPath := Find(stitch.classLabel, "_SYN_").Some?;
    var inClassLabel := !inSynonymPath && (stitch.classLabel != TK_GLOBAL_CLASS || nlpClass != "");
    if !inClassLabel && !inSynonymPath {
      stitches[a] := stitch.(nlpRow := part);
      return true, a + 1, n + 1;
    }
    var k, m;
    if inSynonymPath {
      var counts := SynCounts(stitch.classLabel);
      m := counts.inNlp;
      k := StitchRunAt(stitches, a, stitch.classLabel, counts.inStitches);
      StitchRunSelf(stitches[..], a, counts.inStitches);
    } else {
      k := StitchRunAt(stitches, a, stitch.classLabel, 1);
      m := RowRunAt(rows, n, nlpClass);
    }
    ok, a', n' := PlaceAt(stitches, rows, a, n, m, k);
  }

  /** align_stitches_to_nlp: the pass over the stitches in place. It fails exactly where the
    * source would read past the end of the NLP rows or of the stitches, and otherwise leaves the
    * stitches as the pass computes them. */
  method AlignStitchesToNlp(stitches: array<Stitch>, nlpRows: seq<NlpRecord>) returns (ok: bool)
    modifies stitches
    ensures ok == Align(old(stitches[..]), nlpRows, 0, 0).Some?
    ensures ok ==> stitches[..] == Align(old(stitches[..]), nlpRows, 0, 0).value
  {
    var a: nat, n: nat := 0, 0;
    while a < stitches.Length
      invariant Align(stitches[..], nlpRows, a, n) == Align(old(stitches[..]), nlpRows, 0, 0)
      decreases stitches.Length - a
    {
      ghost var before := stitches[..];
      var stepped, a', n' := StepAt(stitches, nlpRows, a, n);
      if !stepped {
        return false;
      }
      assert Align(before, nlpRows, a, n) == Align(stitches[..], nlpRows, a', n');
      a, n := a', n';
    }
    return true;
  }
}
