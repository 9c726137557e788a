// The WER bookkeeping of src/wer.cpp over the aligned stitches: the speaker switch positions, the
// per-speaker, speaker-switch, per-tag and casing counters, the error groups of the side-by-side
// report, and the integer counts behind the precision and recall figures.
module Wer {
  import opened Wrappers
  import opened Strings
  import opened Alignment
  import opened Stitching

  /** WerResult: the counters of one WER figure. */
  datatype WerResult = WerResult(insertions: int, deletions: int, substitutions: int,
                                 numWordsInReference: int, numWordsInHypothesis: int)

  const ZERO := WerResult(0, 0, 0, 0, 0)

  /** Counters added field by field. */
  function Plus(x: WerResult, y: WerResult): WerResult
  {
    WerResult(x.insertions + y.insertions, x.deletions + y.deletions, x.substitutions + y.substitutions,
              x.numWordsInReference + y.numWordsInReference, x.numWordsInHypothesis + y.numWordsInHypothesis)
  }

  /** WerResult::NumErrors. */
  function Errors(w: WerResult): int
  {
    w.insertions + w.substitutions + w.deletions
  }

  /** The errors of a sum are the sum of the errors. */
  lemma ErrorsPlus(x: WerResult, y: WerResult)
    ensures Errors(Plus(x, y)) == Errors(x) + Errors(y)
  {
  }

  /** The edit of a stitch, read from the head of its comment (rfind(x, 0) == 0). */
  predicate IsDeletion(st: Stitch)
  {
    StartsWith(st.comment, "del")
  }

  predicate IsSubstitution(st: Stitch)
  {
    StartsWith(st.comment, "sub")
  }

  function Bit(b: bool): int
  {
    if b then 1 else 0
  }

  /** The entry a map holds for a key, zero counters when it has none. */
  function Lookup(m: map<string, WerResult>, k: string): WerResult
  {
    if k in m then m[k] else ZERO
  }

  /** `if (m.find(k) == m.end()) m[k] = {0, ...}; m[k].x += w.x; ...` */
  function Add(m: map<string, WerResult>, k: string, w: WerResult): WerResult
  {
    Plus(Lookup(m, k), w)
  }

  function Put(m: map<string, WerResult>, k: string, w: WerResult): map<string, WerResult>
  {
    m[k := Add(m, k, w)]
  }

  lemma PlusAssoc(x: WerResult, y: WerResult, z: WerResult)
    ensures Plus(Plus(x, y), z) == Plus(x, Plus(y, z))
  {
  }

  lemma PutLookup(m: map<string, WerResult>, s: string, w: WerResult, k: string)
    ensures Lookup(Put(m, s, w), k) == Plus(Lookup(m, k), if s == k then w else ZERO)
  {
  }

  lemma NonInsSnoc(xs: seq<Stitch>, x: Stitch)
    ensures NonIns(xs + [x]) == NonIns(xs) + (if IsInsertion(x) then 0 else 1)
    decreases |xs|
  {
    if |xs| == 0 {
      assert (xs + [x])[1..] == [];
    } else {
      assert (xs + [x])[1..] == xs[1..] + [x];
      NonInsSnoc(xs[1..], x);
    }
  }

  lemma NonInsPrefix(s: seq<Stitch>, i: nat)
    requires i < |s|
    ensures NonIns(s[..i + 1]) == NonIns(s[..i]) + (if IsInsertion(s[i]) then 0 else 1)
  {
    assert s[..i + 1] == s[..i] + [s[i]];
    NonInsSnoc(s[..i], s[i]);
  }

  // ---------------------------------------------------------------------------------------
  // Speaker segments

  function Speaker(st: Stitch): string
  {
    st.nlpRow.speakerId
  }

  /** The last non-empty speaker of the stitches, "" when there is none. */
  function LastSpeaker(ss: seq<Stitch>): string
  {
    if |ss| == 0 then ""
    else if Speaker(ss[|ss| - 1]) != "" then Speaker(ss[|ss| - 1])
    else LastSpeaker(ss[..|ss| - 1])
  }

  /** The stitch after `before` opens a new speaker segment. */
  predicate Opens(before: seq<Stitch>, st: Stitch)
  {
    Speaker(st) != "" && Speaker(st) != LastSpeaker(before)
  }

  /** ... and that segment follows another one: a speaker switch. */
  predicate Switches(before: seq<Stitch>, st: Stitch)
  {
    Opens(before, st) && LastSpeaker(before) != ""
  }

  /** The speaker switch positions: at each switch, the number of stitches before it that are
    * not insertions (the NLP row the switch falls on). */
  function SwitchRows(ss: seq<Stitch>): seq<int>
  {
    if |ss| == 0 then []
    else
      var init := ss[..|ss| - 1];
      SwitchRows(init) + (if Switches(init, ss[|ss| - 1]) then [NonIns(init)] else [])
  }

  /** The switch positions are non-decreasing and never beyond the number of NLP rows. */
  lemma {:induction false} SwitchRowsSorted(ss: seq<Stitch>)
    ensures forall i, j :: 0 <= i < j < |SwitchRows(ss)| ==> SwitchRows(ss)[i] <= SwitchRows(ss)[j]
    ensures forall i :: 0 <= i < |SwitchRows(ss)| ==> 0 <= SwitchRows(ss)[i] <= NonIns(ss)
  {
    if |ss| > 0 {
      var init := ss[..|ss| - 1];
      SwitchRowsSorted(init);
      assert ss == init + [ss[|ss| - 1]];
      NonInsSnoc(init, ss[|ss| - 1]);
    }
  }

  lemma SwitchRowsSnoc(s: seq<Stitch>, i: nat)
    requires i < |s|
    ensures SwitchRows(s[..i + 1]) == SwitchRows(s[..i]) + (if Switches(s[..i], s[i]) then [NonIns(s[..i])] else [])
    ensures LastSpeaker(s[..i + 1]) == if Speaker(s[i]) != "" then Speaker(s[i]) else LastSpeaker(s[..i])
  {
    assert s[..i + 1][..i] == s[..i];
  }

  /** GetSpeakerSwitchIndices. */
  method GetSpeakerSwitchIndices(stitches: seq<Stitch>) returns (speakerSwitches: seq<int>)
    ensures speakerSwitches == SwitchRows(stitches)
  {
    speakerSwitches := [];
    var lastSpeaker := "";
    var nlpRowIndex := 0;
    for i := 0 to |stitches|
      invariant lastSpeaker == LastSpeaker(stitches[..i])
      invariant nlpRowIndex == NonIns(stitches[..i])
      invariant speakerSwitches == SwitchRows(stitches[..i])
    {
      SwitchRowsSnoc(stitches, i);
      NonInsPrefix(stitches, i);
      var speaker := stitches[i].nlpRow.speakerId;
      if speaker != "" && speaker != lastSpeaker {
        if lastSpeaker != "" {
          speakerSwitches := speakerSwitches + [nlpRowIndex];
        }
        lastSpeaker := speaker;
      }
      if !StartsWith(stitches[i].comment, "ins") {
        nlpRowIndex := nlpRowIndex + 1;
      }
    }
    assert stitches[..|stitches|] == stitches;
  }

  /** The counters one stitch adds to its speaker segment: its edit, and one reference word when
    * its row has a speaker. */
  function Count(st: Stitch): WerResult
  {
    WerResult(Bit(IsInsertion(st)), Bit(IsDeletion(st)), Bit(IsSubstitution(st)), Bit(Speaker(st) != ""), 0)
  }

  /** The counters of all stitches. */
  function Total(ss: seq<Stitch>): WerResult
  {
    if |ss| == 0 then ZERO else Plus(Total(ss[..|ss| - 1]), Count(ss[|ss| - 1]))
  }

  /** The counters of one finished segment, credited to its speaker. */
  datatype Flush = Flush(speaker: string, counts: WerResult)

  /** The state of RecordSpeakerWer: the finished segments, the current speaker and the counters of
    * the open segment. */
  datatype Segments = Segments(flushed: seq<Flush>, last: string, open: WerResult)

  /** One stitch of RecordSpeakerWer: a new non-empty speaker closes the open segment (credited to
    * the previous speaker, if there was one) and starts a new one; the stitch's counters go to
    * the open segment. */
  function SegStep(g: Segments, st: Stitch): Segments
  {
    var h := if Speaker(st) != "" && Speaker(st) != g.last then
               (if g.last != "" then Segments(g.flushed + [Flush(g.last, g.open)], Speaker(st), ZERO)
                else g.(last := Speaker(st)))
             else g;
    h.(open := Plus(h.open, Count(st)))
  }

  /** The segments after the stitches. */
  function SegmentScan(ss: seq<Stitch>): Segments
  {
    if |ss| == 0 then Segments([], "", ZERO) else SegStep(SegmentScan(ss[..|ss| - 1]), ss[|ss| - 1])
  }

  /** Every segment, the open one flushed at the end. */
  function SpeakerFlushes(ss: seq<Stitch>): seq<Flush>
  {
    var g := SegmentScan(ss);
    g.flushed + [Flush(g.last, g.open)]
  }

  /** The flushes added into a map in order. */
  function AddAll(m: map<string, WerResult>, fs: seq<Flush>): map<string, WerResult>
  {
    if |fs| == 0 then m
    else
      var f := fs[|fs| - 1];
      Put(AddAll(m, fs[..|fs| - 1]), f.speaker, f.counts)
  }

  /** The per-speaker results of RecordSpeakerWer. */
  function SpeakerWers(ss: seq<Stitch>): map<string, WerResult>
  {
    AddAll(map[], SpeakerFlushes(ss))
  }

  function SumFlushes(fs: seq<Flush>): WerResult
  {
    if |fs| == 0 then ZERO else Plus(SumFlushes(fs[..|fs| - 1]), fs[|fs| - 1].counts)
  }

  /** The sum of the flushes credited to speaker k. */
  function SumFor(fs: seq<Flush>, k: string): WerResult
  {
    if |fs| == 0 then ZERO
    else Plus(SumFor(fs[..|fs| - 1], k), if fs[|fs| - 1].speaker == k then fs[|fs| - 1].counts else ZERO)
  }

  function FlushSpeakers(fs: seq<Flush>): set<string>
  {
    set i | 0 <= i < |fs| :: fs[i].speaker
  }

  /** One step keeps the counters: what it closes and what stays open add up to what was open
    * plus the stitch. */
  lemma SegStepConserves(g: Segments, st: Stitch)
    ensures Plus(SumFlushes(SegStep(g, st).flushed), SegStep(g, st).open)
         == Plus(Plus(SumFlushes(g.flushed), g.open), Count(st))
  {
    var fs := g.flushed + [Flush(g.last, g.open)];
    if Speaker(st) != "" && Speaker(st) != g.last && g.last != "" {
      assert fs[..|fs| - 1] == g.flushed;
      assert SumFlushes(fs) == Plus(SumFlushes(g.flushed), g.open);
    } else {
      PlusAssoc(SumFlushes(g.flushed), g.open, Count(st));
    }
  }

  /** The segment scan keeps the last non-empty speaker and credits finished segments to real
    * speakers, ... */
  lemma {:induction false} SegmentScanSpeakers(ss: seq<Stitch>)
    ensures SegmentScan(ss).last == LastSpeaker(ss)
    ensures forall i :: 0 <= i < |SegmentScan(ss).flushed| ==> SegmentScan(ss).flushed[i].speaker != ""
  {
    if |ss| > 0 {
      SegmentScanSpeakers(ss[..|ss| - 1]);
    }
  }

  /** ... loses no stitch's counters, ... */
  lemma {:induction false} SegmentScanConserves(ss: seq<Stitch>)
    ensures Plus(SumFlushes(SegmentScan(ss).flushed), SegmentScan(ss).open) == Total(ss)
  {
    if |ss| > 0 {
      SegmentScanConserves(ss[..|ss| - 1]);
      SegStepConserves(SegmentScan(ss[..|ss| - 1]), ss[|ss| - 1]);
    }
  }

  /** ... and closes a segment exactly at each speaker switch. */
  lemma {:induction false} SegmentScanSwitches(ss: seq<Stitch>)
    ensures |SegmentScan(ss).flushed| == |SwitchRows(ss)|
  {
    if |ss| > 0 {
      SegmentScanSwitches(ss[..|ss| - 1]);
      SegmentScanSpeakers(ss[..|ss| - 1]);
    }
  }

  lemma FlushSpeakersSnoc(fs: seq<Flush>)
    requires |fs| > 0
    ensures FlushSpeakers(fs) == FlushSpeakers(fs[..|fs| - 1]) + {fs[|fs| - 1].speaker}
  {
    var init := fs[..|fs| - 1];
    forall x | x in FlushSpeakers(fs)
      ensures x in FlushSpeakers(init) + {fs[|fs| - 1].speaker}
    {
      var i :| 0 <= i < |fs| && fs[i].speaker == x;
      if i < |fs| - 1 {
        assert init[i] == fs[i];
      }
    }
    forall x | x in FlushSpeakers(init)
      ensures x in FlushSpeakers(fs)
    {
      var i :| 0 <= i < |init| && init[i].speaker == x;
      assert fs[i] == init[i];
    }
  }

  /** Adding flushes into a map adds each speaker's sum to its entry... */
  lemma {:induction false} AddAllLookup(m: map<string, WerResult>, fs: seq<Flush>, k: string)
    ensures Lookup(AddAll(m, fs), k) == Plus(Lookup(m, k), SumFor(fs, k))
  {
    if |fs| > 0 {
      var init, f := fs[..|fs| - 1], fs[|fs| - 1];
      AddAllLookup(m, init, k);
      var before := AddAll(m, init);
      PutLookup(before, f.speaker, f.counts, k);
      PlusAssoc(Lookup(m, k), SumFor(init, k), if f.speaker == k then f.counts else ZERO);
    }
  }

  /** ... and creates an entry exactly for the speakers of the flushes. */
  lemma {:induction false} AddAllKeys(m: map<string, WerResult>, fs: seq<Flush>, k: string)
    ensures k in AddAll(m, fs) <==> k in m || k in FlushSpeakers(fs)
  {
    if |fs| > 0 {
      AddAllKeys(m, fs[..|fs| - 1], k);
      FlushSpeakersSnoc(fs);
    }
  }

  /** The per-speaker results: each speaker's entry is the sum of its segments, and only the
    * speakers of segments have one. */
  lemma SpeakerWersLookup(ss: seq<Stitch>, k: string)
    ensures Lookup(SpeakerWers(ss), k) == SumFor(SpeakerFlushes(ss), k)
    ensures k in SpeakerWers(ss) <==> k in FlushSpeakers(SpeakerFlushes(ss))
  {
    AddAllLookup(map[], SpeakerFlushes(ss), k);
    AddAllKeys(map[], SpeakerFlushes(ss), k);
  }

  /** The segments together hold the counters of every stitch. */
  lemma SpeakerFlushesTotal(ss: seq<Stitch>)
    ensures SumFlushes(SpeakerFlushes(ss)) == Total(ss)
  {
    var g := SegmentScan(ss);
    SegmentScanConserves(ss);
    SumFlushesSnoc(g.flushed, Flush(g.last, g.open));
  }

  /** "" has an entry only when no row has a speaker (all counters then go to it). */
  lemma SpeakerWersNoSpeaker(ss: seq<Stitch>)
    ensures "" in SpeakerWers(ss) <==> LastSpeaker(ss) == ""
  {
    var g := SegmentScan(ss);
    SegmentScanSpeakers(ss);
    AddAllKeys(map[], SpeakerFlushes(ss), "");
    LastFlushSpeaker(g.flushed, Flush(g.last, g.open));
  }

  lemma SumFlushesSnoc(fs: seq<Flush>, f: Flush)
    ensures SumFlushes(fs + [f]) == Plus(SumFlushes(fs), f.counts)
  {
    assert (fs + [f])[..|fs|] == fs;
  }

  lemma LastFlushSpeaker(fs: seq<Flush>, f: Flush)
    requires forall i :: 0 <= i < |fs| ==> fs[i].speaker != ""
    ensures "" in FlushSpeakers(fs + [f]) <==> f.speaker == ""
  {
    if "" in FlushSpeakers(fs + [f]) {
      var i :| 0 <= i < |fs| + 1 && (fs + [f])[i].speaker == "";
      assert i == |fs|;
    }
    if f.speaker == "" {
      assert (fs + [f])[|fs|].speaker == "";
    }
  }

  lemma SegmentSnoc(s: seq<Stitch>, i: nat)
    requires i < |s|
    ensures SegmentScan(s[..i + 1]) == SegStep(SegmentScan(s[..i]), s[i])
  {
    assert s[..i + 1][..i] == s[..i];
  }

  lemma AddAllSnoc(m: map<string, WerResult>, fs: seq<Flush>, f: Flush)
    ensures AddAll(m, fs + [f]) == Put(AddAll(m, fs), f.speaker, f.counts)
  {
    assert (fs + [f])[..|fs|] == fs;
  }

  /** One turn of RecordSpeakerWer's loop: flush on a speaker change, then count the stitch. */
  method SpeakerTurn(st: Stitch, speakerWers: map<string, WerResult>, lastSpeaker: string,
                     insertions: int, deletions: int, substitutions: int, numWordsInReference: int,
                     ghost g: Segments)
    returns (speakerWers': map<string, WerResult>, lastSpeaker': string,
             insertions': int, deletions': int, substitutions': int, numWordsInReference': int)
    requires lastSpeaker == g.last && speakerWers == AddAll(map[], g.flushed)
    requires WerResult(insertions, deletions, substitutions, numWordsInReference, 0) == g.open
    ensures lastSpeaker' == SegStep(g, st).last && speakerWers' == AddAll(map[], SegStep(g, st).flushed)
    ensures WerResult(insertions', deletions', substitutions', numWordsInReference', 0) == SegStep(g, st).open
  {
    speakerWers', lastSpeaker' := speakerWers, lastSpeaker;
    insertions', deletions', substitutions', numWordsInReference' := insertions, deletions, substitutions, numWordsInReference;
    var speakerId := st.nlpRow.speakerId;
    if speakerId != "" && speakerId != lastSpeaker {
      if lastSpeaker != "" {
        AddAllSnoc(map[], g.flushed, Flush(lastSpeaker, g.open));
        speakerWers' := Put(speakerWers, lastSpeaker, WerResult(insertions, deletions, substitutions, numWordsInReference, 0));
        insertions', deletions', substitutions', numWordsInReference' := 0, 0, 0, 0;
      }
      lastSpeaker' := speakerId;
    }
    insertions' := insertions' + Bit(IsInsertion(st));
    deletions' := deletions' + Bit(IsDeletion(st));
    substitutions' := substitutions' + Bit(IsSubstitution(st));
    numWordsInReference' := numWordsInReference' + (if speakerId == "" then 0 else 1);
  }

  /** RecordSpeakerWer, without the logging: the per-speaker counters. */
  method RecordSpeakerWer(stitches: seq<Stitch>) returns (speakerWers: map<string, WerResult>)
    ensures speakerWers == SpeakerWers(stitches)
  {
    speakerWers := map[];
    var lastSpeaker := "";
    var insertions, deletions, substitutions, numWordsInReference := 0, 0, 0, 0;
    for i := 0 to |stitches|
      invariant lastSpeaker == SegmentScan(stitches[..i]).last
      invariant WerResult(insertions, deletions, substitutions, numWordsInReference, 0) == SegmentScan(stitches[..i]).open
      invariant speakerWers == AddAll(map[], SegmentScan(stitches[..i]).flushed)
    {
      SegmentSnoc(stitches, i);
      speakerWers, lastSpeaker, insertions, deletions, substitutions, numWordsInReference :=
        SpeakerTurn(stitches[i], speakerWers, lastSpeaker, insertions, deletions, substitutions, numWordsInReference,
                    SegmentScan(stitches[..i]));
    }
    assert stitches[..|stitches|] == stitches;
    ghost var g := SegmentScan(stitches);
    AddAllSnoc(map[], g.flushed, Flush(lastSpeaker, g.open));
    speakerWers := Put(speakerWers, lastSpeaker, WerResult(insertions, deletions, substitutions, numWordsInReference, 0));
  }

  // ---------------------------------------------------------------------------------------
  // Speaker switch WER

  /** The state of RecordSpeakerSwitchWer: the NLP row reached, the current switch and the
    * counters. */
  datatype SwitchState = SwitchState(row: int, k: nat, wer: WerResult)

  /** One stitch against the window [sw[k] - ctx, sw[k] + ctx) of the current switch: inside it a
    * non-insertion is a reference word, and a deletion, else a substitution, else an insertion
    * not at the very start of the window is an error; the row advances past non-insertions, and
    * the switch once the row leaves its window. */
  function SwitchTurn(sw: seq<int>, ctx: int, s: SwitchState, st: Stitch): (r: SwitchState)
    requires s.k < |sw|
    ensures r.k == s.k || r.k == s.k + 1
  {
    var del, ins, sub := IsDeletion(st), IsInsertion(st), IsSubstitution(st);
    var lo, hi := sw[s.k] - ctx, sw[s.k] + ctx;
    var wer := if lo <= s.row < hi then
                 Plus(s.wer, WerResult(Bit(!del && !sub && ins && s.row != lo), Bit(del), Bit(!del && sub), Bit(!ins), 0))
               else s.wer;
    var row := s.row + Bit(!ins);
    SwitchState(row, if row >= hi then s.k + 1 else s.k, wer)
  }

  /** The pass over the stitches, which stops once every switch is consumed. */
  function SwitchScan(sw: seq<int>, ctx: int, ss: seq<Stitch>): SwitchState
  {
    if |ss| == 0 then SwitchState(0, 0, ZERO)
    else
      var s := SwitchScan(sw, ctx, ss[..|ss| - 1]);
      if s.k < |sw| then SwitchTurn(sw, ctx, s, ss[|ss| - 1]) else s
  }

  /** The speaker switch WER of the stitches. */
  function SwitchWer(ss: seq<Stitch>, ctx: int): WerResult
  {
    SwitchScan(SwitchRows(ss), ctx, ss).wer
  }

  /** The counters of each kind of stitch. */
  function KindTotals(ss: seq<Stitch>): WerResult
  {
    if |ss| == 0 then ZERO
    else
      var st := ss[|ss| - 1];
      Plus(KindTotals(ss[..|ss| - 1]), WerResult(Bit(IsInsertion(st)), Bit(IsDeletion(st)), Bit(IsSubstitution(st)), Bit(!IsInsertion(st)), 0))
  }

  /** Every counter of the switch pass is between zero and the number of stitches of its kind
    * (reference words: of non-insertions), and the row is the number of non-insertions passed. */
  lemma {:induction false} SwitchScanBounds(sw: seq<int>, ctx: int, ss: seq<Stitch>)
    ensures var s := SwitchScan(sw, ctx, ss); var t := KindTotals(ss);
      && 0 <= s.wer.insertions <= t.insertions && 0 <= s.wer.deletions <= t.deletions
      && 0 <= s.wer.substitutions <= t.substitutions
      && 0 <= s.wer.numWordsInReference <= t.numWordsInReference && s.wer.numWordsInHypothesis == 0
      && 0 <= s.row <= t.numWordsInReference && s.k <= |sw|
  {
    if |ss| > 0 {
      SwitchScanBounds(sw, ctx, ss[..|ss| - 1]);
    }
  }

  /** With a window of no width, or no switch at all, nothing is counted. */
  lemma {:induction false} SwitchScanEmptyWindow(sw: seq<int>, ctx: int, ss: seq<Stitch>)
    requires ctx <= 0 || |sw| == 0
    ensures SwitchScan(sw, ctx, ss).wer == ZERO
  {
    if |ss| > 0 {
      SwitchScanEmptyWindow(sw, ctx, ss[..|ss| - 1]);
    }
  }

  /** Once every switch is consumed, later stitches change nothing. */
  lemma {:induction false} SwitchScanStops(sw: seq<int>, ctx: int, ss: seq<Stitch>, i: nat)
    requires i <= |ss| && SwitchScan(sw, ctx, ss[..i]).k >= |sw|
    ensures SwitchScan(sw, ctx, ss) == SwitchScan(sw, ctx, ss[..i])
    decreases |ss| - i
  {
    if i < |ss| {
      assert ss[..i + 1][..i] == ss[..i];
      SwitchScanStops(sw, ctx, ss, i + 1);
    } else {
      assert ss[..i] == ss;
    }
  }

  /** One turn of the loop of RecordSpeakerSwitchWer, for a switch still to come. */
  method SwitchStep(stitch: Stitch, switchIndices: seq<int>, ctx: int, nlpRowIndex: int, switchNum: nat, wer: WerResult)
    returns (nlpRowIndex': int, switchNum': nat, wer': WerResult)
    requires switchNum < |switchIndices|
    ensures SwitchState(nlpRowIndex', switchNum', wer') == SwitchTurn(switchIndices, ctx, SwitchState(nlpRowIndex, switchNum, wer), stitch)
  {
    var del := StartsWith(stitch.comment, "del");
    var ins := StartsWith(stitch.comment, "ins");
    var sub := StartsWith(stitch.comment, "sub");
    wer' := wer;
    if nlpRowIndex >= switchIndices[switchNum] - ctx && nlpRowIndex < switchIndices[switchNum] + ctx {
      if !ins {
        wer' := wer'.(numWordsInReference := wer'.numWordsInReference + 1);
      }
      if del {
        wer' := wer'.(deletions := wer'.deletions + 1);
      } else if sub {
        wer' := wer'.(substitutions := wer'.substitutions + 1);
      } else if ins && nlpRowIndex != switchIndices[switchNum] - ctx {
        wer' := wer'.(insertions := wer'.insertions + 1);
      }
    }
    nlpRowIndex' := nlpRowIndex;
    if !ins {
      nlpRowIndex' := nlpRowIndex' + 1;
    }
    switchNum' := switchNum;
    if nlpRowIndex' >= switchIndices[switchNum] + ctx {
      switchNum' := switchNum' + 1;
    }
  }

  /** RecordSpeakerSwitchWer, without the logging: the counters within the switch windows. */
  method RecordSpeakerSwitchWer(stitches: seq<Stitch>, speakerSwitchContextSize: int) returns (wer: WerResult)
    ensures wer == SwitchWer(stitches, speakerSwitchContextSize)
  {
    var switchIndices := GetSpeakerSwitchIndices(stitches);
    ghost var sw := switchIndices;
    var nlpRowIndex := 0;
    var switchNum: nat := 0;
    wer := ZERO;
    var i := 0;
    while i < |stitches|
      invariant i <= |stitches|
      invariant SwitchScan(sw, speakerSwitchContextSize, stitches[..i]) == SwitchState(nlpRowIndex, switchNum, wer)
    {
      assert stitches[..i + 1][..i] == stitches[..i];
      if switchNum < |switchIndices| {
        nlpRowIndex, switchNum, wer := SwitchStep(stitches[i], switchIndices, speakerSwitchContextSize, nlpRowIndex, switchNum, wer);
      } else {
        SwitchScanStops(sw, speakerSwitchContextSize, stitches, i);
        return;
      }
      i := i + 1;
    }
    assert stitches[..i] == stitches;
  }

  // ---------------------------------------------------------------------------------------
  // WER per tag

  /** `find_first_not_of(c, from)`: the first position at or after `from` holding another
    * character. */
  function FindNotChar(s: string, c: char, from: nat): (r: Option<nat>)
    ensures r.Some? ==> from <= r.value < |s| && s[r.value] != c
    ensures r.Some? ==> forall j :: from <= j < r.value ==> s[j] == c
    ensures r.None? ==> forall j :: from <= j < |s| ==> s[j] == c
    decreases |s| - from
  {
    if from >= |s| then None
    else if s[from] != c then Some(from)
    else FindNotChar(s, c, from + 1)
  }

  /** The id of a WER tag: what follows the leading '#'s, up to the first '_' or to the end (a
    * missing '_' makes the length argument of substr wrap to the largest size). A tag made only
    * of '#'s makes the start position npos, and substr throws out_of_range. */
  function TagId(tag: string): Result<string>
  {
    match FindNotChar(tag, '#', 0)
    case None => Err("out_of_range")
    case Some(p) =>
      match FindChar(tag, '_', 0)
      case None => Ok(tag[p..])
      case Some(q) => Ok(tag[p..q])
  }

  function Hashes(h: nat): (r: string)
    ensures |r| == h && forall j :: 0 <= j < h ==> r[j] == '#'
  {
    seq(h, _ => '#')
  }

  /** A tag is rejected exactly when it holds nothing but '#'s. */
  lemma TagIdFails(tag: string)
    ensures TagId(tag).Err? <==> forall j :: 0 <= j < |tag| ==> tag[j] == '#'
  {
    if FindNotChar(tag, '#', 0).Some? {
      var p := FindNotChar(tag, '#', 0).value;
      assert tag[p] != '#';
    }
  }

  /** The id of `#...#id_suffix` (or of `#...#id`) is `id`, for an id that does not start with
    * '#' and holds no '_'. */
  lemma TagIdOf(h: nat, id: string, suffix: Option<string>)
    requires id != [] && id[0] != '#' && forall j :: 0 <= j < |id| ==> id[j] != '_'
    ensures TagId(Hashes(h) + id + (if suffix.Some? then "_" + suffix.value else "")) == Ok(id)
  {
    var tail := if suffix.Some? then "_" + suffix.value else "";
    var tag := Hashes(h) + id + tail;
    assert tag[h] == id[0];
    FindNotCharFirst(tag, '#', 0, h);
    if suffix.Some? {
      assert tag[h + |id|] == '_';
      assert forall j :: 0 <= j < h + |id| ==> tag[j] != '_' by {
        forall j | 0 <= j < h + |id|
          ensures tag[j] != '_'
        {
          if j >= h {
            assert tag[j] == id[j - h];
          }
        }
      }
      FindCharFirst(tag, '_', 0, h + |id|);
      assert tag[h .. h + |id|] == id;
    } else {
      assert tag == Hashes(h) + id;
      assert forall j :: 0 <= j < |tag| ==> tag[j] != '_' by {
        forall j | 0 <= j < |tag|
          ensures tag[j] != '_'
        {
          if j >= h {
            assert tag[j] == id[j - h];
          }
        }
      }
      FindCharSpec(tag, '_', 0);
      assert tag[h..] == id;
    }
  }

  lemma {:induction false} FindNotCharFirst(s: string, c: char, from: nat, k: nat)
    requires from <= k < |s| && s[k] != c
    requires forall j :: from <= j < k ==> s[j] == c
    ensures FindNotChar(s, c, from) == Some(k)
    decreases k - from
  {
    if from < k {
      FindNotCharFirst(s, c, from + 1, k);
    }
  }

  /** What one stitch adds to each of its tags. */
  function Contribution(st: Stitch): WerResult
  {
    WerResult(Bit(IsInsertion(st)), Bit(IsDeletion(st)), Bit(IsSubstitution(st)), Bit(!IsInsertion(st)), 0)
  }

  /** The tags of one stitch, each adding `c` to the entry of its id. */
  function TagsInto(m: map<string, WerResult>, tags: seq<string>, c: WerResult): Result<map<string, WerResult>>
  {
    if |tags| == 0 then Ok(m)
    else match TagsInto(m, tags[..|tags| - 1], c)
      case Err(e) => Err(e)
      case Ok(m') =>
        match TagId(tags[|tags| - 1])
        case Err(e) => Err(e)
        case Ok(id) => Ok(Put(m', id, c))
  }

  /** The per-tag counters of the stitches. */
  function TagWers(ss: seq<Stitch>): Result<map<string, WerResult>>
  {
    if |ss| == 0 then Ok(map[])
    else match TagWers(ss[..|ss| - 1])
      case Err(e) => Err(e)
      case Ok(m) => TagsInto(m, ss[|ss| - 1].nlpRow.werTags, Contribution(ss[|ss| - 1]))
  }

  /** `c` once per tag of id `id`. */
  function TagSum(tags: seq<string>, id: string, c: WerResult): WerResult
  {
    if |tags| == 0 then ZERO
    else Plus(TagSum(tags[..|tags| - 1], id, c), if TagId(tags[|tags| - 1]) == Ok(id) then c else ZERO)
  }

  /** The contribution of every stitch once per tag of id `id` it carries. */
  function TagTotal(ss: seq<Stitch>, id: string): WerResult
  {
    if |ss| == 0 then ZERO
    else Plus(TagTotal(ss[..|ss| - 1], id), TagSum(ss[|ss| - 1].nlpRow.werTags, id, Contribution(ss[|ss| - 1])))
  }

  predicate TagsHaveIds(tags: seq<string>)
  {
    forall j :: 0 <= j < |tags| ==> TagId(tags[j]).Ok?
  }

  predicate StitchesHaveIds(ss: seq<Stitch>)
  {
    forall i :: 0 <= i < |ss| ==> TagsHaveIds(ss[i].nlpRow.werTags)
  }

  /** The tags of one stitch succeed iff all have an id. */
  lemma {:induction false} TagsIntoOk(m: map<string, WerResult>, tags: seq<string>, c: WerResult)
    ensures TagsInto(m, tags, c).Ok? <==> TagsHaveIds(tags)
  {
    if |tags| > 0 {
      var init := tags[..|tags| - 1];
      TagsIntoOk(m, init, c);
      assert forall j :: 0 <= j < |init| ==> init[j] == tags[j];
    }
  }

  /** Each id's entry then grows by its share. */
  lemma {:induction false} TagsIntoLookup(m: map<string, WerResult>, tags: seq<string>, c: WerResult, id: string)
    requires TagsInto(m, tags, c).Ok?
    ensures Lookup(TagsInto(m, tags, c).value, id) == Plus(Lookup(m, id), TagSum(tags, id, c))
  {
    if |tags| > 0 {
      var init := tags[..|tags| - 1];
      TagsIntoLookup(m, init, c, id);
      var m' := TagsInto(m, init, c).value;
      var id0 := TagId(tags[|tags| - 1]).value;
      var w := if id0 == id then c else ZERO;
      assert TagsInto(m, tags, c).value == Put(m', id0, c);
      assert TagSum(tags, id, c) == Plus(TagSum(init, id, c), w);
      PutLookup(m', id0, c, id);
      PlusAssoc(Lookup(m, id), TagSum(init, id, c), w);
    }
  }

  /** And the keys grow by the ids. */
  lemma {:induction false} TagsIntoKeys(m: map<string, WerResult>, tags: seq<string>, c: WerResult, id: string)
    requires TagsInto(m, tags, c).Ok?
    ensures id in TagsInto(m, tags, c).value <==> id in m || HasTagId(tags, id)
  {
    if |tags| > 0 {
      var init := tags[..|tags| - 1];
      TagsIntoKeys(m, init, c, id);
      assert forall j :: 0 <= j < |init| ==> init[j] == tags[j];
    }
  }

  /** The pass over the stitches succeeds iff every tag has an id. */
  lemma {:induction false} TagWersOk(ss: seq<Stitch>)
    ensures TagWers(ss).Ok? <==> StitchesHaveIds(ss)
  {
    if |ss| > 0 {
      var init := ss[..|ss| - 1];
      TagWersOk(init);
      assert forall i :: 0 <= i < |init| ==> init[i] == ss[i];
      if TagWers(init).Ok? {
        TagsIntoOk(TagWers(init).value, ss[|ss| - 1].nlpRow.werTags, Contribution(ss[|ss| - 1]));
      }
    }
  }

  /** Each id's entry is then the sum, over the stitches, of the contribution once per tag of
    * that id. */
  lemma {:induction false} TagWersLookup(ss: seq<Stitch>, id: string)
    requires TagWers(ss).Ok?
    ensures Lookup(TagWers(ss).value, id) == TagTotal(ss, id)
  {
    if |ss| > 0 {
      var init := ss[..|ss| - 1];
      TagWersLookup(init, id);
      TagsIntoLookup(TagWers(init).value, ss[|ss| - 1].nlpRow.werTags, Contribution(ss[|ss| - 1]), id);
    }
  }

  /** Some tag of `tags` has the id `id`. */
  predicate HasTagId(tags: seq<string>, id: string)
  {
    exists j :: 0 <= j < |tags| && TagId(tags[j]) == Ok(id)
  }

  /** The keys are exactly the ids of the tags. */
  lemma {:induction false} TagWersKeys(ss: seq<Stitch>, id: string)
    requires TagWers(ss).Ok?
    ensures id in TagWers(ss).value <==> exists i :: 0 <= i < |ss| && HasTagId(ss[i].nlpRow.werTags, id)
  {
    if |ss| > 0 {
      var init := ss[..|ss| - 1];
      var st := ss[|ss| - 1];
      var m := TagWers(init).value;
      assert TagWers(ss) == TagsInto(m, st.nlpRow.werTags, Contribution(st));
      TagWersKeys(init, id);
      TagsIntoKeys(m, st.nlpRow.werTags, Contribution(st), id);
      var here := HasTagId(st.nlpRow.werTags, id);
      assert (exists i :: 0 <= i < |ss| && HasTagId(ss[i].nlpRow.werTags, id))
        <==> (exists i :: 0 <= i < |init| && HasTagId(init[i].nlpRow.werTags, id)) || here
      by {
        assert forall i :: 0 <= i < |init| ==> init[i] == ss[i];
        if exists i :: 0 <= i < |ss| && HasTagId(ss[i].nlpRow.werTags, id) {
          var i :| 0 <= i < |ss| && HasTagId(ss[i].nlpRow.werTags, id);
          if i == |init| {
          assert ss[i] == st;
        }
        }
      }
    }
  }

  /** The entry of one tag, inserted as zero when absent, counting the stitch. */
  method TagEntry(stitch: Stitch, entry: WerResult) returns (r: WerResult)
    ensures r == Plus(entry, Contribution(stitch))
  {
    var del := StartsWith(stitch.comment, "del");
    var ins := StartsWith(stitch.comment, "ins");
    var sub := StartsWith(stitch.comment, "sub");
    r := entry.(insertions := entry.insertions + Bit(ins), deletions := entry.deletions + Bit(del),
                substitutions := entry.substitutions + Bit(sub));
    if !ins {
      r := r.(numWordsInReference := r.numWordsInReference + 1);
    }
  }

  /** The tags of one stitch, one after the other. */
  method TagTurn(stitch: Stitch, werResults: map<string, WerResult>) returns (r: Result<map<string, WerResult>>)
    ensures r == TagsInto(werResults, stitch.nlpRow.werTags, Contribution(stitch))
  {
    var tags := stitch.nlpRow.werTags;
    var m := werResults;
    for j := 0 to |tags|
      invariant TagsInto(werResults, tags[..j], Contribution(stitch)) == Ok(m)
    {
      assert tags[..j + 1][..j] == tags[..j];
      var werTagId := TagId(tags[j]);
      if werTagId.Err? {
        assert TagsInto(werResults, tags[..j + 1], Contribution(stitch)).Err?;
        TagsIntoStops(werResults, tags, Contribution(stitch), j + 1);
        return Err(werTagId.error);
      }
      var id := werTagId.value;
      var entry := TagEntry(stitch, if id in m then m[id] else ZERO);
      assert TagsInto(werResults, tags[..j + 1], Contribution(stitch)) == Ok(Put(m, id, Contribution(stitch)));
      m := m[id := entry];
    }
    assert tags[..|tags|] == tags;
    r := Ok(m);
  }

  /** Once a tag fails, the whole stitch fails. */
  lemma {:induction false} TagsIntoStops(m: map<string, WerResult>, tags: seq<string>, c: WerResult, i: nat)
    requires i <= |tags| && TagsInto(m, tags[..i], c).Err?
    ensures TagsInto(m, tags, c) == TagsInto(m, tags[..i], c)
    decreases |tags| - i
  {
    if i < |tags| {
      assert tags[..i + 1][..i] == tags[..i];
      TagsIntoStops(m, tags, c, i + 1);
    } else {
      assert tags[..i] == tags;
    }
  }

  /** Once a stitch fails, the whole pass fails. */
  lemma {:induction false} TagWersStops(ss: seq<Stitch>, i: nat)
    requires i <= |ss| && TagWers(ss[..i]).Err?
    ensures TagWers(ss) == TagWers(ss[..i])
    decreases |ss| - i
  {
    if i < |ss| {
      assert ss[..i + 1][..i] == ss[..i];
      TagWersStops(ss, i + 1);
    } else {
      assert ss[..i] == ss;
    }
  }

  /** RecordTagWer, without the logging: the counters per tag id, or the exception a tag made
    * only of '#'s raises. */
  method RecordTagWer(stitches: seq<Stitch>) returns (r: Result<map<string, WerResult>>)
    ensures r == TagWers(stitches)
  {
    var werResults: map<string, WerResult> := map[];
    for i := 0 to |stitches|
      invariant TagWers(stitches[..i]) == Ok(werResults)
    {
      assert stitches[..i + 1][..i] == stitches[..i];
      if |stitches[i].nlpRow.werTags| != 0 {
        var next := TagTurn(stitches[i], werResults);
        if next.Err? {
          TagWersStops(stitches, i + 1);
          return next;
        }
        werResults := next.value;
      } else {
        assert stitches[i].nlpRow.werTags == [];
      }
    }
    assert stitches[..|stitches|] == stitches;
    r := Ok(werResults);
  }

  // ---------------------------------------------------------------------------------------
  // Case WER

  /** The token-level casing counters: true and false positives and false negatives, for
    * matching words and, apart, for substitutions. */
  datatype CaseCounts = CaseCounts(tp: int, fp: int, fn: int, subTp: int, subFp: int, subFn: int)

  /** `isupper` in the C locale. */
  predicate IsUpper(c: char)
  {
    'A' <= c <= 'Z'
  }

  function Uppers(s: string): nat
  {
    if |s| == 0 then 0 else Uppers(s[..|s| - 1]) + (if IsUpper(s[|s| - 1]) then 1 else 0)
  }

  predicate HasUpper(s: string)
  {
    exists i :: 0 <= i < |s| && IsUpper(s[i])
  }

  /** Some character is upper-case iff the count of them is positive. */
  lemma {:induction false} HasUpperIff(s: string)
    ensures HasUpper(s) <==> Uppers(s) > 0
  {
    if |s| > 0 {
      var init := s[..|s| - 1];
      HasUpperIff(init);
      assert forall i :: 0 <= i < |init| ==> init[i] == s[i];
      if HasUpper(s) && !IsUpper(s[|s| - 1]) {
        var i :| 0 <= i < |s| && IsUpper(s[i]);
        assert i < |init|;
      }
    }
  }

  /** A stitch the case WER looks at: neither a deletion nor an insertion token. */
  predicate Considered(st: Stitch)
  {
    st.hyptk != DEL && st.reftk != INS
  }

  /** What a considered stitch scores: a lower-case reference scores a false positive when the
    * hypothesis has any upper-case letter and nothing otherwise; any other casing compares the
    * counts of upper-case letters of the reference token and the hypothesis. */
  datatype CaseOutcome = Positive | FalsePositive | FalseNegative | NoScore

  function Outcome(st: Stitch): CaseOutcome
  {
    var hyp, ref := st.hypOrig, st.nlpRow.token;
    if st.nlpRow.casing == "LC" then (if HasUpper(hyp) then FalsePositive else NoScore)
    else if Uppers(ref) == Uppers(hyp) then Positive
    else if Uppers(ref) > Uppers(hyp) then FalseNegative
    else FalsePositive
  }

  /** A considered stitch scores into the matching counters when its tokens agree, into the
    * substitution counters otherwise. */
  function CaseTurn(c: CaseCounts, st: Stitch): CaseCounts
  {
    if !Considered(st) then c
    else
      var o := Outcome(st);
      if st.reftk == st.hyptk then
        c.(tp := c.tp + Bit(o == Positive), fp := c.fp + Bit(o == FalsePositive), fn := c.fn + Bit(o == FalseNegative))
      else
        c.(subTp := c.subTp + Bit(o == Positive), subFp := c.subFp + Bit(o == FalsePositive), subFn := c.subFn + Bit(o == FalseNegative))
  }

  function CaseScan(ss: seq<Stitch>): CaseCounts
  {
    if |ss| == 0 then CaseCounts(0, 0, 0, 0, 0, 0)
    else CaseTurn(CaseScan(ss[..|ss| - 1]), ss[|ss| - 1])
  }

  /** The considered stitches whose tokens agree (or differ), and among them those that score
    * nothing. */
  function Scored(ss: seq<Stitch>, matching: bool): nat
  {
    if |ss| == 0 then 0
    else
      var st := ss[|ss| - 1];
      Scored(ss[..|ss| - 1], matching) + (if Considered(st) && (st.reftk == st.hyptk) == matching then 1 else 0)
  }

  function Unscored(ss: seq<Stitch>, matching: bool): nat
  {
    if |ss| == 0 then 0
    else
      var st := ss[|ss| - 1];
      Unscored(ss[..|ss| - 1], matching)
        + (if Considered(st) && (st.reftk == st.hyptk) == matching && Outcome(st) == NoScore then 1 else 0)
  }

  /** Every considered stitch scores exactly once, in the matching or the substitution
    * counters, except a lower-case reference against a hypothesis with no upper-case letter. */
  lemma {:induction false} CaseScanTotals(ss: seq<Stitch>)
    ensures var c := CaseScan(ss);
      && c.tp >= 0 && c.fp >= 0 && c.fn >= 0 && c.subTp >= 0 && c.subFp >= 0 && c.subFn >= 0
      && c.tp + c.fp + c.fn + Unscored(ss, true) == Scored(ss, true)
      && c.subTp + c.subFp + c.subFn + Unscored(ss, false) == Scored(ss, false)
  {
    if |ss| > 0 {
      CaseScanTotals(ss[..|ss| - 1]);
    }
  }

  /** A lower-case reference never scores a true positive or a false negative. */
  lemma LowerCaseOnlyFalsePositive(st: Stitch)
    requires st.nlpRow.casing == "LC"
    ensures Outcome(st) == FalsePositive <==> Uppers(st.hypOrig) > 0
    ensures Outcome(st) != FalsePositive ==> Outcome(st) == NoScore
  {
    HasUpperIff(st.hypOrig);
  }

  /** The count of upper-case characters, by a loop. */
  method CountUppers(s: string) returns (n: nat)
    ensures n == Uppers(s)
  {
    n := 0;
    for i := 0 to |s|
      invariant n == Uppers(s[..i])
    {
      assert s[..i + 1][..i] == s[..i];
      if IsUpper(s[i]) {
        n := n + 1;
      }
    }
    assert s[..|s|] == s;
  }

  /** The scan for an upper-case character, stopping at the first. */
  method FindUpper(s: string) returns (found: bool)
    ensures found <==> HasUpper(s)
  {
    for i := 0 to |s|
      invariant forall j :: 0 <= j < i ==> !IsUpper(s[j])
    {
      if IsUpper(s[i]) {
        return true;
      }
    }
    return false;
  }

  /** One turn of the loop of RecordCaseWer. */
  method CaseStep(stitch: Stitch, c: CaseCounts) returns (c': CaseCounts)
    ensures c' == CaseTurn(c, stitch)
  {
    c' := c;
    var hyp := stitch.hypOrig;
    var ref := stitch.nlpRow.token;
    if stitch.hyptk == DEL || stitch.reftk == INS {
      return;
    }
    var o: CaseOutcome;
    if stitch.nlpRow.casing == "LC" {
      var upper := FindUpper(hyp);
      o := if upper then FalsePositive else NoScore;
    } else {
      var refUpper := CountUppers(ref);
      var hypUpper := CountUppers(hyp);
      if refUpper == hypUpper {
        o := Positive;
      } else if refUpper > hypUpper {
        o := FalseNegative;
      } else {
        o := FalsePositive;
      }
    }
    if stitch.reftk == stitch.hyptk {
      match o
      case Positive => c' := c'.(tp := c'.tp + 1);
      case FalsePositive => c' := c'.(fp := c'.fp + 1);
      case FalseNegative => c' := c'.(fn := c'.fn + 1);
      case NoScore =>
    } else {
      match o
      case Positive => c' := c'.(subTp := c'.subTp + 1);
      case FalsePositive => c' := c'.(subFp := c'.subFp + 1);
      case FalseNegative => c' := c'.(subFn := c'.subFn + 1);
      case NoScore =>
    }
  }

  /** RecordCaseWer, without the precision and recall ratios and the logging: the counters. */
  method RecordCaseWer(alignedStitches: seq<Stitch>) returns (counts: CaseCounts)
    ensures counts == CaseScan(alignedStitches)
  {
    counts := CaseCounts(0, 0, 0, 0, 0, 0);
    for i := 0 to |alignedStitches|
      invariant counts == CaseScan(alignedStitches[..i])
    {
      assert alignedStitches[..i + 1][..i] == alignedStitches[..i];
      counts := CaseStep(alignedStitches[i], counts);
    }
    assert alignedStitches[..|alignedStitches|] == alignedStitches;
  }

  // ---------------------------------------------------------------------------------------
  // Error groups of the side-by-side output

  /** The sides of a group, an empty one shown as "***" with a space towards the arrow. */
  function RefSide(ref: string): string
  {
    if ref == "" then "*** " else ref
  }

  function HypSide(hyp: string): string
  {
    if hyp == "" then " ***" else hyp
  }

  function GroupText(ref: string, hyp: string): string
  {
    RefSide(ref) + "<->" + HypSide(hyp)
  }

  /** AddErrorGroup: appends the group of the current line and resets the line and both sides
    * for the next group. */
  method AddErrorGroup(groups: seq<(nat, string)>, line: nat, ref: string, hyp: string)
    returns (groups': seq<(nat, string)>, line': nat, ref': string, hyp': string)
    ensures groups' == groups + [(line, GroupText(ref, hyp))]
    ensures line' == 0 && ref' == "" && hyp' == ""
  {
    var r, h := ref, hyp;
    if |r| == 0 {
      r := "*** ";
    }
    if |h| == 0 {
      h := " ***";
    }
    groups' := groups + [(line, r + "<->" + h)];
    line', ref', hyp' := 0, "", "";
  }

  /** When the reference side holds no '<', the first "<->" of the text separates the two sides
    * again, and neither side is empty. */
  lemma GroupTextSplits(ref: string, hyp: string)
    requires forall i :: 0 <= i < |ref| ==> ref[i] != '<'
    ensures var t, n := GroupText(ref, hyp), |RefSide(ref)|;
      && Find(t, "<->") == Some(n) && t[..n] == RefSide(ref) && t[n + 3..] == HypSide(hyp)
      && RefSide(ref) != "" && HypSide(hyp) != ""
  {
    var t, side := GroupText(ref, hyp), RefSide(ref);
    var n := |side|;
    assert forall i :: 0 <= i < n ==> side[i] != '<';
    assert OccursAt(t, "<->", n) by {
      assert t[n .. n + 3] == "<->";
    }
    forall j | 0 <= j < n
      ensures !OccursAt(t, "<->", j)
    {
      assert t[j] == side[j];
    }
    FindIsFirst(t, "<->", n);
    assert t[..n] == side;
    assert t[n + 3..] == HypSide(hyp);
  }

  // ---------------------------------------------------------------------------------------
  // CalculatePrecisionRecall, integer part

  /** `counts[w] += 1`, an absent word starting from 0. */
  function Inc(m: map<string, int>, w: string): map<string, int>
  {
    m[w := Get(m, w) + 1]
  }

  function WordTally(m: map<string, int>, ws: seq<string>): map<string, int>
  {
    if |ws| == 0 then m else Inc(WordTally(m, ws[..|ws| - 1]), ws[|ws| - 1])
  }

  /** Each word's count grows by its number of occurrences, and the keys by the words. */
  lemma {:induction false} WordTallyCount(m: map<string, int>, ws: seq<string>, w: string)
    ensures Get(WordTally(m, ws), w) == Get(m, w) + multiset(ws)[w]
    ensures w in WordTally(m, ws) <==> w in m || w in ws
  {
    if |ws| > 0 {
      var init := ws[..|ws| - 1];
      WordTallyCount(m, init, w);
      assert ws == init + [ws[|ws| - 1]];
    }
  }

  /** The words of a list, as a set. */
  function WordSet(ws: seq<string>): set<string>
  {
    if |ws| == 0 then {} else WordSet(ws[..|ws| - 1]) + {ws[|ws| - 1]}
  }

  lemma {:induction false} WordSetHas(ws: seq<string>, w: string)
    ensures w in WordSet(ws) <==> w in ws
  {
    if |ws| > 0 {
      var init := ws[..|ws| - 1];
      WordSetHas(init, w);
      assert ws == init + [ws[|ws| - 1]];
    }
  }

  /** The word counts per kind and the set of every word seen. */
  datatype WordCounts = WordCounts(correct: map<string, int>, hyp: map<string, int>, del: map<string, int>,
                                   substFp: map<string, int>, substFn: map<string, int>,
                                   ins: map<string, int>, allWords: set<string>)

  const NO_COUNTS := WordCounts(map[], map[], map[], map[], map[], map[], {})

  /** One token pair of UpdateHypCorrectAndAllwords: a valid-ngram hypothesis word counts as
    * correct when it equals the reference word and as a hypothesis word otherwise, and joins the
    * words seen. */
  function HarvestToken(c: WordCounts, t: TokenPair): WordCounts
  {
    var valid := IsValidNgram(t.1);
    var c1 := if t.0 == t.1 && valid then c.(correct := Inc(c.correct, t.0), allWords := c.allWords + {t.0}) else c;
    if t.0 != t.1 && valid then c1.(hyp := Inc(c1.hyp, t.1), allWords := c1.allWords + {t.1}) else c1
  }

  /** The first section whose class label is `cls`. */
  function FirstLabel(ls: seq<WerAlignment>, cls: string): (r: Option<nat>)
    ensures r.Some? ==> r.value < |ls| && ls[r.value].classLabel == cls
    ensures r.None? ==> forall j :: 0 <= j < |ls| ==> ls[j].classLabel != cls
  {
    if |ls| == 0 then None
    else if ls[0].classLabel == cls then Some(0)
    else match FirstLabel(ls[1..], cls)
      case None => None
      case Some(j) => Some(j + 1)
  }

  /** The token pairs UpdateHypCorrectAndAllwords visits from token i on: each token of the
    * alignment, followed, for an entity label on the reference side, by those of the first
    * section of that class. */
  function Visited(a: WerAlignment, i: nat): seq<TokenPair>
    requires i <= |a.tokens|
    decreases a, |a.tokens| - i
  {
    if i == |a.tokens| then []
    else
      var t := a.tokens[i];
      var inner := if IsEntityLabel(t.0) then
                     match FirstLabel(a.labelAlignments, t.0)
                     case None => []
                     case Some(j) => assert a.labelAlignments[j] in a.labelAlignments; Visited(a.labelAlignments[j], 0)
                   else [];
      [t] + inner + Visited(a, i + 1)
  }

  /** The counts after a list of token pairs. */
  function HarvestAll(c: WordCounts, ts: seq<TokenPair>): WordCounts
  {
    if |ts| == 0 then c else HarvestToken(HarvestAll(c, ts[..|ts| - 1]), ts[|ts| - 1])
  }

  lemma {:induction false} HarvestAllAppend(c: WordCounts, xs: seq<TokenPair>, ys: seq<TokenPair>)
    ensures HarvestAll(c, xs + ys) == HarvestAll(HarvestAll(c, xs), ys)
    decreases |ys|
  {
    if |ys| > 0 {
      var init := ys[..|ys| - 1];
      assert (xs + ys)[..|xs + ys| - 1] == xs + init;
      HarvestAllAppend(c, xs, init);
    } else {
      assert xs + ys == xs;
    }
  }

  /** The matching valid words and the differing valid hypothesis words of token pairs. */
  function CorrectWords(ts: seq<TokenPair>): seq<string>
  {
    if |ts| == 0 then []
    else
      var t := ts[|ts| - 1];
      CorrectWords(ts[..|ts| - 1]) + (if t.0 == t.1 && IsValidNgram(t.1) then [t.0] else [])
  }

  function HypWords(ts: seq<TokenPair>): seq<string>
  {
    if |ts| == 0 then []
    else
      var t := ts[|ts| - 1];
      HypWords(ts[..|ts| - 1]) + (if t.0 != t.1 && IsValidNgram(t.1) then [t.1] else [])
  }

  /** Tallying one more word increments that word's count. */
  lemma WordTallySnoc(m: map<string, int>, ws: seq<string>, w: string)
    ensures WordTally(m, ws + [w]) == Inc(WordTally(m, ws), w)
  {
    assert (ws + [w])[..|ws|] == ws;
  }

  /** One more word adds that word to the set. */
  lemma WordSetSnoc(ws: seq<string>, w: string)
    ensures WordSet(ws + [w]) == WordSet(ws) + {w}
  {
    assert (ws + [w])[..|ws|] == ws;
  }

  /** Over a list of token pairs the correct counts are a tally of the matched words. */
  lemma {:induction false} HarvestAllCorrect(c: WordCounts, ts: seq<TokenPair>)
    ensures HarvestAll(c, ts).correct == WordTally(c.correct, CorrectWords(ts))
  {
    if |ts| > 0 {
      var init, t := ts[..|ts| - 1], ts[|ts| - 1];
      HarvestAllCorrect(c, init);
      var before := HarvestAll(c, init);
      assert HarvestAll(c, ts) == HarvestToken(before, t);
      if t.0 == t.1 && IsValidNgram(t.1) {
        assert HarvestAll(c, ts).correct == Inc(before.correct, t.0);
        assert CorrectWords(ts) == CorrectWords(init) + [t.0];
        WordTallySnoc(c.correct, CorrectWords(init), t.0);
      } else {
        assert HarvestAll(c, ts).correct == before.correct;
        assert CorrectWords(ts) == CorrectWords(init);
      }
    }
  }

  /** Over a list of token pairs the hypothesis counts are a tally of the unmatched hypothesis words. */
  lemma {:induction false} HarvestAllHyp(c: WordCounts, ts: seq<TokenPair>)
    ensures HarvestAll(c, ts).hyp == WordTally(c.hyp, HypWords(ts))
  {
    if |ts| > 0 {
      var init, t := ts[..|ts| - 1], ts[|ts| - 1];
      HarvestAllHyp(c, init);
      var before := HarvestAll(c, init);
      assert HarvestAll(c, ts) == HarvestToken(before, t);
      if t.0 != t.1 && IsValidNgram(t.1) {
        assert HarvestAll(c, ts).hyp == Inc(before.hyp, t.1);
        assert HypWords(ts) == HypWords(init) + [t.1];
        WordTallySnoc(c.hyp, HypWords(init), t.1);
      } else {
        assert HarvestAll(c, ts).hyp == before.hyp;
        assert HypWords(ts) == HypWords(init);
      }
    }
  }

  /** The words that join the set are exactly the tallied ones. */
  lemma {:induction false} HarvestAllWords(c: WordCounts, ts: seq<TokenPair>)
    ensures HarvestAll(c, ts).allWords == c.allWords + WordSet(CorrectWords(ts)) + WordSet(HypWords(ts))
  {
    if |ts| > 0 {
      var init, t := ts[..|ts| - 1], ts[|ts| - 1];
      HarvestAllWords(c, init);
      var before := HarvestAll(c, init);
      assert HarvestAll(c, ts) == HarvestToken(before, t);
      if t.0 == t.1 && IsValidNgram(t.1) {
        assert HarvestAll(c, ts).allWords == before.allWords + {t.0};
        assert CorrectWords(ts) == CorrectWords(init) + [t.0];
        WordSetSnoc(CorrectWords(init), t.0);
        assert HypWords(ts) == HypWords(init);
      } else if t.0 != t.1 && IsValidNgram(t.1) {
        assert HarvestAll(c, ts).allWords == before.allWords + {t.1};
        assert HypWords(ts) == HypWords(init) + [t.1];
        WordSetSnoc(HypWords(init), t.1);
        assert CorrectWords(ts) == CorrectWords(init);
      } else {
        assert HarvestAll(c, ts).allWords == before.allWords;
        assert CorrectWords(ts) == CorrectWords(init);
        assert HypWords(ts) == HypWords(init);
      }
    }
  }

  /** Harvesting leaves the error counters alone. */
  lemma {:induction false} HarvestAllKeeps(c: WordCounts, ts: seq<TokenPair>)
    ensures var r := HarvestAll(c, ts);
      r.del == c.del && r.substFp == c.substFp && r.substFn == c.substFn && r.ins == c.ins
  {
    if |ts| > 0 {
      HarvestAllKeeps(c, ts[..|ts| - 1]);
    }
  }

  /** The pass from token i, recursing into the sections named by entity labels. */
  function HarvestFrom(a: WerAlignment, i: nat, c: WordCounts): WordCounts
    requires i <= |a.tokens|
    decreases a, |a.tokens| - i
  {
    if i == |a.tokens| then c
    else
      var t := a.tokens[i];
      var c1 := HarvestToken(c, t);
      var c2 := if IsEntityLabel(t.0) then
                  match FirstLabel(a.labelAlignments, t.0)
                  case None => c1
                  case Some(j) => assert a.labelAlignments[j] in a.labelAlignments; HarvestFrom(a.labelAlignments[j], 0, c1)
                else c1;
      HarvestFrom(a, i + 1, c2)
  }

  /** The recursive pass counts exactly the visited token pairs, in order. */
  lemma {:induction false} HarvestFromVisited(a: WerAlignment, i: nat, c: WordCounts)
    requires i <= |a.tokens|
    ensures HarvestFrom(a, i, c) == HarvestAll(c, Visited(a, i))
    decreases a, |a.tokens| - i
  {
    if i < |a.tokens| {
      var t := a.tokens[i];
      var c1 := HarvestToken(c, t);
      var inner: seq<TokenPair> := [];
      var c2 := c1;
      if IsEntityLabel(t.0) {
        match FirstLabel(a.labelAlignments, t.0)
        case None =>
        case Some(j) =>
          assert a.labelAlignments[j] in a.labelAlignments;
          HarvestFromVisited(a.labelAlignments[j], 0, c1);
          inner := Visited(a.labelAlignments[j], 0);
          c2 := HarvestFrom(a.labelAlignments[j], 0, c1);
      }
      assert HarvestAll(c, [t]) == c1 by {
        assert [t][..0] == [];
      }
      HarvestFromVisited(a, i + 1, c2);
      HarvestAllAppend(c, [t], inner);
      HarvestAllAppend(c, [t] + inner, Visited(a, i + 1));
      assert Visited(a, i) == [t] + inner + Visited(a, i + 1);
    }
  }

  /** The counting of one token pair in UpdateHypCorrectAndAllwords. */
  method HarvestStep(c: WordCounts, t: TokenPair) returns (r: WordCounts)
    ensures r == HarvestToken(c, t)
  {
    r := c;
    var bigramValid := IsValidNgram(t.1);
    if t.0 == t.1 && bigramValid {
      r := r.(correct := r.correct[t.0 := Get(r.correct, t.0) + 1], allWords := r.allWords + {t.0});
    }
    if t.0 != t.1 && bigramValid {
      r := r.(hyp := r.hyp[t.1 := Get(r.hyp, t.1) + 1], allWords := r.allWords + {t.1});
    }
  }

  /** UpdateHypCorrectAndAllwords: the counts of the pass over the tokens. */
  method UpdateHypCorrectAndAllwords(a: WerAlignment, c: WordCounts) returns (r: WordCounts)
    ensures r == HarvestFrom(a, 0, c)
    decreases a
  {
    r := c;
    for i := 0 to |a.tokens|
      invariant HarvestFrom(a, i, r) == HarvestFrom(a, 0, c)
    {
      var t := a.tokens[i];
      r := HarvestStep(r, t);
      if IsEntityLabel(t.0) {
        var found := FirstLabel(a.labelAlignments, t.0);
        if found.Some? {
          assert a.labelAlignments[found.value] in a.labelAlignments;
          r := UpdateHypCorrectAndAllwords(a.labelAlignments[found.value], r);
        }
      }
    }
  }

  /** The deleted, substituted and inserted words of the alignment tallied, and all of them
    * joined to the words seen. */
  function ErrorWordCounts(a: WerAlignment, c: WordCounts): WordCounts
  {
    c.(del := WordTally(c.del, a.delWords),
       substFn := WordTally(c.substFn, Firsts(a.subWords)), substFp := WordTally(c.substFp, Seconds(a.subWords)),
       ins := WordTally(c.ins, a.insWords),
       allWords := c.allWords + WordSet(a.delWords) + WordSet(Firsts(a.subWords)) + WordSet(Seconds(a.subWords))
                   + WordSet(a.insWords))
  }

  /** `counts[word] += 1` and `all_words.insert(word)` for each word. */
  method TallyWords(counts: map<string, int>, allWords: set<string>, words: seq<string>)
    returns (counts': map<string, int>, allWords': set<string>)
    ensures counts' == WordTally(counts, words) && allWords' == allWords + WordSet(words)
  {
    counts', allWords' := counts, allWords;
    for i := 0 to |words|
      invariant counts' == WordTally(counts, words[..i]) && allWords' == allWords + WordSet(words[..i])
    {
      assert words[..i + 1][..i] == words[..i];
      counts' := counts'[words[i] := Get(counts', words[i]) + 1];
      allWords' := allWords' + {words[i]};
    }
    assert words[..|words|] == words;
  }

  /** One pair of the substitution list adds one to each side's count. */
  lemma SubWordsSnoc(substFn: map<string, int>, substFp: map<string, int>, allWords: set<string>, subWords: seq<TokenPair>, i: nat)
    requires i < |subWords|
    ensures WordTally(substFn, Firsts(subWords[..i + 1])) == Inc(WordTally(substFn, Firsts(subWords[..i])), subWords[i].0)
    ensures WordTally(substFp, Seconds(subWords[..i + 1])) == Inc(WordTally(substFp, Seconds(subWords[..i])), subWords[i].1)
    ensures allWords + WordSet(Firsts(subWords[..i + 1])) + WordSet(Seconds(subWords[..i + 1]))
         == allWords + WordSet(Firsts(subWords[..i])) + WordSet(Seconds(subWords[..i])) + {subWords[i].0} + {subWords[i].1}
  {
    assert subWords[..i + 1][..i] == subWords[..i];
    var refs, hyps := Firsts(subWords[..i]), Seconds(subWords[..i]);
    assert Firsts(subWords[..i + 1]) == refs + [subWords[i].0];
    assert Seconds(subWords[..i + 1]) == hyps + [subWords[i].1];
    WordTallySnoc(substFn, refs, subWords[i].0);
    WordTallySnoc(substFp, hyps, subWords[i].1);
    WordSetSnoc(refs, subWords[i].0);
    WordSetSnoc(hyps, subWords[i].1);
  }

  /** The body of the loop over substituted pairs. */
  method SubWordStep(substFn: map<string, int>, substFp: map<string, int>, allWords: set<string>, word: TokenPair)
    returns (substFn': map<string, int>, substFp': map<string, int>, allWords': set<string>)
    ensures substFn' == Inc(substFn, word.0) && substFp' == Inc(substFp, word.1)
    ensures allWords' == allWords + {word.0} + {word.1}
  {
    substFn' := substFn[word.0 := Get(substFn, word.0) + 1];
    substFp' := substFp[word.1 := Get(substFp, word.1) + 1];
    allWords' := allWords + {word.0} + {word.1};
  }

  /** The loop over the substituted pairs: the reference word is a false negative, the
    * hypothesis word a false positive, and both join the words seen. */
  method TallySubWords(substFn: map<string, int>, substFp: map<string, int>, allWords: set<string>, subWords: seq<TokenPair>)
    returns (substFn': map<string, int>, substFp': map<string, int>, allWords': set<string>)
    ensures substFn' == WordTally(substFn, Firsts(subWords)) && substFp' == WordTally(substFp, Seconds(subWords))
    ensures allWords' == allWords + WordSet(Firsts(subWords)) + WordSet(Seconds(subWords))
  {
    substFn', substFp', allWords' := substFn, substFp, allWords;
    for i := 0 to |subWords|
      invariant substFn' == WordTally(substFn, Firsts(subWords[..i])) && substFp' == WordTally(substFp, Seconds(subWords[..i]))
      invariant allWords' == allWords + WordSet(Firsts(subWords[..i])) + WordSet(Seconds(subWords[..i]))
    {
      SubWordsSnoc(substFn, substFp, allWords, subWords, i);
      substFn', substFp', allWords' := SubWordStep(substFn', substFp', allWords', subWords[i]);
    }
    assert subWords[..|subWords|] == subWords;
  }

  /** The counters of one word or bigram. */
  datatype GramCounter = GramCounter(correct: int, del: int, substFp: int, substFn: int, ins: int)

  function CounterOf(c: WordCounts, w: string): GramCounter
  {
    GramCounter(Get(c.correct, w), Get(c.del, w), Get(c.substFp, w), Get(c.substFn, w), Get(c.ins, w))
  }

  function Occurrences(g: GramCounter): int
  {
    g.correct + g.ins + g.del + g.substFp + g.substFn
  }

  /** The words of the kept statistics. */
  function StatWords(stats: seq<(string, GramCounter)>): set<string>
  {
    if |stats| == 0 then {} else StatWords(stats[..|stats| - 1]) + {stats[|stats| - 1].0}
  }

  /** The kept statistics: one entry per word of `words` that occurs at least `threshold` times,
    * carrying that word's counters, and nothing else. */
  predicate StatsOf(stats: seq<(string, GramCounter)>, words: set<string>, c: WordCounts, threshold: int)
  {
    && (forall k :: 0 <= k < |stats| ==>
          stats[k].0 in words && stats[k].1 == CounterOf(c, stats[k].0) && Occurrences(stats[k].1) >= threshold)
    && (forall w :: w in words && Occurrences(CounterOf(c, w)) >= threshold ==> w in StatWords(stats))
    && (forall k, l :: 0 <= k < l < |stats| ==> stats[k].0 != stats[l].0)
  }

  /** A word of the statistics is the word of one of its entries. */
  lemma {:induction false} StatWordsHas(stats: seq<(string, GramCounter)>, w: string)
    ensures w in StatWords(stats) <==> exists k :: 0 <= k < |stats| && stats[k].0 == w
  {
    if |stats| > 0 {
      var init := stats[..|stats| - 1];
      StatWordsHas(init, w);
      if exists k :: 0 <= k < |stats| && stats[k].0 == w {
        var k :| 0 <= k < |stats| && stats[k].0 == w;
        if k < |init| {
          assert init[k] == stats[k];
        }
      }
      if exists k :: 0 <= k < |init| && init[k].0 == w {
        var k :| 0 <= k < |init| && init[k].0 == w;
        assert stats[k] == init[k];
      }
    }
  }

  /** The entries kept from the words of `order`, in that order. */
  function Keep(counter: string -> GramCounter, order: seq<string>, threshold: int): seq<(string, GramCounter)>
  {
    if |order| == 0 then []
    else
      var w := order[|order| - 1];
      Keep(counter, order[..|order| - 1], threshold) + (if Occurrences(counter(w)) >= threshold then [(w, counter(w))] else [])
  }

  predicate Distinct(order: seq<string>)
  {
    forall i, j :: 0 <= i < j < |order| ==> order[i] != order[j]
  }

  /** An entry kept from the words of `order`: one of them, with its counters, frequent enough. */
  predicate KeptEntry(counter: string -> GramCounter, order: seq<string>, threshold: int, e: (string, GramCounter))
  {
    e.0 in order && e.1 == counter(e.0) && Occurrences(e.1) >= threshold
  }

  /** Each kept entry is a word of the list, with its counters, frequent enough. */
  lemma {:induction false} KeepEntry(counter: string -> GramCounter, order: seq<string>, threshold: int, k: nat)
    requires k < |Keep(counter, order, threshold)|
    ensures KeptEntry(counter, order, threshold, Keep(counter, order, threshold)[k])
  {
    var init := order[..|order| - 1];
    var w := order[|order| - 1];
    assert order == init + [w];
    if k < |Keep(counter, init, threshold)| {
      KeepEntry(counter, init, threshold, k);
      assert Keep(counter, order, threshold)[k] == Keep(counter, init, threshold)[k];
    } else {
      assert Keep(counter, order, threshold)[k] == (w, counter(w));
    }
  }

  /** Every frequent enough word of the list is kept. */
  lemma {:induction false} KeepComplete(counter: string -> GramCounter, order: seq<string>, threshold: int, w: string)
    requires w in order && Occurrences(counter(w)) >= threshold
    ensures w in StatWords(Keep(counter, order, threshold))
  {
    var init := order[..|order| - 1];
    var last := order[|order| - 1];
    if w == last {
      assert Keep(counter, order, threshold) == Keep(counter, init, threshold) + [(w, counter(w))];
    } else {
      assert order == init + [last];
      KeepComplete(counter, init, threshold, w);
    }
    if Keep(counter, order, threshold) != Keep(counter, init, threshold) {
      var stats := Keep(counter, order, threshold);
      assert stats[..|stats| - 1] == Keep(counter, init, threshold);
    }
  }

  /** Over a list without repetitions, no word is kept twice. */
  lemma {:induction false} KeepDistinct(counter: string -> GramCounter, order: seq<string>, threshold: int, k: nat, l: nat)
    requires Distinct(order) && k < l < |Keep(counter, order, threshold)|
    ensures Keep(counter, order, threshold)[k].0 != Keep(counter, order, threshold)[l].0
  {
    var init := order[..|order| - 1];
    var w := order[|order| - 1];
    assert Distinct(init);
    assert Keep(counter, order, threshold)[k] == Keep(counter, init, threshold)[k];
    if l < |Keep(counter, init, threshold)| {
      KeepDistinct(counter, init, threshold, k, l);
      assert Keep(counter, order, threshold)[l] == Keep(counter, init, threshold)[l];
    } else {
      assert Keep(counter, order, threshold)[l].0 == w;
      KeepEntry(counter, init, threshold, k);
      assert w !in init;
    }
  }

  /** The iteration over a set: each member once, in an order the model leaves open. */
  method Enumerate(words: set<string>) returns (order: seq<string>)
    ensures Distinct(order) && forall w :: w in order <==> w in words
  {
    order := [];
    var rest := words;
    while rest != {}
      invariant rest <= words && Distinct(order)
      invariant forall w :: w in order <==> w in words && w !in rest
      decreases |rest|
    {
      var w :| w in rest;
      order := order + [w];
      rest := rest - {w};
    }
  }

  /** The counters of each word, as a function. */
  function CounterFn(c: WordCounts): string -> GramCounter
  {
    w => CounterOf(c, w)
  }

  /** Keeping the frequent enough words of an enumeration of `words` gives their statistics. */
  lemma KeepStatsOf(order: seq<string>, words: set<string>, c: WordCounts, threshold: int)
    requires Distinct(order) && forall w :: w in order <==> w in words
    ensures StatsOf(Keep(CounterFn(c), order, threshold), words, c, threshold)
  {
    var stats := Keep(CounterFn(c), order, threshold);
    forall k | 0 <= k < |stats|
      ensures stats[k].0 in words && stats[k].1 == CounterOf(c, stats[k].0) && Occurrences(stats[k].1) >= threshold
    {
      KeepEntry(CounterFn(c), order, threshold, k);
    }
    forall k, l | 0 <= k < l < |stats|
      ensures stats[k].0 != stats[l].0
    {
      KeepDistinct(CounterFn(c), order, threshold, k, l);
    }
    forall w | w in words && Occurrences(CounterOf(c, w)) >= threshold
      ensures w in StatWords(stats)
    {
      KeepComplete(CounterFn(c), order, threshold, w);
    }
  }

  /** The loop over the words seen, keeping the counters of each frequent enough one. */
  method GramStats(words: set<string>, c: WordCounts, threshold: int) returns (stats: seq<(string, GramCounter)>)
    ensures StatsOf(stats, words, c, threshold)
  {
    var order := Enumerate(words);
    stats := [];
    for i := 0 to |order|
      invariant stats == Keep(CounterFn(c), order[..i], threshold)
    {
      assert order[..i + 1][..i] == order[..i];
      var w := order[i];
      var errorCounter := GramCounter(Get(c.correct, w), Get(c.del, w), Get(c.substFp, w), Get(c.substFn, w), Get(c.ins, w));
      if errorCounter.correct + errorCounter.ins + errorCounter.del + errorCounter.substFp + errorCounter.substFn >= threshold {
        stats := stats + [(w, errorCounter)];
      }
    }
    assert order[..|order|] == order;
    KeepStatsOf(order, words, c, threshold);
  }

  // ---------------------------------------------------------------------------------------
  // The unigram counts of CalculatePrecisionRecall

  /** The counts behind the unigram statistics: the harvest over the tokens, then the deleted,
    * substituted and inserted words. */
  function UnigramCounts(a: WerAlignment): WordCounts
  {
    ErrorWordCounts(a, HarvestFrom(a, 0, NO_COUNTS))
  }

  /** Each counter of a word is its number of occurrences among the matching words: correct among
    * the visited matched pairs, deleted, inserted, and either side of the substituted pairs; the
    * words seen are those of all six lists. */
  lemma UnigramCountsOf(a: WerAlignment, w: string)
    ensures var v := Visited(a, 0);
      CounterOf(UnigramCounts(a), w)
        == GramCounter(multiset(CorrectWords(v))[w], multiset(a.delWords)[w], multiset(Seconds(a.subWords))[w],
                       multiset(Firsts(a.subWords))[w], multiset(a.insWords)[w])
    ensures var v := Visited(a, 0);
      w in UnigramCounts(a).allWords <==>
        (w in CorrectWords(v) || w in HypWords(v) || w in a.delWords || w in Firsts(a.subWords)
             || w in Seconds(a.subWords) || w in a.insWords)
  {
    var v := Visited(a, 0);
    HarvestFromVisited(a, 0, NO_COUNTS);
    HarvestAllCorrect(NO_COUNTS, v);
    HarvestAllWords(NO_COUNTS, v);
    HarvestAllKeeps(NO_COUNTS, v);
    WordTallyCount(map[], CorrectWords(v), w);
    WordTallyCount(map[], a.delWords, w);
    WordTallyCount(map[], Seconds(a.subWords), w);
    WordTallyCount(map[], Firsts(a.subWords), w);
    WordTallyCount(map[], a.insWords, w);
    WordSetHas(CorrectWords(v), w);
    WordSetHas(HypWords(v), w);
    WordSetHas(a.delWords, w);
    WordSetHas(Firsts(a.subWords), w);
    WordSetHas(Seconds(a.subWords), w);
    WordSetHas(a.insWords, w);
  }

  /** The unigram half of CalculatePrecisionRecall: the harvest, the three loops over the error
    * words, then the statistics of the words seen. */
  method UnigramStats(a: WerAlignment, threshold: int) returns (stats: seq<(string, GramCounter)>)
    ensures StatsOf(stats, UnigramCounts(a).allWords, UnigramCounts(a), threshold)
  {
    var c := UpdateHypCorrectAndAllwords(a, NO_COUNTS);
    var del, allWords := TallyWords(c.del, c.allWords, a.delWords);
    var substFn, substFp, allWords' := TallySubWords(c.substFn, c.substFp, allWords, a.subWords);
    var ins, allWords'' := TallyWords(c.ins, allWords', a.insWords);
    c := c.(del := del, substFn := substFn, substFp := substFp, ins := ins, allWords := allWords'');
    stats := GramStats(c.allWords, c, threshold);
  }

  // ---------------------------------------------------------------------------------------
  // The bigram counts of CalculatePrecisionRecall

  function BigramAll(c: WordCounts, ts: seq<TokenPair>): WordCounts
  {
    if |ts| == 0 then c else BigramToken(BigramAll(c, ts[..|ts| - 1]), ts[|ts| - 1])
  }

  /** The five counters of a bigram. */
  datatype BigramKind = CorrectBigram | DeletedBigram | SubstFpBigram | SubstFnBigram | InsertedBigram

  function Field(c: WordCounts, k: BigramKind): map<string, int>
  {
    match k
    case CorrectBigram => c.correct
    case DeletedBigram => c.del
    case SubstFpBigram => c.substFp
    case SubstFnBigram => c.substFn
    case InsertedBigram => c.ins
  }

  /** The bigram one pair contributes to the counter of kind `k`, if any. */
  function Picks(t: TokenPair, k: BigramKind): seq<string>
  {
    var (ref, hyp) := t;
    match k
    case CorrectBigram => if ref == hyp then [ref] else []
    case DeletedBigram => if Find(hyp, DEL).Some? then [ref] else []
    case SubstFpBigram => if ref != hyp && IsValidNgram(ref) && IsValidNgram(hyp) then [hyp] else []
    case SubstFnBigram => if ref != hyp && IsValidNgram(ref) && IsValidNgram(hyp) then [ref] else []
    case InsertedBigram => if Find(ref, INS).Some? then [hyp] else []
  }

  /** The counting of one (reference, hypothesis) bigram pair: each counter gains the pair's
    * contribution of its kind. */
  function BigramToken(c: WordCounts, t: TokenPair): WordCounts
  {
    c.(correct := WordTally(c.correct, Picks(t, CorrectBigram)), del := WordTally(c.del, Picks(t, DeletedBigram)),
       substFp := WordTally(c.substFp, Picks(t, SubstFpBigram)), substFn := WordTally(c.substFn, Picks(t, SubstFnBigram)),
       ins := WordTally(c.ins, Picks(t, InsertedBigram)))
  }

  /** A one-word tally is an increment. */
  lemma WordTallyOne(m: map<string, int>, w: string)
    ensures WordTally(m, [w]) == Inc(m, w)
  {
    assert [w][..0] == [];
  }

  /** The bigrams the pairs contribute to the counter of kind `k`, in order. */
  function Picked(ts: seq<TokenPair>, k: BigramKind): seq<string>
  {
    if |ts| == 0 then [] else Picked(ts[..|ts| - 1], k) + Picks(ts[|ts| - 1], k)
  }

  /** One pair adds its contribution to each counter. */
  lemma BigramTokenField(c: WordCounts, t: TokenPair, k: BigramKind)
    ensures Field(BigramToken(c, t), k) == WordTally(Field(c, k), Picks(t, k))
  {
    match k
    case CorrectBigram =>
    case DeletedBigram =>
    case SubstFpBigram =>
    case SubstFnBigram =>
    case InsertedBigram =>
  }

  /** Each counter of the bigram pass is a tally of the bigrams of its kind. */
  lemma {:induction false} BigramAllField(c: WordCounts, ts: seq<TokenPair>, k: BigramKind)
    ensures Field(BigramAll(c, ts), k) == WordTally(Field(c, k), Picked(ts, k))
  {
    if |ts| > 0 {
      var init, t := ts[..|ts| - 1], ts[|ts| - 1];
      BigramAllField(c, init, k);
      var before := BigramAll(c, init);
      BigramTokenField(before, t, k);
      var p := Picks(t, k);
      assert Picked(ts, k) == Picked(init, k) + p;
      if |p| == 1 {
        assert p == [p[0]];
        WordTallyOne(Field(before, k), p[0]);
        WordTallySnoc(Field(c, k), Picked(init, k), p[0]);
      } else {
        assert p == [];
        assert Picked(ts, k) == Picked(init, k);
      }
    }
  }

  /** Each counter of a bigram, from no counts, is its number of occurrences among the bigrams of
    * that kind. */
  lemma BigramCountsOf(ts: seq<TokenPair>, w: string)
    ensures CounterOf(BigramAll(NO_COUNTS, ts), w)
      == GramCounter(multiset(Picked(ts, CorrectBigram))[w], multiset(Picked(ts, DeletedBigram))[w],
                     multiset(Picked(ts, SubstFpBigram))[w], multiset(Picked(ts, SubstFnBigram))[w],
                     multiset(Picked(ts, InsertedBigram))[w])
  {
    var r := BigramAll(NO_COUNTS, ts);
    BigramAllField(NO_COUNTS, ts, CorrectBigram);
    WordTallyCount(map[], Picked(ts, CorrectBigram), w);
    BigramAllField(NO_COUNTS, ts, DeletedBigram);
    WordTallyCount(map[], Picked(ts, DeletedBigram), w);
    BigramAllField(NO_COUNTS, ts, SubstFpBigram);
    WordTallyCount(map[], Picked(ts, SubstFpBigram), w);
    BigramAllField(NO_COUNTS, ts, SubstFnBigram);
    WordTallyCount(map[], Picked(ts, SubstFnBigram), w);
    BigramAllField(NO_COUNTS, ts, InsertedBigram);
    WordTallyCount(map[], Picked(ts, InsertedBigram), w);
  }

  /** The body of the loop over the bigram pairs. */
  method BigramStep(c: WordCounts, t: TokenPair) returns (r: WordCounts)
    ensures r == BigramToken(c, t)
  {
    var correct, substFn, substFp := MatchStep(c.correct, c.substFn, c.substFp, t);
    var del, ins := MarkerStep(c.del, c.ins, t);
    r := c.(correct := correct, substFn := substFn, substFp := substFp, del := del, ins := ins);
  }

  /** Equal sides are correct, otherwise two valid sides are a substitution. */
  method MatchStep(correct: map<string, int>, substFn: map<string, int>, substFp: map<string, int>, t: TokenPair)
    returns (correct': map<string, int>, substFn': map<string, int>, substFp': map<string, int>)
    ensures correct' == WordTally(correct, Picks(t, CorrectBigram))
    ensures substFn' == WordTally(substFn, Picks(t, SubstFnBigram))
    ensures substFp' == WordTally(substFp, Picks(t, SubstFpBigram))
  {
    var (bigramRef, bigramHyp) := t;
    correct', substFn', substFp' := correct, substFn, substFp;
    if bigramRef == bigramHyp {
      correct' := correct[bigramRef := Get(correct, bigramRef) + 1];
      WordTallyOne(correct, bigramRef);
    } else if IsValidNgram(bigramRef) && IsValidNgram(bigramHyp) {
      substFn' := substFn[bigramRef := Get(substFn, bigramRef) + 1];
      substFp' := substFp[bigramHyp := Get(substFp, bigramHyp) + 1];
      WordTallyOne(substFn, bigramRef);
      WordTallyOne(substFp, bigramHyp);
    }
  }

  /** A deletion marker in the hypothesis bigram counts the reference one as deleted; an
    * insertion marker in the reference bigram counts the hypothesis one as inserted. */
  method MarkerStep(del: map<string, int>, ins: map<string, int>, t: TokenPair)
    returns (del': map<string, int>, ins': map<string, int>)
    ensures del' == WordTally(del, Picks(t, DeletedBigram))
    ensures ins' == WordTally(ins, Picks(t, InsertedBigram))
  {
    var (bigramRef, bigramHyp) := t;
    del', ins' := del, ins;
    if Find(bigramHyp, DEL).Some? {
      del' := del[bigramRef := Get(del, bigramRef) + 1];
      WordTallyOne(del, bigramRef);
    }
    if Find(bigramRef, INS).Some? {
      ins' := ins[bigramHyp := Get(ins, bigramHyp) + 1];
      WordTallyOne(ins, bigramHyp);
    }
  }

  /** The loop over the bigram pairs. */
  method CountBigrams(c: WordCounts, ts: seq<TokenPair>) returns (r: WordCounts)
    ensures r == BigramAll(c, ts)
  {
    r := c;
    for i := 0 to |ts|
      invariant r == BigramAll(c, ts[..i])
    {
      assert ts[..i + 1][..i] == ts[..i];
      r := BigramStep(r, ts[i]);
    }
    assert ts[..|ts|] == ts;
  }

  /** CalculatePrecisionRecall, integer part: the unigram statistics of the words seen, and, once
    * get_bigrams has extended the alignment, the bigram statistics of the valid bigrams, counted
    * over every bigram pair the alignment now holds. None when there are no tokens to pair. */
  method CalculatePrecisionRecall(a: WerAlignment, threshold: int)
    returns (unigramStats: seq<(string, GramCounter)>, bigrams: Option<(WerAlignment, seq<(string, GramCounter)>)>)
    ensures StatsOf(unigramStats, UnigramCounts(a).allWords, UnigramCounts(a), threshold)
    ensures bigrams.None? <==> |Flatten(a.tokens, a.labelAlignments)| == 0
    ensures bigrams.Some? ==>
      var pairs := BigramPairs(Flatten(a.tokens, a.labelAlignments));
      var a' := bigrams.value.0;
      && a' == a.(refBigrams := Tally(a.refBigrams, Firsts(pairs)), hypBigrams := Tally(a.hypBigrams, Seconds(pairs)),
                  bigramTokens := a.bigramTokens + pairs)
      && StatsOf(bigrams.value.1, ValidSet(Firsts(pairs)) + ValidSet(Seconds(pairs)),
                 BigramAll(NO_COUNTS, a'.bigramTokens), threshold)
  {
    unigramStats := UnigramStats(a, threshold);
    var got := GetBigrams(a);
    if got.None? {
      return unigramStats, None;
    }
    var (a', allBigrams) := got.value;
    var counts := CountBigrams(NO_COUNTS, a'.bigramTokens);
    var stats := GramStats(allBigrams, counts, threshold);
    bigrams := Some((a', stats));
  }
}
