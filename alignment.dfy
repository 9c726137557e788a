// The wer_alignment record of src/utilities.h (counters, word lists, tokens
// and nested per-entity alignments), its error count, its WER value, its
// reversal, and the bigram tally get_bigrams of src/utilities.cpp adds to it.
module Alignment {
  import opened Wrappers
  import opened Strings

  /** A (reference, hypothesis) pair of labels. */
  type TokenPair = (string, string)

  /** wer_alignment; label_alignments are held by value. */
  datatype WerAlignment = WerAlignment(
    classLabel: string,
    insertions: int,
    deletions: int,
    substitutions: int,
    numWordsInReference: int,
    numWordsInHypothesis: int,
    refWords: seq<string>,
    hypWords: seq<string>,
    delWords: seq<string>,
    insWords: seq<string>,
    subWords: seq<TokenPair>,
    refBigrams: map<string, int>,
    hypBigrams: map<string, int>,
    bigramTokens: seq<TokenPair>,
    tokens: seq<TokenPair>,
    labelAlignments: seq<WerAlignment>)

  /** A freshly constructed wer_alignment: zero counters and empty lists. */
  function EmptyAlignment(classLabel: string): WerAlignment
  {
    WerAlignment(classLabel, 0, 0, 0, 0, 0, [], [], [], [], [], map[], map[], [], [], [])
  }

  /** wer_alignment::NumErrors. */
  function NumErrors(a: WerAlignment): int
  {
    a.insertions + a.substitutions + a.deletions
  }

  /** A float WER value: a ratio of integers, or +infinity. */
  datatype Rate = Ratio(num: int, den: int) | Infinity

  /** wer_alignment::WER: errors over reference words; +inf with no reference but some hypothesis
    * words; 0 when both are empty. */
  function Wer(a: WerAlignment): (r: Rate)
    ensures r.Ratio? ==> r.den > 0
    ensures r.Infinity? <==> a.numWordsInReference <= 0 && a.numWordsInHypothesis > 0
    ensures a.numWordsInReference <= 0 && a.numWordsInHypothesis <= 0 ==> r == Ratio(0, 1)
    ensures a.numWordsInReference > 0 ==> r.Ratio? && (r.num == 0 <==> NumErrors(a) == 0)
  {
    if a.numWordsInReference > 0 then Ratio(NumErrors(a), a.numWordsInReference)
    else if a.numWordsInHypothesis > 0 then Infinity
    else Ratio(0, 1)
  }

  /** std::reverse on a vector. */
  function Rev<T>(s: seq<T>): (r: seq<T>)
    ensures |r| == |s|
    ensures forall i :: 0 <= i < |s| ==> r[i] == s[|s| - 1 - i]
  {
    if |s| == 0 then [] else Rev(s[1..]) + [s[0]]
  }

  lemma RevRev<T>(s: seq<T>)
    ensures Rev(Rev(s)) == s
  {
    assert forall i :: 0 <= i < |s| ==> Rev(Rev(s))[i] == s[i];
  }

  /** wer_alignment::Reverse: reverses the word lists and tokens, recursively in every nested
    * alignment, and leaves the counters alone. */
  function Reverse(a: WerAlignment): (r: WerAlignment)
    ensures r.classLabel == a.classLabel && r.insertions == a.insertions && r.deletions == a.deletions
    ensures r.substitutions == a.substitutions && NumErrors(r) == NumErrors(a)
    ensures r.numWordsInReference == a.numWordsInReference && r.numWordsInHypothesis == a.numWordsInHypothesis
    ensures r.refBigrams == a.refBigrams && r.hypBigrams == a.hypBigrams && r.bigramTokens == a.bigramTokens
    ensures |r.tokens| == |a.tokens| && multiset(r.tokens) == multiset(a.tokens)
    ensures |r.labelAlignments| == |a.labelAlignments|
    decreases a
  {
    RevMultiset(a.tokens);
    a.(refWords := Rev(a.refWords), hypWords := Rev(a.hypWords), insWords := Rev(a.insWords),
       delWords := Rev(a.delWords), subWords := Rev(a.subWords), tokens := Rev(a.tokens),
       labelAlignments := seq(|a.labelAlignments|, i requires 0 <= i < |a.labelAlignments| =>
         assert a.labelAlignments[i] in a.labelAlignments; Reverse(a.labelAlignments[i])))
  }

  lemma {:induction false} RevMultiset<T>(s: seq<T>)
    ensures multiset(Rev(s)) == multiset(s)
    decreases |s|
  {
    if |s| > 0 {
      RevMultiset(s[1..]);
      assert s == [s[0]] + s[1..];
    }
  }

  /** Reversing twice gives back the original alignment, nested ones included. */
  lemma {:induction false} ReverseTwice(a: WerAlignment)
    ensures Reverse(Reverse(a)) == a
    decreases a
  {
    var l := a.labelAlignments;
    var rr := Reverse(Reverse(a));
    forall i | 0 <= i < |l| ensures rr.labelAlignments[i] == l[i] {
      assert l[i] in l;
      ReverseTwice(l[i]);
    }
    RevRev(a.refWords); RevRev(a.hypWords); RevRev(a.insWords);
    RevRev(a.delWords); RevRev(a.subWords); RevRev(a.tokens);
  }

  // ---------------------------------------------------------------------------------------------
  // get_bigrams

  /** The tokens of every nested alignment whose class label is `cls`, in order. */
  function SectionTokens(sections: seq<WerAlignment>, cls: string): seq<TokenPair>
  {
    if |sections| == 0 then []
    else
      (if sections[0].classLabel == cls then sections[0].tokens else []) + SectionTokens(sections[1..], cls)
  }

  /** The alignment's tokens with each entity token replaced by its sections' tokens. */
  function Flatten(tokens: seq<TokenPair>, sections: seq<WerAlignment>): seq<TokenPair>
  {
    if |tokens| == 0 then []
    else
      var t := tokens[|tokens| - 1];
      Flatten(tokens[..|tokens| - 1], sections) + (if IsEntityLabel(t.0) then SectionTokens(sections, t.0) else [t])
  }

  /** The bigram string of two words, joined by one space. */
  function Bigram(x: string, y: string): string
  {
    StringJoin([x, y], " ")
  }

  /** The (reference, hypothesis) bigram pairs of consecutive flattened tokens. */
  function BigramPairs(f: seq<TokenPair>): (r: seq<TokenPair>)
    ensures |r| == if |f| == 0 then 0 else |f| - 1
    ensures forall i :: 0 <= i < |r| ==> r[i] == (Bigram(f[i].0, f[i + 1].0), Bigram(f[i].1, f[i + 1].1))
  {
    if |f| <= 1 then [] else
      seq(|f| - 1, i requires 0 <= i < |f| - 1 => (Bigram(f[i].0, f[i + 1].0), Bigram(f[i].1, f[i + 1].1)))
  }

  /** Add one to the tally of each valid n-gram of `keys`, in order. */
  function Tally(m: map<string, int>, keys: seq<string>): map<string, int>
  {
    if |keys| == 0 then m
    else
      Bump(Tally(m, keys[..|keys| - 1]), keys[|keys| - 1])
  }

  /** `if (isValidNgram(k)) m[k] += 1`, with a missing key read as 0. */
  function Bump(m: map<string, int>, k: string): map<string, int>
  {
    if IsValidNgram(k) then m[k := Get(m, k) + 1] else m
  }

  function Get(m: map<string, int>, k: string): int
  {
    if k in m then m[k] else 0
  }

  function Count(keys: seq<string>, k: string): nat
  {
    if |keys| == 0 then 0 else Count(keys[..|keys| - 1], k) + (if keys[|keys| - 1] == k then 1 else 0)
  }

  /** A tally entry grows by the number of times its valid key occurs; invalid keys are never added. */
  lemma {:induction false} TallyCounts(m: map<string, int>, keys: seq<string>, k: string)
    ensures IsValidNgram(k) ==> Get(Tally(m, keys), k) == Get(m, k) + Count(keys, k)
    ensures !IsValidNgram(k) ==> Get(Tally(m, keys), k) == Get(m, k)
    ensures k in Tally(m, keys) <==> k in m || (IsValidNgram(k) && Count(keys, k) > 0)
    decreases |keys|
  {
    if |keys| > 0 {
      TallyCounts(m, keys[..|keys| - 1], k);
    }
  }

  function Firsts(s: seq<TokenPair>): (r: seq<string>)
    ensures |r| == |s| && forall i :: 0 <= i < |s| ==> r[i] == s[i].0
  {
    if |s| == 0 then [] else Firsts(s[..|s| - 1]) + [s[|s| - 1].0]
  }

  function Seconds(s: seq<TokenPair>): (r: seq<string>)
    ensures |r| == |s| && forall i :: 0 <= i < |s| ==> r[i] == s[i].1
  {
    if |s| == 0 then [] else Seconds(s[..|s| - 1]) + [s[|s| - 1].1]
  }

  /** The set of valid n-grams among the keys. */
  function ValidSet(keys: seq<string>): set<string>
  {
    if |keys| == 0 then {}
    else Note(ValidSet(keys[..|keys| - 1]), keys[|keys| - 1])
  }

  /** `if (isValidNgram(k)) all_bigrams.insert(k)`. */
  function Note(all: set<string>, k: string): set<string>
  {
    if IsValidNgram(k) then all + {k} else all
  }

  lemma NoteUnion(a: set<string>, b: set<string>, x: string, y: string)
    ensures Note(Note(a + b, x), y) == Note(a, x) + Note(b, y)
  {
  }

  lemma {:induction false} ValidSetMembers(keys: seq<string>, k: string)
    ensures k in ValidSet(keys) <==> k in keys && IsValidNgram(k)
    decreases |keys|
  {
    if |keys| > 0 {
      ValidSetMembers(keys[..|keys| - 1], k);
      assert keys == keys[..|keys| - 1] + [keys[|keys| - 1]];
    }
  }

  lemma TallySnoc(m: map<string, int>, keys: seq<string>, k: string)
    ensures Tally(m, keys + [k]) == Bump(Tally(m, keys), k)
  {
    assert (keys + [k])[..|keys|] == keys;
  }

  lemma ValidSetSnoc(keys: seq<string>, k: string)
    ensures ValidSet(keys + [k]) == Note(ValidSet(keys), k)
  {
    assert (keys + [k])[..|keys|] == keys;
  }

  lemma PairsSnoc(ps: seq<TokenPair>, i: nat)
    requires i < |ps|
    ensures Firsts(ps[..i + 1]) == Firsts(ps[..i]) + [ps[i].0]
    ensures Seconds(ps[..i + 1]) == Seconds(ps[..i]) + [ps[i].1]
  {
    assert ps[..i + 1][..i] == ps[..i];
  }

  /** get_bigrams: flattens the entity sections into the token list, then, for each pair of
    * consecutive flattened tokens, tallies the valid reference and hypothesis bigrams and appends
    * the bigram pair. The source's iteration is undefined on an empty flattened list; that case
    * is None here. */
  method GetBigrams(a: WerAlignment) returns (r: Option<(WerAlignment, set<string>)>)
    ensures r.None? <==> |Flatten(a.tokens, a.labelAlignments)| == 0
    ensures r.Some? ==>
      var pairs := BigramPairs(Flatten(a.tokens, a.labelAlignments));
      r.value.0 == a.(refBigrams := Tally(a.refBigrams, Firsts(pairs)),
                      hypBigrams := Tally(a.hypBigrams, Seconds(pairs)),
                      bigramTokens := a.bigramTokens + pairs)
      && r.value.1 == ValidSet(Firsts(pairs)) + ValidSet(Seconds(pairs))
  {
    var f := Flatten(a.tokens, a.labelAlignments);
    if |f| == 0 {
      return None;
    }
    var pairs := BigramPairs(f);
    var refB, hypB, bt, all := TallyBigrams(a.refBigrams, a.hypBigrams, a.bigramTokens, pairs);
    r := Some((a.(refBigrams := refB, hypBigrams := hypB, bigramTokens := bt), all));
  }

  /** The loop of get_bigrams over the bigram pairs of consecutive tokens. */
  method TallyBigrams(refB0: map<string, int>, hypB0: map<string, int>, bt0: seq<TokenPair>, pairs: seq<TokenPair>)
    returns (refB: map<string, int>, hypB: map<string, int>, bt: seq<TokenPair>, all: set<string>)
    ensures refB == Tally(refB0, Firsts(pairs)) && hypB == Tally(hypB0, Seconds(pairs))
    ensures bt == bt0 + pairs
    ensures all == ValidSet(Firsts(pairs)) + ValidSet(Seconds(pairs))
  {
    refB, hypB, bt, all := refB0, hypB0, bt0, {};
    var i := 0;
    while i < |pairs|
      invariant 0 <= i <= |pairs|
      invariant refB == Tally(refB0, Firsts(pairs[..i]))
      invariant hypB == Tally(hypB0, Seconds(pairs[..i]))
      invariant bt == bt0 + pairs[..i]
      invariant all == ValidSet(Firsts(pairs[..i])) + ValidSet(Seconds(pairs[..i]))
    {
      var (bigramRef, bigramHyp) := pairs[i];
      PairsSnoc(pairs, i);
      TallySnoc(refB0, Firsts(pairs[..i]), bigramRef);
      TallySnoc(hypB0, Seconds(pairs[..i]), bigramHyp);
      ValidSetSnoc(Firsts(pairs[..i]), bigramRef);
      ValidSetSnoc(Seconds(pairs[..i]), bigramHyp);
      NoteUnion(ValidSet(Firsts(pairs[..i])), ValidSet(Seconds(pairs[..i])), bigramRef, bigramHyp);
      refB := Bump(refB, bigramRef);
      hypB := Bump(hypB, bigramHyp);
      all := Note(Note(all, bigramRef), bigramHyp);
      bt := bt + [(bigramRef, bigramHyp)];
      assert pairs[..i + 1] == pairs[..i] + [pairs[i]];
      i := i + 1;
    }
    assert pairs[..i] == pairs;
  }

  /** Every recorded bigram pair joins two words with a space, and every counted bigram is made
    * of valid, non-entity words. */
  lemma BigramWords(f: seq<TokenPair>, i: nat)
    requires i + 1 < |f|
    ensures BigramPairs(f)[i].0 == f[i].0 + " " + f[i + 1].0
    ensures IsValidNgram(BigramPairs(f)[i].0) ==> IsValidNgram(f[i].0) && !IsEntityLabel(f[i].0)
  {
    JoinPair(f[i].0, f[i + 1].0, " ");
    if IsValidNgram(BigramPairs(f)[i].0) {
      ValidNgramParts(f[i].0, f[i + 1].0);
    }
  }
}
