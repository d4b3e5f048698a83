/**
  The document pipeline: a list of labelled samples, one token count per
  processed sample, the document frequency of every word, the selection of
  the most frequent words as features, and the TF-IDF data set with cosine
  normalisation. A plain corpus filters words on their own; a stemmed corpus
  and a mapped corpus select features twice, the second time normalising
  every word with the stemmer or the lexical mapper learnt the first time.
 */
module Corpora {
  import opened Wrappers
  import opened Text
  import opened Tallies
  import opened FeatureVectors
  import Stemming
  import LexicalMapping

  // ---------------------------------------------------------------------
  // Word filtering
  // ---------------------------------------------------------------------

  /** The characters `FilterWord` strips from both ends of a token. */
  const Punctuation: set<char> := {'.', '?', '!', ',', ':', '$', '%', '(', ')', '/', '\\', '\'', '"'}

  /** A word a filter can keep: nonempty and lower case. */
  predicate Token(w: string) {
    w != "" && IsLower(w)
  }

  /**
    `Corpus.FilterWord`: strips punctuation from both ends, rejects the empty
    word and anything `isNumber` (`decimal.TryParse`) accepts, lowers the
    case, and rejects stop words and one-character words. `""` means the
    token is rejected.
   */
  function BaseFilter(token: string, stopWords: seq<string>, isNumber: string -> bool): (r: string)
    ensures r == "" || (Token(r) && |r| >= 2 && r !in stopWords)
    ensures r != "" ==> r == Lower(Trim(token, Punctuation)) && !isNumber(Trim(token, Punctuation))
    ensures var w := Trim(token, Punctuation);
      r == "" <==> w == "" || isNumber(w) || Lower(w) in stopWords || |w| == 1
  {
    var word := Trim(token, Punctuation);
    if word == "" then ""
    else if isNumber(word) then ""
    else
      var lower := Lower(word);
      LowerFacts(word);
      if lower in stopWords then ""
      else if |lower| == 1 then ""
      else lower
  }

  /** A word the base filter keeps neither starts nor ends with punctuation. */
  lemma BaseFilterEnds(token: string, stopWords: seq<string>, isNumber: string -> bool)
    ensures var r := BaseFilter(token, stopWords, isNumber);
      r != "" ==> r[0] !in Punctuation && r[|r| - 1] !in Punctuation
  {
    var word := Trim(token, Punctuation);
    if word != "" {
      var a, b := word[0], word[|word| - 1];
      assert Lower(word)[0] == LowerChar(a) && Lower(word)[|word| - 1] == LowerChar(b);
    }
  }

  /**
    The kind of corpus: a plain `Corpus`, a `StemmedCorpus` with its stem
    list size and its stemmer (`None` until features are first selected),
    or a `MappedCorpus` with its mapper (likewise).
   */
  datatype Normaliser =
    | Basic
    | WithStemmer(stemSize: nat, stemmer: Option<Stemming.Stemmer>)
    | WithMapper(mapper: Option<LexicalMapping.LexicalMapper>)

  /**
    A stemmer built from a vocabulary without the empty word, or a ranked
    mapper whose targets are tokens: what `SelectFeatures` builds.
   */
  ghost predicate Ready(n: Normaliser) {
    match n
    case WithStemmer(_, Some(s)) => s.Valid() && "" !in s.corpusWords
    case WithMapper(Some(m)) => m.Ranked() && forall a :: a in m.mappings ==> Token(m.mappings[a])
    case _ => true
  }

  /**
    The overridden `FilterWord`: the base filter, then the stemmer or the
    mapper once one exists.
   */
  ghost function Filter(n: Normaliser, token: string, stopWords: seq<string>, isNumber: string -> bool): string
    requires Ready(n)
  {
    var word := BaseFilter(token, stopWords, isNumber);
    match n
    case WithStemmer(_, Some(s)) => s.Stem(word)
    case WithMapper(Some(m)) => m.Resolve(word)
    case _ => word
  }

  /** Following the mappings from a token ends at a token that has no mapping. */
  lemma {:induction false} ResolveToken(m: LexicalMapping.LexicalMapper, w: string)
    requires m.Ranked() && forall a :: a in m.mappings ==> Token(m.mappings[a])
    requires Token(w)
    ensures Token(m.Resolve(w)) && m.Resolve(w) !in m.mappings
    decreases |m.Ahead(w)|
  {
    if w in m.mappings {
      m.AheadShrinks(w);
      var next := m.mappings[w];
      ResolveToken(m, next);
    }
  }

  /**
    What the filters keep. A token is rejected exactly when the base filter
    rejects it, and a kept word is a lower-case token. Without a stemmer or
    mapper the result is the base result; a stem is a substring of the base
    result (so it may be one character long); a mapped word has no mapping
    of its own.
   */
  lemma FilterMeaning(n: Normaliser, token: string, stopWords: seq<string>, isNumber: string -> bool)
    requires Ready(n)
    ensures var base := BaseFilter(token, stopWords, isNumber);
      var r := Filter(n, token, stopWords, isNumber);
      && (r == "" <==> base == "")
      && (r == "" || Token(r))
      && (n.Basic? || (n.WithStemmer? && n.stemmer.None?) || (n.WithMapper? && n.mapper.None?) ==> r == base)
      && (n.WithStemmer? && n.stemmer.Some? ==> IsSubstring(r, base))
      && (n.WithMapper? && n.mapper.Some? ==> r !in n.mapper.value.mappings || r == "")
  {
    var base := BaseFilter(token, stopWords, isNumber);
    match n
    case WithStemmer(_, Some(s)) =>
      Stemming.StemSubstring(s, base);
      if base != "" {
        SubstringOfLower(s.Stem(base), base);
      }
    case WithMapper(Some(m)) =>
      if base != "" {
        ResolveToken(m, base);
      }
    case _ =>
  }

  // ---------------------------------------------------------------------
  // Counting the tokens of one sample
  // ---------------------------------------------------------------------

  /** The filter result of every token, rejected ones included. */
  ghost function Filtered(n: Normaliser, tokens: seq<string>, stopWords: seq<string>, isNumber: string -> bool): (r: seq<string>)
    requires Ready(n)
    ensures |r| == |tokens|
    decreases |tokens|
  {
    if tokens == [] then []
    else Filtered(n, tokens[..|tokens| - 1], stopWords, isNumber) + [Filter(n, tokens[|tokens| - 1], stopWords, isNumber)]
  }

  /** The nonempty words of `s`, in order. */
  function NonEmpty(s: seq<string>): seq<string>
    decreases |s|
  {
    if s == [] then []
    else NonEmpty(s[..|s| - 1]) + (if s[|s| - 1] == "" then [] else [s[|s| - 1]])
  }

  /** The words counted for a sequence of tokens: every nonempty filter result, in order. */
  ghost function Kept(n: Normaliser, tokens: seq<string>, stopWords: seq<string>, isNumber: string -> bool): seq<string>
    requires Ready(n)
  {
    NonEmpty(Filtered(n, tokens, stopWords, isNumber))
  }

  /** The tally `ExtractTokensFromSample` stores for one sample split on spaces. */
  ghost function SampleTally(n: Normaliser, sample: string, stopWords: seq<string>, isNumber: string -> bool): Tally<string>
    requires Ready(n)
  {
    TallyOf(Kept(n, SplitOn(sample, ' '), stopWords, isNumber))
  }

  /** A sample: its text and whether it is spam. */
  type Sample = (string, bool)

  /** One tally per sample, in sample order. */
  ghost function SampleTallies(n: Normaliser, samples: seq<Sample>, stopWords: seq<string>, isNumber: string -> bool): (r: seq<Tally<string>>)
    requires Ready(n)
  {
    seq(|samples|, j requires 0 <= j < |samples| => SampleTally(n, samples[j].0, stopWords, isNumber))
  }

  /** A tally of tokens: keys listed once each in insertion order, every key a token. */
  predicate Vocabulary(t: Tally<string>) {
    Tallies.Valid(t) && forall w :: w in t.count ==> Token(w)
  }

  /** One more word keeps its predecessors' nonempty words and adds itself unless empty. */
  lemma NonEmptySnoc(s: seq<string>, x: string)
    ensures NonEmpty(s + [x]) == NonEmpty(s) + (if x == "" then [] else [x])
  {
    assert (s + [x])[..|s|] == s;
  }

  /** One more token adds its filter result to the kept words, unless it is rejected. */
  lemma KeptSnoc(n: Normaliser, tokens: seq<string>, i: nat, stopWords: seq<string>, isNumber: string -> bool)
    requires Ready(n) && i < |tokens|
    ensures var word := Filter(n, tokens[i], stopWords, isNumber);
      Kept(n, tokens[..i + 1], stopWords, isNumber) ==
        Kept(n, tokens[..i], stopWords, isNumber) + (if word == "" then [] else [word])
  {
    assert tokens[..i + 1][..i] == tokens[..i];
    NonEmptySnoc(Filtered(n, tokens[..i], stopWords, isNumber), Filter(n, tokens[i], stopWords, isNumber));
  }

  /** Every filter result is rejected or a token. */
  lemma {:induction false} FilteredTokens(n: Normaliser, tokens: seq<string>, stopWords: seq<string>, isNumber: string -> bool)
    requires Ready(n)
    ensures forall w :: w in Filtered(n, tokens, stopWords, isNumber) ==> w == "" || Token(w)
    decreases |tokens|
  {
    if tokens != [] {
      FilteredTokens(n, tokens[..|tokens| - 1], stopWords, isNumber);
      FilterMeaning(n, tokens[|tokens| - 1], stopWords, isNumber);
    }
  }

  /**
    Dropping the empty words keeps every other word as often as it occurs,
    and the dropped ones make up the difference in length.
   */
  lemma {:induction false} NonEmptyOccurrences(s: seq<string>, w: string)
    ensures w != "" ==> Occurrences(NonEmpty(s), w) == Occurrences(s, w)
    ensures |NonEmpty(s)| + Occurrences(s, "") == |s|
    ensures forall x :: x in NonEmpty(s) ==> x != "" && x in s
    decreases |s|
  {
    if s != [] {
      var init, last := s[..|s| - 1], s[|s| - 1];
      NonEmptyOccurrences(init, w);
      var extra := if last == "" then [] else [last];
      assert NonEmpty(s) == NonEmpty(init) + extra;
      OccurrencesAppend(NonEmpty(init), extra, w);
      assert s == init + [last];
      assert [last][..0] == [];
      if last != "" {
        assert extra[..0] == [];
      }
    }
  }

  /** The kept words of any tokens form a vocabulary of tokens. */
  lemma KeptVocabulary(n: Normaliser, tokens: seq<string>, stopWords: seq<string>, isNumber: string -> bool)
    requires Ready(n)
    ensures Vocabulary(TallyOf(Kept(n, tokens, stopWords, isNumber)))
  {
    var all := Filtered(n, tokens, stopWords, isNumber);
    FilteredTokens(n, tokens, stopWords, isNumber);
    NonEmptyOccurrences(all, "");
    TallyOfCounts(NonEmpty(all));
  }

  /**
    Counting only the nonempty words of `all` counts each of them at every
    occurrence; the empty ones make up the rest of `all`.
   */
  lemma NonEmptyTally(all: seq<string>)
    ensures var t := TallyOf(NonEmpty(all));
      && Tallies.Valid(t)
      && (forall w :: w != "" ==> (w in t.count <==> w in all))
      && (forall w :: w in t.count ==> w != "" && t.count[w] == Occurrences(all, w))
      && SumCounts(t.order, t.count) + Occurrences(all, "") == |all|
  {
    var kept := NonEmpty(all);
    NonEmptyOccurrences(all, "");
    TallyOfCounts(kept);
    forall w | w != "" ensures Occurrences(kept, w) == Occurrences(all, w) && (w in kept <==> w in all) {
      NonEmptyOccurrences(all, w);
      OccurrencesPositive(kept, w);
      OccurrencesPositive(all, w);
    }
  }

  /**
    One sample's counts: every kept token is counted at every occurrence (the
    "once per document" check never fires), so the counts add up to the
    number of tokens the filter does not reject.
   */
  lemma SampleCounts(n: Normaliser, sample: string, stopWords: seq<string>, isNumber: string -> bool)
    requires Ready(n)
    ensures var t := SampleTally(n, sample, stopWords, isNumber);
      var all := Filtered(n, SplitOn(sample, ' '), stopWords, isNumber);
      && Vocabulary(t)
      && (forall w :: w != "" ==> (w in t.count <==> w in all))
      && (forall w :: w in t.count ==> t.count[w] == Occurrences(all, w))
      && SumCounts(t.order, t.count) + Occurrences(all, "") == |SplitOn(sample, ' ')|
  {
    var tokens := SplitOn(sample, ' ');
    KeptVocabulary(n, tokens, stopWords, isNumber);
    NonEmptyTally(Filtered(n, tokens, stopWords, isNumber));
  }

  // ---------------------------------------------------------------------
  // Document frequency
  // ---------------------------------------------------------------------

  /** The keys of every tally, tally after tally: what `ExtractTokens` counts. */
  function AllKeys(freqs: seq<Tally<string>>): seq<string>
    decreases |freqs|
  {
    if freqs == [] then [] else AllKeys(freqs[..|freqs| - 1]) + freqs[|freqs| - 1].order
  }

  /** The dictionary `ExtractTokens` returns. */
  function DocFrequency(freqs: seq<Tally<string>>): Tally<string> {
    TallyOf(AllKeys(freqs))
  }

  /** The number of tallies that have `w` as a key. */
  function Containing(freqs: seq<Tally<string>>, w: string): (r: nat)
    ensures r <= |freqs|
    decreases |freqs|
  {
    if freqs == [] then 0
    else Containing(freqs[..|freqs| - 1], w) + (if w in freqs[|freqs| - 1].count then 1 else 0)
  }

  lemma {:induction false} AllKeysOccurrences(freqs: seq<Tally<string>>, w: string)
    requires forall t :: t in freqs ==> Tallies.Valid(t)
    ensures Occurrences(AllKeys(freqs), w) == Containing(freqs, w)
    decreases |freqs|
  {
    if freqs != [] {
      var init, last := freqs[..|freqs| - 1], freqs[|freqs| - 1];
      assert forall t :: t in init ==> t in freqs;
      AllKeysOccurrences(init, w);
      OccurrencesAppend(AllKeys(init), last.order, w);
      assert last in freqs;
      OccurrencesDistinct(last.order, w);
      assert w in last.order <==> w in last.count;
    }
  }

  lemma {:induction false} AllKeysTokens(freqs: seq<Tally<string>>)
    requires forall t :: t in freqs ==> Vocabulary(t)
    ensures forall w :: w in AllKeys(freqs) ==> Token(w)
    decreases |freqs|
  {
    if freqs != [] {
      var init, last := freqs[..|freqs| - 1], freqs[|freqs| - 1];
      assert forall t :: t in init ==> t in freqs;
      AllKeysTokens(init);
      assert last in freqs;
      assert forall w :: w in last.order ==> w in last.count;
    }
  }

  /**
    `ExtractTokens` counts documents, not occurrences: a word's document
    frequency is the number of tallies that have it, so it lies between 1
    and the number of tallies, and the words are exactly the tallies' keys.
   */
  lemma DocFrequencyCounts(freqs: seq<Tally<string>>)
    requires forall t :: t in freqs ==> Vocabulary(t)
    ensures var df := DocFrequency(freqs);
      && Vocabulary(df)
      && (forall w :: w in df.count <==> Containing(freqs, w) > 0)
      && (forall w :: w in df.count ==> df.count[w] == Containing(freqs, w) && 1 <= df.count[w] <= |freqs|)
  {
    var keys := AllKeys(freqs);
    var df := TallyOf(keys);
    TallyOfCounts(keys);
    AllKeysTokens(freqs);
    assert Vocabulary(df);
    forall w ensures w in df.count <==> Containing(freqs, w) > 0 {
      AllKeysOccurrences(freqs, w);
      OccurrencesPositive(keys, w);
    }
    forall w | w in df.count ensures df.count[w] == Containing(freqs, w) {
      AllKeysOccurrences(freqs, w);
    }
  }

  lemma {:induction false} ContainingAppend(freqs: seq<Tally<string>>, more: seq<Tally<string>>, w: string)
    ensures Containing(freqs + more, w) == Containing(freqs, w) + Containing(more, w)
    decreases |more|
  {
    if more == [] {
      assert freqs + more == freqs;
    } else {
      assert (freqs + more)[..|freqs + more| - 1] == freqs + more[..|more| - 1];
      ContainingAppend(freqs, more[..|more| - 1], w);
    }
  }

  /**
    Counting the same tallies twice doubles every document frequency: what a
    second `SelectFeatures` on a plain corpus does, since nothing clears the
    list of tallies in between.
   */
  lemma RecountDoubles(freqs: seq<Tally<string>>)
    requires forall t :: t in freqs ==> Vocabulary(t)
    ensures var once, twice := DocFrequency(freqs), DocFrequency(freqs + freqs);
      && once.count.Keys == twice.count.Keys
      && forall w :: w in once.count ==> twice.count[w] == 2 * once.count[w]
  {
    DocFrequencyCounts(freqs);
    DocFrequencyCounts(freqs + freqs);
    forall w ensures Containing(freqs + freqs, w) == 2 * Containing(freqs, w) {
      ContainingAppend(freqs, freqs, w);
    }
  }

  // ---------------------------------------------------------------------
  // Feature selection
  // ---------------------------------------------------------------------

  /** A word and its document frequency, as `featureRange.ToList()` lists them. */
  type Entry = (string, nat)

  function Entries(t: Tally<string>): (r: seq<Entry>)
    requires Tallies.Valid(t)
    ensures |r| == |t.order|
    ensures forall i :: 0 <= i < |r| ==> r[i].0 == t.order[i] && r[i].0 in t.count && r[i].1 == t.count[r[i].0]
  {
    seq(|t.order|, i requires 0 <= i < |t.order| =>
      assert t.order[i] in set x | x in t.order;
      (t.order[i], t.count[t.order[i]]))
  }

  /** Non-increasing counts: the order the descending comparator sorts into. */
  predicate ByCount(r: seq<Entry>) {
    forall i, j :: 0 <= i < j < |r| ==> r[i].1 >= r[j].1
  }

  /**
    `range.Sort` with the descending comparator. `List.Sort` is not stable,
    so only the order of the counts is promised; this insertion sort keeps
    equal counts in their original order, which is one of the orders the
    library may produce.
   */
  method SortByCount(range: seq<Entry>) returns (r: seq<Entry>)
    ensures multiset(r) == multiset(range) && ByCount(r)
  {
    r := [];
    for i := 0 to |range|
      invariant multiset(r) == multiset(range[..i]) && ByCount(r)
    {
      assert range[..i + 1] == range[..i] + [range[i]];
      r := Insert(r, range[i]);
    }
    assert range[..|range|] == range;
  }

  /** One insertion step: `x` goes before the first smaller count. */
  method Insert(r: seq<Entry>, x: Entry) returns (s: seq<Entry>)
    requires ByCount(r)
    ensures ByCount(s) && multiset(s) == multiset(r) + multiset{x}
  {
    var k := 0;
    while k < |r| && r[k].1 >= x.1
      invariant 0 <= k <= |r|
      invariant forall m :: 0 <= m < k ==> r[m].1 >= x.1
    {
      k := k + 1;
    }
    InsertByCount(r, k, x);
    s := r[..k] + [x] + r[k..];
  }

  /** Inserting before the first smaller count keeps the order and adds one element. */
  lemma InsertByCount(r: seq<Entry>, k: nat, x: Entry)
    requires ByCount(r) && k <= |r|
    requires forall m :: 0 <= m < k ==> r[m].1 >= x.1
    requires k < |r| ==> r[k].1 < x.1
    ensures ByCount(r[..k] + [x] + r[k..])
    ensures multiset(r[..k] + [x] + r[k..]) == multiset(r) + multiset{x}
  {
    InsertOrdered(r, k, x);
    assert r == r[..k] + r[k..];
  }

  lemma InsertOrdered(r: seq<Entry>, k: nat, x: Entry)
    requires ByCount(r) && k <= |r|
    requires forall m :: 0 <= m < k ==> r[m].1 >= x.1
    requires k < |r| ==> r[k].1 < x.1
    ensures ByCount(r[..k] + [x] + r[k..])
  {
    var s := r[..k] + [x] + r[k..];
    assert forall i :: 0 <= i < k ==> s[i] == r[i];
    assert forall i :: k < i < |s| ==> s[i] == r[i - 1];
    forall i, j | 0 <= i < j < |s| ensures s[i].1 >= s[j].1 {
      if j > k && i > k {
        assert s[i].1 == r[i - 1].1;
      }
    }
  }

  /** The dictionary `d.Add(pair.Key, pair.Value)` builds pair by pair. */
  function Dictionary(es: seq<Entry>): Tally<string>
    decreases |es|
  {
    if es == [] then Empty()
    else
      var d := Dictionary(es[..|es| - 1]);
      var e := es[|es| - 1];
      Tally(d.order + [e.0], d.count[e.0 := e.1])
  }

  /** Pairs with distinct words rebuild a dictionary with those words, in order, and their counts. */
  lemma {:induction false} DictionaryFacts(es: seq<Entry>)
    requires forall i, j :: 0 <= i < j < |es| ==> es[i].0 != es[j].0
    ensures var d := Dictionary(es);
      && Tallies.Valid(d) && |d.order| == |es|
      && (forall i :: 0 <= i < |es| ==> d.order[i] == es[i].0 && d.count[es[i].0] == es[i].1)
    decreases |es|
  {
    if es != [] {
      var init, e := es[..|es| - 1], es[|es| - 1];
      DictionaryFacts(init);
      var d := Dictionary(init);
      assert e.0 !in d.order by {
        forall i | 0 <= i < |init| ensures d.order[i] != e.0 {
          assert init[i] == es[i];
        }
      }
    }
  }

  /**
    The dictionary `SelectFeatures` stores: at most `k` words, ranked by
    non-increasing document frequency, each with its frequency from `df`,
    as many as `k` allows, and no dropped word more frequent than the last
    kept one (so, by `TopKDominates`, than any kept one).
   */
  ghost predicate TopK(d: Tally<string>, df: Tally<string>, k: nat) {
    && Tallies.Valid(d)
    && |d.order| == (if k < |df.order| then k else |df.order|)
    && (forall w {:trigger w in d.count} :: w in d.count ==> w in df.count && d.count[w] == df.count[w])
    && (forall i, j {:trigger d.count[d.order[i]], d.count[d.order[j]]} :: 0 <= i < j < |d.order| ==> d.count[d.order[i]] >= d.count[d.order[j]])
    && (d.order != [] ==> forall w :: w in df.count && w !in d.count ==> df.count[w] <= d.count[Last(d.order)])
  }

  /** The last element of a nonempty sequence. */
  function Last<T>(s: seq<T>): T
    requires s != []
  {
    s[|s| - 1]
  }

  /** In a top-`k` selection no dropped word is more frequent than any kept word. */
  lemma TopKDominates(d: Tally<string>, df: Tally<string>, k: nat)
    requires TopK(d, df, k)
    ensures forall w, f :: w in df.count && w !in d.count && f in d.count ==> df.count[w] <= d.count[f]
  {
    forall w, f | w in df.count && w !in d.count && f in d.count
      ensures df.count[w] <= d.count[f]
    {
      assert f in set x | x in d.order;
      var r :| 0 <= r < |d.order| && d.order[r] == f;
      if r < |d.order| - 1 {
        assert d.count[d.order[r]] >= d.count[d.order[|d.order| - 1]];
      }
    }
  }

  lemma {:induction false} MultiplicityAtMostOne<T>(s: seq<T>, x: T)
    requires Distinct(s)
    ensures multiset(s)[x] <= 1
    decreases |s|
  {
    if s != [] {
      var init := s[..|s| - 1];
      assert s == init + [s[|s| - 1]];
      MultiplicityAtMostOne(init, x);
      if s[|s| - 1] == x {
        assert x !in init;
      }
    }
  }

  lemma MultiplicityTwo<T>(s: seq<T>, i: nat, j: nat)
    requires i < j < |s| && s[i] == s[j]
    ensures multiset(s)[s[i]] >= 2
  {
    assert s == s[..i] + [s[i]] + s[i + 1..j] + [s[j]] + s[j + 1..];
  }

  /** A permutation of a duplicate-free sequence is duplicate-free. */
  lemma PermutationDistinct<T>(a: seq<T>, b: seq<T>)
    requires multiset(a) == multiset(b) && Distinct(a)
    ensures Distinct(b)
  {
    forall i, j | 0 <= i < j < |b| ensures b[i] != b[j] {
      if b[i] == b[j] {
        MultiplicityTwo(b, i, j);
        MultiplicityAtMostOne(a, b[i]);
      }
    }
  }

  /** The sorted pairs are the dictionary's pairs: distinct words, each with its count. */
  lemma SortedEntries(df: Tally<string>, sorted: seq<Entry>)
    requires Tallies.Valid(df)
    requires multiset(sorted) == multiset(Entries(df))
    ensures |sorted| == |df.order|
    ensures forall e :: e in sorted ==> e.0 in df.count && e.1 == df.count[e.0]
    ensures forall i, j :: 0 <= i < j < |sorted| ==> sorted[i].0 != sorted[j].0
  {
    var es := Entries(df);
    assert Distinct(es) by {
      forall i, j | 0 <= i < j < |es| ensures es[i] != es[j] {
        assert es[i].0 == df.order[i] && es[j].0 == df.order[j];
      }
    }
    PermutationDistinct(es, sorted);
    assert |multiset(sorted)| == |multiset(es)|;
    forall e | e in sorted ensures e.0 in df.count && e.1 == df.count[e.0] {
      assert e in multiset(sorted);
      assert e in multiset(es);
      var p :| 0 <= p < |es| && es[p] == e;
    }
    forall i, j | 0 <= i < j < |sorted| ensures sorted[i].0 != sorted[j].0 {
      var x, y := sorted[i], sorted[j];
      assert x in sorted && y in sorted;
    }
  }

  /** Every word of the dictionary has its pair somewhere in the sorted list. */
  lemma SortedPosition(df: Tally<string>, sorted: seq<Entry>, w: string) returns (q: nat)
    requires Tallies.Valid(df)
    requires multiset(sorted) == multiset(Entries(df))
    requires w in df.count
    ensures q < |sorted| && sorted[q] == (w, df.count[w])
  {
    var es := Entries(df);
    assert w in set x | x in df.order;
    var p :| 0 <= p < |df.order| && df.order[p] == w;
    var e := es[p];
    assert e in multiset(es);
    assert e in multiset(sorted);
    q :| 0 <= q < |sorted| && sorted[q] == e;
  }

  /** Sorting the pairs, keeping a prefix and rebuilding the dictionary selects the top `k` words. */
  lemma TopOfSorted(df: Tally<string>, sorted: seq<Entry>, k: nat)
    requires Tallies.Valid(df)
    requires multiset(sorted) == multiset(Entries(df)) && ByCount(sorted)
    ensures TopK(Dictionary(sorted[..if k < |sorted| then k else |sorted|]), df, k)
  {
    SortedEntries(df, sorted);
    var m := if k < |sorted| then k else |sorted|;
    DictionaryFacts(sorted[..m]);
    assert Tallies.Valid(Dictionary(sorted[..m]));
    TopCounts(df, sorted, m);
    TopOrdered(sorted, m);
    TopDominates(df, sorted, m);
  }

  /** The kept words are in non-increasing order of their counts. */
  lemma TopOrdered(sorted: seq<Entry>, m: nat)
    requires m <= |sorted| && ByCount(sorted)
    requires forall i, j :: 0 <= i < j < |sorted| ==> sorted[i].0 != sorted[j].0
    ensures var d := Dictionary(sorted[..m]);
      && Tallies.Valid(d)
      && forall i, j :: 0 <= i < j < |d.order| ==> d.count[d.order[i]] >= d.count[d.order[j]]
  {
    DictionaryFacts(sorted[..m]);
    var d := Dictionary(sorted[..m]);
    forall i, j | 0 <= i < j < |d.order| ensures d.count[d.order[i]] >= d.count[d.order[j]] {
      assert d.count[d.order[i]] == sorted[i].1 && d.count[d.order[j]] == sorted[j].1;
    }
  }

  /** The kept words carry their document frequencies. */
  lemma TopCounts(df: Tally<string>, sorted: seq<Entry>, m: nat)
    requires m <= |sorted|
    requires forall e :: e in sorted ==> e.0 in df.count && e.1 == df.count[e.0]
    requires forall i, j :: 0 <= i < j < |sorted| ==> sorted[i].0 != sorted[j].0
    ensures var d := Dictionary(sorted[..m]);
      forall w :: w in d.count ==> w in df.count && d.count[w] == df.count[w]
  {
    DictionaryFacts(sorted[..m]);
    var d := Dictionary(sorted[..m]);
    forall w | w in d.count ensures w in df.count && d.count[w] == df.count[w] {
      assert w in set x | x in d.order;
      var q :| 0 <= q < |d.order| && d.order[q] == w;
      assert sorted[q] in sorted;
    }
  }

  /** A word left out of the prefix counts no more than the last word in it. */
  lemma TopDominates(df: Tally<string>, sorted: seq<Entry>, m: nat)
    requires Tallies.Valid(df)
    requires multiset(sorted) == multiset(Entries(df)) && ByCount(sorted)
    requires m <= |sorted|
    requires forall i, j :: 0 <= i < j < |sorted| ==> sorted[i].0 != sorted[j].0
    ensures var d := Dictionary(sorted[..m]);
      d.order != [] ==> forall w :: w in df.count && w !in d.count ==> df.count[w] <= d.count[Last(d.order)]
  {
    DictionaryFacts(sorted[..m]);
    var d := Dictionary(sorted[..m]);
    if d.order != [] {
      forall w | w in df.count && w !in d.count
        ensures df.count[w] <= d.count[Last(d.order)]
      {
        var q := SortedPosition(df, sorted, w);
        assert m <= q;
        assert sorted[m - 1].1 >= sorted[q].1;
      }
    }
  }

  /**
    `SelectFeatures` after counting: list the pairs, sort them by decreasing
    count, keep the first `maxFeatures` and rebuild a dictionary in that
    order.
   */
  method TopFeatures(featureRange: Tally<string>, maxFeatures: nat) returns (d: Tally<string>)
    requires Tallies.Valid(featureRange)
    ensures TopK(d, featureRange, maxFeatures)
  {
    var range := Entries(featureRange);
    var sorted := SortByCount(range);
    TopOfSorted(featureRange, sorted, maxFeatures);
    if maxFeatures < |sorted| {
      sorted := sorted[..maxFeatures];
    } else {
      assert sorted[..|sorted|] == sorted;
    }
    d := Empty();
    for i := 0 to |sorted|
      invariant d == Dictionary(sorted[..i])
    {
      assert sorted[..i + 1][..i] == sorted[..i];
      d := Tally(d.order + [sorted[i].0], d.count[sorted[i].0 := sorted[i].1]);
    }
    assert sorted[..|sorted|] == sorted;
  }

  // ---------------------------------------------------------------------
  // TF-IDF weights and cosine normalisation
  // ---------------------------------------------------------------------

  /**
    The TF-IDF weight of a word occurring `count` times in a sample, among
    `n` samples of which `df` contain it; `ln` stands for `Math.Log`.
   */
  function Weight(count: nat, n: nat, df: nat, ln: real -> real): real
    requires df > 0
  {
    (count as real) * ln((n as real) / (df as real))
  }

  /** Every feature has a positive document frequency. */
  predicate Weighable(features: seq<string>, df: map<string, nat>) {
    forall f :: f in features ==> f in df && df[f] > 0
  }

  /**
    The raw vector of one sample: the weight of each feature the sample
    contains, zero for the others.
   */
  function Weights(features: seq<string>, df: map<string, nat>, t: Tally<string>, n: nat, ln: real -> real): (r: seq<real>)
    requires Weighable(features, df)
    ensures |r| == |features|
  {
    seq(|features|, p requires 0 <= p < |features| =>
      var f := features[p];
      if f in t.count then Weight(t.count[f], n, df[f], ln) else 0.0)
  }

  /** The sum of the squared values, added up from the first position. */
  function SumSquares(v: seq<real>): (r: real)
    ensures r >= 0.0
    decreases |v|
  {
    if v == [] then 0.0
    else
      var x := v[|v| - 1];
      SumSquares(v[..|v| - 1]) + x * x
  }

  /** Every value divided by `s`. */
  function Scaled(v: seq<real>, s: real): (r: seq<real>)
    requires s != 0.0
    ensures |r| == |v|
  {
    seq(|v|, i requires 0 <= i < |v| => v[i] / s)
  }

  /** `Math.Sqrt` is positive on positive arguments. */
  ghost predicate PositiveRoot(sqrt: real -> real) {
    forall t: real :: t > 0.0 ==> sqrt(t) > 0.0
  }

  /**
    Cosine normalisation: a vector whose squares add up to zero is left
    as it is, any other is divided by the root of that sum.
   */
  function Normalised(v: seq<real>, sqrt: real -> real): (r: seq<real>)
    requires PositiveRoot(sqrt)
    ensures |r| == |v|
  {
    var total := SumSquares(v);
    if total == 0.0 then v else Scaled(v, sqrt(total))
  }

  /**
    The first loop of `ConstructDataSet` for one sample: a zero vector over
    the features, labelled, then the weight of each of the sample's words
    that is a feature.
   */
  method Weigh(features: seq<string>, df: map<string, nat>, t: Tally<string>, n: nat, isSpam: bool, ln: real -> real)
    returns (vector: FeatureVector)
    requires Distinct(features) && Weighable(features, df) && Tallies.Valid(t)
    ensures fresh(vector) && vector.Valid()
    ensures vector.names == features && vector.isSpamClass == Some(isSpam)
    ensures vector.values == Weights(features, df, t, n, ln)
  {
    vector := new FeatureVector.Labelled(features, isSpam);
    for k := 0 to |t.order|
      invariant vector.Valid() && vector.names == features && vector.isSpamClass == Some(isSpam)
      invariant forall p :: 0 <= p < |features| ==>
        vector.values[p] == if features[p] in t.order[..k] then Weight(t.count[features[p]], n, df[features[p]], ln) else 0.0
    {
      var word := t.order[k];
      assert word in set x | x in t.order;
      if word in features {
        var weight := Weight(t.count[word], n, df[word], ln);
        vector.SetByName(word, weight);
      }
      assert t.order[..k + 1] == t.order[..k] + [word];
    }
    assert t.order[..|t.order|] == t.order;
    assert forall w :: w in t.order <==> w in t.count;
  }

  /** The second loop of `ConstructDataSet` for one vector. */
  method Normalise(vector: FeatureVector, sqrt: real -> real)
    requires vector.Valid() && PositiveRoot(sqrt)
    modifies vector
    ensures vector.Valid() && vector.names == old(vector.names) && vector.isSpamClass == old(vector.isSpamClass)
    ensures vector.values == Normalised(old(vector.values), sqrt)
  {
    var total := 0.0;
    for i := 0 to vector.Count()
      invariant total == SumSquares(vector.values[..i])
    {
      assert vector.values[..i + 1][..i] == vector.values[..i];
      total := total + vector.ValueAt(i).value * vector.ValueAt(i).value;
    }
    assert vector.values[..|vector.values|] == vector.values;
    if total == 0.0 {
      return;
    }
    ghost var raw := vector.values;
    var root := sqrt(total);
    for i := 0 to vector.Count()
      invariant vector.Valid() && vector.names == old(vector.names) && vector.isSpamClass == old(vector.isSpamClass)
      invariant |vector.values| == |raw|
      invariant forall j :: 0 <= j < i ==> vector.values[j] == raw[j] / root
      invariant forall j :: i <= j < |raw| ==> vector.values[j] == raw[j]
    {
      var norm := vector.ValueAt(i).value / root;
      var ok := vector.SetAt(i, norm);
    }
  }

  /** The first loop of `ConstructDataSet`: one labelled vector of raw weights per sample. */
  method WeighAll(features: seq<string>, df: map<string, nat>, freqs: seq<Tally<string>>, items: seq<Sample>, ln: real -> real)
    returns (vectors: seq<FeatureVector>)
    requires Distinct(features) && Weighable(features, df)
    requires |items| <= |freqs| && forall t :: t in freqs ==> Tallies.Valid(t)
    ensures |vectors| == |items|
    ensures forall i, j :: 0 <= i < j < |vectors| ==> vectors[i] != vectors[j]
    ensures forall i :: 0 <= i < |vectors| ==>
      && fresh(vectors[i]) && vectors[i].Valid()
      && vectors[i].names == features && vectors[i].isSpamClass == Some(items[i].1)
      && vectors[i].values == Weights(features, df, freqs[i], |items|, ln)
  {
    vectors := [];
    for i := 0 to |items|
      invariant |vectors| == i
      invariant forall j, k :: 0 <= j < k < i ==> vectors[j] != vectors[k]
      invariant forall j :: 0 <= j < i ==>
        && fresh(vectors[j]) && vectors[j].Valid()
        && vectors[j].names == features && vectors[j].isSpamClass == Some(items[j].1)
        && vectors[j].values == Weights(features, df, freqs[j], |items|, ln)
    {
      assert freqs[i] in freqs;
      var vector := Weigh(features, df, freqs[i], |items|, items[i].1, ln);
      vectors := vectors + [vector];
    }
  }

  /** The second loop of `ConstructDataSet`: every vector cosine-normalised in place. */
  method NormaliseAll(vectors: seq<FeatureVector>, sqrt: real -> real)
    requires PositiveRoot(sqrt)
    requires forall i, j :: 0 <= i < j < |vectors| ==> vectors[i] != vectors[j]
    requires forall i :: 0 <= i < |vectors| ==> vectors[i].Valid()
    modifies set v | v in vectors
    ensures forall i :: 0 <= i < |vectors| ==>
      && vectors[i].Valid()
      && vectors[i].names == old(vectors[i].names) && vectors[i].isSpamClass == old(vectors[i].isSpamClass)
      && vectors[i].values == Normalised(old(vectors[i].values), sqrt)
  {
    for i := 0 to |vectors|
      invariant forall j :: 0 <= j < |vectors| ==>
        && vectors[j].Valid()
        && vectors[j].names == old(vectors[j].names) && vectors[j].isSpamClass == old(vectors[j].isSpamClass)
      invariant forall j :: 0 <= j < i ==> vectors[j].values == Normalised(old(vectors[j].values), sqrt)
      invariant forall j :: i <= j < |vectors| ==> vectors[j].values == old(vectors[j].values)
    {
      Normalise(vectors[i], sqrt);
    }
  }

  /** A feature the sample lacks weighs zero, before and after normalisation. */
  lemma AbsentFeatures(features: seq<string>, df: map<string, nat>, t: Tally<string>, n: nat, ln: real -> real, sqrt: real -> real, p: nat)
    requires Weighable(features, df) && PositiveRoot(sqrt)
    requires p < |features| && features[p] !in t.count
    ensures Weights(features, df, t, n, ln)[p] == 0.0
    ensures Normalised(Weights(features, df, t, n, ln), sqrt)[p] == 0.0
  {
  }

  /** Normalising keeps exactly the zero positions of a vector, and the sign of every value. */
  lemma NormalisedSigns(v: seq<real>, sqrt: real -> real, p: nat)
    requires PositiveRoot(sqrt) && p < |v|
    ensures Normalised(v, sqrt)[p] == 0.0 <==> v[p] == 0.0
    ensures Normalised(v, sqrt)[p] > 0.0 <==> v[p] > 0.0
  {
    var total := SumSquares(v);
    if total != 0.0 {
      var root := sqrt(total);
      assert root > 0.0;
      assert Normalised(v, sqrt)[p] == v[p] / root;
    }
  }

  // ---------------------------------------------------------------------
  // What the normalised corpora store
  // ---------------------------------------------------------------------

  lemma {:induction false} FilteredAt(n: Normaliser, tokens: seq<string>, stopWords: seq<string>, isNumber: string -> bool, i: nat)
    requires Ready(n) && i < |tokens|
    ensures Filtered(n, tokens, stopWords, isNumber)[i] == Filter(n, tokens[i], stopWords, isNumber)
    decreases |tokens|
  {
    var prefix := tokens[..|tokens| - 1];
    var last := Filter(n, tokens[|tokens| - 1], stopWords, isNumber);
    assert Filtered(n, tokens, stopWords, isNumber) == Filtered(n, prefix, stopWords, isNumber) + [last];
    if i < |tokens| - 1 {
      FilteredAt(n, prefix, stopWords, isNumber, i);
    }
  }

  /** A counted word is a nonempty word at some position of `all`. */
  lemma NonEmptyOrigin(all: seq<string>, w: string) returns (i: nat)
    requires w in TallyOf(NonEmpty(all)).count
    ensures i < |all| && all[i] == w && w != ""
  {
    NonEmptyTally(all);
    i :| 0 <= i < |all| && all[i] == w;
  }

  /** A counted word is the filter result of some token of the sample. */
  lemma CountedOrigin(n: Normaliser, sample: string, stopWords: seq<string>, isNumber: string -> bool, w: string)
    returns (i: nat)
    requires Ready(n) && w in SampleTally(n, sample, stopWords, isNumber).count
    ensures i < |SplitOn(sample, ' ')| && w != ""
    ensures w == Filter(n, SplitOn(sample, ' ')[i], stopWords, isNumber)
  {
    var tokens := SplitOn(sample, ' ');
    i := NonEmptyOrigin(Filtered(n, tokens, stopWords, isNumber), w);
    FilteredAt(n, tokens, stopWords, isNumber, i);
  }

  /** In a mapped corpus every counted word is one `Map` leaves unchanged. */
  lemma MappedWords(m: LexicalMapping.LexicalMapper, sample: string, stopWords: seq<string>, isNumber: string -> bool, w: string)
    requires Ready(WithMapper(Some(m)))
    requires w in SampleTally(WithMapper(Some(m)), sample, stopWords, isNumber).count
    ensures w !in m.mappings
  {
    var n := WithMapper(Some(m));
    var i := CountedOrigin(n, sample, stopWords, isNumber, w);
    FilterMeaning(n, SplitOn(sample, ' ')[i], stopWords, isNumber);
  }

  /**
    In a stemmed corpus every counted word is a substring of a word the base
    filter kept from a token of the sample.
   */
  lemma StemmedWords(stemSize: nat, s: Stemming.Stemmer, sample: string, stopWords: seq<string>, isNumber: string -> bool, w: string)
    requires Ready(WithStemmer(stemSize, Some(s)))
    requires w in SampleTally(WithStemmer(stemSize, Some(s)), sample, stopWords, isNumber).count
    ensures exists token ::
      token in SplitOn(sample, ' ') && BaseFilter(token, stopWords, isNumber) != "" &&
      IsSubstring(w, BaseFilter(token, stopWords, isNumber))
  {
    var n := WithStemmer(stemSize, Some(s));
    var i := CountedOrigin(n, sample, stopWords, isNumber, w);
    var token := SplitOn(sample, ' ')[i];
    FilterMeaning(n, token, stopWords, isNumber);
  }

  /** The documents `MappedCorpus` hands to the mapper: the words of each tally. */
  function Documents(freqs: seq<Tally<string>>): (r: seq<seq<string>>)
    ensures |r| == |freqs|
    ensures forall i :: 0 <= i < |freqs| ==> r[i] == freqs[i].order
  {
    seq(|freqs|, i requires 0 <= i < |freqs| => freqs[i].order)
  }

  lemma {:induction false} FlattenTokens(docs: seq<seq<string>>)
    requires forall i, w :: 0 <= i < |docs| && w in docs[i] ==> Token(w)
    ensures forall w :: w in LexicalMapping.Flatten(docs) ==> Token(w)
    decreases |docs|
  {
    if docs != [] {
      FlattenTokens(docs[..|docs| - 1]);
    }
  }

  /**
    Tallies of tokens make documents the mapper ranks: no document repeats a
    word, even ignoring case, and every mapping leads to a token.
   */
  lemma DocumentsReady(freqs: seq<Tally<string>>)
    requires forall t :: t in freqs ==> Vocabulary(t)
    ensures forall d :: d in Documents(freqs) ==> LexicalMapping.CaseDistinct(d)
    ensures var m := LexicalMapping.MappingsOf(Documents(freqs));
      forall a :: a in m ==> Token(m[a])
  {
    var docs := Documents(freqs);
    forall d | d in docs ensures LexicalMapping.CaseDistinct(d) {
      var k :| 0 <= k < |docs| && docs[k] == d;
      var t := freqs[k];
      assert t in freqs;
      forall i, j | 0 <= i < j < |d| ensures Lower(d[i]) != Lower(d[j]) {
        var x, y := d[i], d[j];
        assert x in t.count && y in t.count;
        LowerFacts(x);
        LowerFacts(y);
      }
    }
    forall i, w | 0 <= i < |docs| && w in docs[i] ensures Token(w) {
      var t := freqs[i];
      assert t in freqs;
      assert w in t.count;
    }
    FlattenTokens(docs);
    LexicalMapping.MappingTargets(docs);
  }

  /** The loop of `MappedCorpus.SelectFeatures` listing the words of every tally. */
  method ListDocuments(freqs: seq<Tally<string>>) returns (docs: seq<seq<string>>)
    ensures docs == Documents(freqs)
  {
    docs := [];
    for i := 0 to |freqs|
      invariant docs == Documents(freqs[..i])
    {
      docs := docs + [freqs[i].order];
    }
    assert freqs[..|freqs|] == freqs;
  }

  /** The counting half of `ExtractTokens`: for each word, the number of tallies that have it. */
  method CountDocuments(freqs: seq<Tally<string>>) returns (foundTokens: Tally<string>)
    ensures foundTokens == DocFrequency(freqs)
  {
    foundTokens := Empty();
    for i := 0 to |freqs|
      invariant foundTokens == TallyOf(AllKeys(freqs[..i]))
    {
      assert freqs[..i + 1][..i] == freqs[..i];
      foundTokens := CountWords(foundTokens, AllKeys(freqs[..i]), freqs[i].order);
    }
    assert freqs[..|freqs|] == freqs;
  }

  /** Adds one tally's words to the running document counts. */
  method CountWords(found: Tally<string>, ghost counted: seq<string>, words: seq<string>) returns (r: Tally<string>)
    requires found == TallyOf(counted)
    ensures r == TallyOf(counted + words)
  {
    r := found;
    assert counted + words[..0] == counted;
    for k := 0 to |words|
      invariant r == TallyOf(counted + words[..k])
    {
      var word := words[k];
      TallyOfSnoc(counted + words[..k], word);
      assert counted + words[..k + 1] == counted + words[..k] + [word];
      r := Add(r, word);
    }
    assert words[..|words|] == words;
  }

  /** Every tally counts tokens only. */
  predicate Vocabularies(freqs: seq<Tally<string>>) {
    forall t :: t in freqs ==> Vocabulary(t)
  }

  /** A dictionary of features with positive frequencies, and its keys in order. */
  predicate Selected(d: Tally<string>, features: seq<string>) {
    Vocabulary(d) && features == d.order && Weighable(features, d.count)
  }

  /** Some dictionary with exactly these words is a top-`k` selection from `df`. */
  ghost predicate TopWords(words: seq<string>, df: Tally<string>, k: nat) {
    exists d: Tally<string> :: d.order == words && TopK(d, df, k)
  }

  // ---------------------------------------------------------------------
  // The corpus
  // ---------------------------------------------------------------------

  /** The list of samples, shared between a corpus and the corpora copied from it. */
  class SampleList {
    var items: seq<Sample>

    constructor ()
      ensures items == []
    {
      items := [];
    }
  }

  class Corpus {
    /** The samples; a copied corpus shares the list of the corpus it copies. */
    const samples: SampleList
    /** One tally per processed sample, in processing order. */
    var sampleFrequencies: seq<Tally<string>>
    /** The selected features with their document frequencies. */
    var featureDF: Tally<string>
    /** The keys of `featureDF`, in its order. */
    var features: seq<string>
    /** One feature vector per sample, once built. */
    var dataSet: seq<FeatureVector>
    /** Plain, stemmed or mapped, with the stemmer or mapper once built. */
    var normaliser: Normaliser

    ghost predicate Valid()
      reads this
    {
      Vocabularies(sampleFrequencies) && Selected(featureDF, features) && Ready(normaliser)
    }

    /** `Corpus()`: an empty corpus with a list of its own. */
    constructor ()
      ensures Valid() && fresh(samples) && samples.items == []
      ensures sampleFrequencies == [] && features == [] && dataSet == [] && normaliser == Basic
    {
      samples := new SampleList();
      sampleFrequencies := [];
      featureDF := Empty();
      features := [];
      dataSet := [];
      normaliser := Basic;
    }

    /** `Corpus(Corpus data)`: shares `data`'s samples; nothing counted yet. */
    constructor Copy(data: Corpus)
      ensures Valid() && samples == data.samples
      ensures sampleFrequencies == [] && features == [] && dataSet == [] && normaliser == Basic
    {
      samples := data.samples;
      sampleFrequencies := [];
      featureDF := Empty();
      features := [];
      dataSet := [];
      normaliser := Basic;
    }

    /** `StemmedCorpus(baseData, stemListSize)`: shares the samples; no stemmer yet. */
    constructor Stemmed(data: Corpus, stemListSize: nat)
      ensures Valid() && samples == data.samples
      ensures sampleFrequencies == [] && features == [] && dataSet == []
      ensures normaliser == WithStemmer(stemListSize, None)
    {
      samples := data.samples;
      sampleFrequencies := [];
      featureDF := Empty();
      features := [];
      dataSet := [];
      normaliser := WithStemmer(stemListSize, None);
    }

    /** `MappedCorpus(baseData)`: shares the samples; no mapper yet. */
    constructor Mapped(data: Corpus)
      ensures Valid() && samples == data.samples
      ensures sampleFrequencies == [] && features == [] && dataSet == []
      ensures normaliser == WithMapper(None)
    {
      samples := data.samples;
      sampleFrequencies := [];
      featureDF := Empty();
      features := [];
      dataSet := [];
      normaliser := WithMapper(None);
    }

    /** `AddSample`: appends to the shared list, so every corpus sharing it sees the sample. */
    method AddSample(sample: string, isSpam: bool)
      modifies samples
      ensures samples.items == old(samples.items) + [(sample, isSpam)]
    {
      samples.items := samples.items + [(sample, isSpam)];
    }

    /** `FilterWord`, dispatched on the kind of corpus. */
    method FilterWord(token: string, stopWords: seq<string>, isNumber: string -> bool) returns (word: string)
      requires Ready(normaliser)
      ensures word == Filter(normaliser, token, stopWords, isNumber)
    {
      word := BaseFilter(token, stopWords, isNumber);
      match normaliser {
        case WithStemmer(_, Some(stemmer)) =>
          word := stemmer.Stem(word);
        case WithMapper(Some(mapper)) =>
          word := mapper.Map(word);
        case _ =>
      }
    }

    /**
      `ExtractTokensFromSample`: counts the kept words of the sample's
      space-separated tokens and appends the tally. The list meant to count a
      word once per document is never filled, so every occurrence counts.
     */
    method ExtractTokensFromSample(sample: string, stopWords: seq<string>, isNumber: string -> bool)
      requires Valid()
      modifies this
      ensures Valid()
      ensures sampleFrequencies == old(sampleFrequencies) + [SampleTally(normaliser, sample, stopWords, isNumber)]
      ensures featureDF == old(featureDF) && features == old(features)
      ensures dataSet == old(dataSet) && normaliser == old(normaliser)
    {
      var foundTokens: Tally<string> := Empty();
      var usedWords: seq<string> := [];
      var tokens := SplitOn(sample, ' ');
      ghost var kept: seq<string> := [];
      for i := 0 to |tokens|
        modifies {}
        invariant kept == Kept(normaliser, tokens[..i], stopWords, isNumber)
        invariant foundTokens == TallyOf(kept)
      {
        var word := FilterWord(tokens[i], stopWords, isNumber);
        KeptSnoc(normaliser, tokens, i, stopWords, isNumber);
        if word != "" {
          var used := word in usedWords;
          if !used {
            TallyOfSnoc(kept, word);
            foundTokens := Add(foundTokens, word);
            kept := kept + [word];
          }
        }
      }
      assert tokens[..|tokens|] == tokens;
      KeptVocabulary(normaliser, tokens, stopWords, isNumber);
      sampleFrequencies := sampleFrequencies + [foundTokens];
    }

    /**
      `ExtractTokens`: processes every sample, appending its tally after any
      tallies already there, then counts in how many tallies each word occurs.
     */
    method ExtractTokens(stopWords: seq<string>, isNumber: string -> bool) returns (foundTokens: Tally<string>)
      requires Valid()
      modifies this
      ensures Valid()
      ensures sampleFrequencies == old(sampleFrequencies) + SampleTallies(normaliser, samples.items, stopWords, isNumber)
      ensures foundTokens == DocFrequency(sampleFrequencies)
      ensures featureDF == old(featureDF) && features == old(features)
      ensures dataSet == old(dataSet) && normaliser == old(normaliser)
    {
      var items := samples.items;
      ghost var n := normaliser;
      ghost var expected := SampleTallies(n, items, stopWords, isNumber);
      for i := 0 to |items|
        invariant featureDF == old(featureDF) && features == old(features)
        invariant dataSet == old(dataSet) && normaliser == n
        invariant Valid()
        invariant sampleFrequencies == old(sampleFrequencies) + expected[..i]
      {
        ExtractTokensFromSample(items[i].0, stopWords, isNumber);
        TakeSnoc(expected, i);
        AppendAssociates(old(sampleFrequencies), expected[..i], [expected[i]]);
      }
      assert expected[..|items|] == expected;
      foundTokens := CountDocuments(sampleFrequencies);
    }

    /** The `FeatureDF` setter: stores the dictionary and lists its keys, in order, as the features. */
    method SetFeatureDF(d: Tally<string>)
      modifies this
      ensures featureDF == d && features == d.order
      ensures sampleFrequencies == old(sampleFrequencies) && dataSet == old(dataSet) && normaliser == old(normaliser)
    {
      featureDF := d;
      var list: seq<string> := [];
      for i := 0 to |d.order|
        invariant list == d.order[..i]
      {
        list := list + [d.order[i]];
      }
      features := list;
    }

    /**
      `Corpus.SelectFeatures`: extracts the tokens, then keeps the
      `maxFeatures` words of highest document frequency as the features.
     */
    method SelectTopFeatures(stopWords: seq<string>, isNumber: string -> bool, maxFeatures: nat)
      requires Valid()
      modifies this
      ensures Valid()
      ensures sampleFrequencies == old(sampleFrequencies) + SampleTallies(normaliser, samples.items, stopWords, isNumber)
      ensures old(sampleFrequencies) == [] ==> sampleFrequencies == SampleTallies(normaliser, samples.items, stopWords, isNumber)
      ensures TopK(featureDF, DocFrequency(sampleFrequencies), maxFeatures)
      ensures dataSet == old(dataSet) && normaliser == old(normaliser)
    {
      var featureRange := ExtractTokens(stopWords, isNumber);
      DocFrequencyCounts(sampleFrequencies);
      var d := TopFeatures(featureRange, maxFeatures);
      SetFeatureDF(d);
      assert forall w :: w in d.order ==> w in d.count;
    }

    /**
      The second half of `StemmedCorpus.SelectFeatures` and of
      `MappedCorpus.SelectFeatures`: the tallies are discarded and features
      are selected again, every word now going through the normaliser.
     */
    method Reselect(stopWords: seq<string>, isNumber: string -> bool, maxFeatures: nat)
      requires Selected(featureDF, features) && Ready(normaliser)
      modifies this
      ensures Valid() && normaliser == old(normaliser)
      ensures sampleFrequencies == SampleTallies(normaliser, samples.items, stopWords, isNumber)
      ensures TopK(featureDF, DocFrequency(sampleFrequencies), maxFeatures)
      ensures samples.items == old(samples.items) && dataSet == old(dataSet)
    {
      sampleFrequencies := [];
      SelectTopFeatures(stopWords, isNumber, maxFeatures);
    }

    /**
      The first half of `StemmedCorpus.SelectFeatures`: a first selection of
      `stemSize` words becomes the vocabulary of a new stemmer.
     */
    method BuildStemmer(stopWords: seq<string>, isNumber: string -> bool) returns (stemmer: Stemming.Stemmer)
      requires Valid() && normaliser.WithStemmer?
      modifies this
      ensures Valid() && normaliser == old(normaliser)
      ensures Ready(WithStemmer(normaliser.stemSize, Some(stemmer)))
      ensures var first := DocFrequency(old(sampleFrequencies) + SampleTallies(old(normaliser), old(samples.items), stopWords, isNumber));
        TopWords(stemmer.corpusWords, first, normaliser.stemSize)
      ensures samples.items == old(samples.items) && dataSet == old(dataSet)
    {
      ghost var items, tallied := samples.items, old(sampleFrequencies) + SampleTallies(normaliser, samples.items, stopWords, isNumber);
      SelectTopFeatures(stopWords, isNumber, normaliser.stemSize);
      assert sampleFrequencies == tallied;
      ghost var chosen, first := featureDF, DocFrequency(tallied);
      var words := features;
      assert forall w :: w in words ==> w in chosen.count && Token(w);
      stemmer := new Stemming.Stemmer(words);
      assert samples.items == items;
      assert stemmer.corpusWords == chosen.order && TopK(chosen, first, normaliser.stemSize);
    }

    /**
      `StemmedCorpus.SelectFeatures`: a first selection of `stemSize` words
      becomes the stemmer's vocabulary; the tallies are then discarded and
      features are selected again with every word stemmed.
     */
    method SelectStemmed(stopWords: seq<string>, isNumber: string -> bool, maxFeatures: nat)
      requires Valid() && normaliser.WithStemmer?
      modifies this
      ensures Valid()
      ensures normaliser.WithStemmer? && normaliser.stemSize == old(normaliser.stemSize) && normaliser.stemmer.Some?
      ensures var first := DocFrequency(old(sampleFrequencies) + SampleTallies(old(normaliser), old(samples.items), stopWords, isNumber));
        TopWords(normaliser.stemmer.value.corpusWords, first, normaliser.stemSize)
      ensures sampleFrequencies == SampleTallies(normaliser, samples.items, stopWords, isNumber)
      ensures TopK(featureDF, DocFrequency(sampleFrequencies), maxFeatures)
      ensures samples.items == old(samples.items) && dataSet == old(dataSet)
    {
      var stemmer := BuildStemmer(stopWords, isNumber);
      normaliser := WithStemmer(normaliser.stemSize, Some(stemmer));
      Reselect(stopWords, isNumber, maxFeatures);
    }

    /**
      The first half of `MappedCorpus.SelectFeatures`: extracts the tokens
      without selecting and learns a mapper from the words of every tally.
     */
    method BuildMapper(stopWords: seq<string>, isNumber: string -> bool) returns (mapper: LexicalMapping.LexicalMapper)
      requires Valid() && normaliser.WithMapper?
      modifies this
      ensures Valid() && normaliser == old(normaliser)
      ensures Ready(WithMapper(Some(mapper)))
      ensures var docs := Documents(old(sampleFrequencies) + SampleTallies(old(normaliser), old(samples.items), stopWords, isNumber));
        mapper.mappings == LexicalMapping.MappingsOf(docs)
      ensures samples.items == old(samples.items) && dataSet == old(dataSet)
    {
      ghost var items := samples.items;
      var featureRange := ExtractTokens(stopWords, isNumber);
      var dFeatures := ListDocuments(sampleFrequencies);
      DocumentsReady(sampleFrequencies);
      mapper := new LexicalMapping.LexicalMapper(dFeatures);
      assert samples.items == items;
    }

    /**
      `MappedCorpus.SelectFeatures`: learns the mapper, then discards the
      tallies and selects features with every word mapped.
     */
    method SelectMapped(stopWords: seq<string>, isNumber: string -> bool, maxFeatures: nat)
      requires Valid() && normaliser.WithMapper?
      modifies this
      ensures Valid()
      ensures normaliser.WithMapper? && normaliser.mapper.Some?
      ensures var docs := Documents(old(sampleFrequencies) + SampleTallies(old(normaliser), old(samples.items), stopWords, isNumber));
        normaliser.mapper.value.mappings == LexicalMapping.MappingsOf(docs)
      ensures sampleFrequencies == SampleTallies(normaliser, samples.items, stopWords, isNumber)
      ensures TopK(featureDF, DocFrequency(sampleFrequencies), maxFeatures)
      ensures samples.items == old(samples.items) && dataSet == old(dataSet)
    {
      var mapper := BuildMapper(stopWords, isNumber);
      normaliser := WithMapper(Some(mapper));
      Reselect(stopWords, isNumber, maxFeatures);
    }

    /** `SelectFeatures`, dispatched on the kind of corpus. */
    method SelectFeatures(stopWords: seq<string>, isNumber: string -> bool, maxFeatures: nat)
      requires Valid()
      modifies this
      ensures Valid() && samples.items == old(samples.items) && dataSet == old(dataSet)
      ensures old(normaliser).Basic? ==>
        normaliser == Basic &&
        sampleFrequencies == old(sampleFrequencies) + SampleTallies(Basic, samples.items, stopWords, isNumber)
      ensures old(normaliser).WithStemmer? ==>
        && normaliser.WithStemmer? && normaliser.stemSize == old(normaliser.stemSize) && normaliser.stemmer.Some?
        && var first := DocFrequency(old(sampleFrequencies) + SampleTallies(old(normaliser), old(samples.items), stopWords, isNumber));
          TopWords(normaliser.stemmer.value.corpusWords, first, normaliser.stemSize)
      ensures old(normaliser).WithMapper? ==>
        && normaliser.WithMapper? && normaliser.mapper.Some?
        && var docs := Documents(old(sampleFrequencies) + SampleTallies(old(normaliser), old(samples.items), stopWords, isNumber));
          normaliser.mapper.value.mappings == LexicalMapping.MappingsOf(docs)
      ensures !old(normaliser).Basic? ==> sampleFrequencies == SampleTallies(normaliser, samples.items, stopWords, isNumber)
      ensures TopK(featureDF, DocFrequency(sampleFrequencies), maxFeatures)
    {
      match normaliser {
        case Basic =>
          SelectTopFeatures(stopWords, isNumber, maxFeatures);
        case WithStemmer(_, _) =>
          SelectStemmed(stopWords, isNumber, maxFeatures);
        case WithMapper(_) =>
          SelectMapped(stopWords, isNumber, maxFeatures);
      }
    }

    /**
      `ConstructDataSet`: one vector per sample, in sample order, over the
      features and labelled with the sample's label; each holds the TF-IDF
      weights of the sample's words and is then cosine-normalised. `ln` and
      `sqrt` stand for `Math.Log` and `Math.Sqrt`.
     */
    method ConstructDataSet(ln: real -> real, sqrt: real -> real)
      requires Valid() && PositiveRoot(sqrt)
      requires |samples.items| <= |sampleFrequencies|
      modifies this
      ensures Valid()
      ensures sampleFrequencies == old(sampleFrequencies) && featureDF == old(featureDF)
      ensures features == old(features) && normaliser == old(normaliser)
      ensures |dataSet| == |samples.items|
      ensures forall i, j :: 0 <= i < j < |dataSet| ==> dataSet[i] != dataSet[j]
      ensures forall i :: 0 <= i < |dataSet| ==>
        && fresh(dataSet[i]) && dataSet[i].Valid()
        && dataSet[i].names == features && dataSet[i].isSpamClass == Some(samples.items[i].1)
        && dataSet[i].values == Normalised(Weights(features, featureDF.count, sampleFrequencies[i], |samples.items|, ln), sqrt)
    {
      assert forall t :: t in sampleFrequencies ==> Tallies.Valid(t);
      var vectors := WeighAll(features, featureDF.count, sampleFrequencies, samples.items, ln);
      NormaliseAll(vectors, sqrt);
      dataSet := vectors;
    }
  }
}
