/**
  The lexical mapper: counts how often words occur and co-occur in the
  documents, maps a word to a partner it strongly co-occurs with, and
  resolves a word by following the mapping to its end.
 */
module LexicalMapping {
  import opened Wrappers
  import opened Text
  import opened Tallies

  /** A pairing key: the case-insensitively smaller word first. */
  type Pair = (string, string)

  /** The acceptance threshold on the larger conditional probability. */
  const ProbThreshold: real := 0.7

  /** The bound on the gap between the two conditional probabilities. */
  const MaxSpread: real := 0.8

  /** A pair is skipped when a word occurs in fewer than one in this many documents. */
  const DocsPerOccurrence: nat := 80

  /** All tokens, document after document. */
  function Flatten(docs: seq<seq<string>>): seq<string>
    decreases |docs|
  {
    if docs == [] then [] else Flatten(docs[..|docs| - 1]) + docs[|docs| - 1]
  }

  /** The key the source counts `a` and `b` under. */
  function PairKey(a: string, b: string): (r: Pair)
    ensures r == (a, b) || r == (b, a)
    ensures Lower(a) != Lower(b) ==> LessIgnoringCase(r.0, r.1)
  {
    if LessIgnoringCase(a, b) then (a, b)
    else if Lower(a) == Lower(b) then (b, a)
    else
      LexLessTotal(Lower(a), Lower(b));
      (b, a)
  }

  /** The keys counted for position `i` paired with positions `i + 1 .. j - 1`. */
  function RowPairs(doc: seq<string>, i: nat, j: nat): (r: seq<Pair>)
    requires i < |doc| && j <= |doc|
    ensures |r| == if j <= i + 1 then 0 else j - i - 1
    ensures forall p :: p in r ==> p.0 in doc && p.1 in doc
    decreases j
  {
    if j <= i + 1 then [] else RowPairs(doc, i, j - 1) + [PairKey(doc[i], doc[j - 1])]
  }

  /** The keys counted for the positions before `n` of one document. */
  function DocPairs(doc: seq<string>, n: nat): (r: seq<Pair>)
    requires n <= |doc|
    ensures forall p :: p in r ==> p.0 in doc && p.1 in doc
  {
    if n == 0 then [] else DocPairs(doc, n - 1) + RowPairs(doc, n - 1, |doc|)
  }

  /** Every key counted, in counting order. */
  function CorpusPairs(docs: seq<seq<string>>): (r: seq<Pair>)
    ensures forall p :: p in r ==> p.0 in Flatten(docs) && p.1 in Flatten(docs)
    decreases |docs|
  {
    if docs == [] then []
    else
      var last := docs[|docs| - 1];
      var r := CorpusPairs(docs[..|docs| - 1]) + DocPairs(last, |last|);
      assert forall p :: p in r ==> p.0 in Flatten(docs) && p.1 in Flatten(docs);
      r
  }

  /** Twice the number of position pairs `i < j` over all documents. */
  function PairSlots(docs: seq<seq<string>>): nat
    decreases |docs|
  {
    if docs == [] then 0
    else
      var n := |docs[|docs| - 1]|;
      PairSlots(docs[..|docs| - 1]) + n * (n - 1)
  }

  lemma {:induction false} DocPairsLength(doc: seq<string>, n: nat)
    requires n <= |doc|
    ensures 2 * |DocPairs(doc, n)| + n * n + n == 2 * n * |doc|
  {
    if n > 0 {
      var m, l := n - 1, |doc|;
      calc {
        n * n;
        (m + 1) * (m + 1);
        m * m + 2 * m + 1;
      }
      calc {
        2 * n * l;
        (2 * m + 2) * l;
        (2 * m) * l + 2 * l;
      }
      DocPairsLength(doc, m);
    }
  }

  lemma {:induction false} CorpusPairsLength(docs: seq<seq<string>>)
    ensures 2 * |CorpusPairs(docs)| == PairSlots(docs)
    decreases |docs|
  {
    if docs != [] {
      var last := docs[|docs| - 1];
      var l := |last|;
      calc {
        l * (l - 1);
        l * l - l;
      }
      calc {
        2 * l * l;
        (l + l) * l;
        l * l + l * l;
      }
      CorpusPairsLength(docs[..|docs| - 1]);
      DocPairsLength(last, l);
    }
  }

  /** No two tokens of a document are equal ignoring case; in particular no token repeats. */
  predicate CaseDistinct(doc: seq<string>) {
    forall i, j :: 0 <= i < j < |doc| ==> Lower(doc[i]) != Lower(doc[j])
  }

  lemma {:induction false} RowPairsOrdered(doc: seq<string>, i: nat, j: nat)
    requires i < |doc| && j <= |doc| && CaseDistinct(doc)
    ensures forall p :: p in RowPairs(doc, i, j) ==> LessIgnoringCase(p.0, p.1)
    decreases j
  {
    if j > i + 1 {
      RowPairsOrdered(doc, i, j - 1);
      var a, b := doc[i], doc[j - 1];
      assert Lower(a) != Lower(b);
    }
  }

  lemma {:induction false} DocPairsOrdered(doc: seq<string>, n: nat)
    requires n <= |doc| && CaseDistinct(doc)
    ensures forall p :: p in DocPairs(doc, n) ==> LessIgnoringCase(p.0, p.1)
  {
    if n > 0 {
      DocPairsOrdered(doc, n - 1);
      RowPairsOrdered(doc, n - 1, |doc|);
    }
  }

  /** When no document repeats a word (ignoring case), every key has its smaller word strictly first. */
  lemma {:induction false} CorpusPairsOrdered(docs: seq<seq<string>>)
    requires forall d :: d in docs ==> CaseDistinct(d)
    ensures forall p :: p in CorpusPairs(docs) ==> LessIgnoringCase(p.0, p.1)
    decreases |docs|
  {
    if docs != [] {
      var last := docs[|docs| - 1];
      CorpusPairsOrdered(docs[..|docs| - 1]);
      DocPairsOrdered(last, |last|);
    }
  }

  /**
    The innermost counting loop: the word at position `i` paired with every
    later word of the document.
   */
  method CountRow(pairings: Tally<Pair>, ghost counted: seq<Pair>, document: seq<string>, i: nat)
    returns (pairings': Tally<Pair>)
    requires i < |document| && pairings == TallyOf(counted)
    ensures pairings' == TallyOf(counted + RowPairs(document, i, |document|))
  {
    pairings' := pairings;
    var a := document[i];
    assert counted + RowPairs(document, i, i + 1) == counted;
    for j := i + 1 to |document|
      invariant pairings' == TallyOf(counted + RowPairs(document, i, j))
    {
      var b := document[j];
      var pair;
      if LessIgnoringCase(a, b) {
        pair := (a, b);
      } else {
        pair := (b, a);
      }
      TallyOfSnoc(counted + RowPairs(document, i, j), pair);
      AppendAssociates(counted, RowPairs(document, i, j), [pair]);
      pairings' := Add(pairings', pair);
    }
  }

  /** The counting loops for one document. */
  method CountDocument(df: Tally<string>, pairings: Tally<Pair>, omega: nat,
                       ghost tokens: seq<string>, ghost counted: seq<Pair>, document: seq<string>)
    returns (df': Tally<string>, pairings': Tally<Pair>, omega': nat)
    requires df == TallyOf(tokens) && pairings == TallyOf(counted) && omega == |tokens|
    ensures df' == TallyOf(tokens + document)
    ensures pairings' == TallyOf(counted + DocPairs(document, |document|))
    ensures omega' == |tokens + document|
  {
    df', pairings', omega' := df, pairings, omega;
    assert tokens + document[..0] == tokens;
    assert counted + DocPairs(document, 0) == counted;
    for i := 0 to |document|
      invariant df' == TallyOf(tokens + document[..i])
      invariant pairings' == TallyOf(counted + DocPairs(document, i))
      invariant omega' == |tokens| + i
    {
      var a := document[i];
      ghost var seen := tokens + document[..i];
      TallyOfSnoc(seen, a);
      TakeSnoc(document, i);
      AppendAssociates(tokens, document[..i], [a]);
      df' := Add(df', a);
      omega' := omega' + 1;
      ghost var done := DocPairs(document, i);
      ghost var row := RowPairs(document, i, |document|);
      pairings' := CountRow(pairings', counted + done, document, i);
      assert DocPairs(document, i + 1) == done + row;
      AppendAssociates(counted, done, row);
    }
    assert document[..|document|] == document;
  }

  /**
    The counting loops: `df[w]` is the number of occurrences of `w` in all
    documents, `omega` the number of tokens, and `pairings` counts, for each
    document and each positions `i < j`, the key of the two words once.
   */
  method CountTokens(docs: seq<seq<string>>) returns (df: Tally<string>, pairings: Tally<Pair>, omega: nat)
    ensures df == TallyOf(Flatten(docs))
    ensures pairings == TallyOf(CorpusPairs(docs))
    ensures omega == |Flatten(docs)|
  {
    df, pairings, omega := Empty(), Empty(), 0;
    for d := 0 to |docs|
      invariant df == TallyOf(Flatten(docs[..d]))
      invariant pairings == TallyOf(CorpusPairs(docs[..d]))
      invariant omega == |Flatten(docs[..d])|
    {
      assert docs[..d + 1][..d] == docs[..d];
      df, pairings, omega := CountDocument(df, pairings, omega, Flatten(docs[..d]), CorpusPairs(docs[..d]), docs[d]);
    }
    assert docs[..|docs|] == docs;
  }

  /**
    What the word counts say: every word's count is its number of
    occurrences in all documents, and the counts add up to `omega`, the
    number of tokens.
   */
  lemma WordCounts(docs: seq<seq<string>>)
    ensures var df := TallyOf(Flatten(docs));
      && Valid(df)
      && (forall w :: w in df.count <==> w in Flatten(docs))
      && (forall w :: w in df.count ==> df.count[w] == Occurrences(Flatten(docs), w))
      && SumCounts(df.order, df.count) == |Flatten(docs)|
  {
    TallyOfCounts(Flatten(docs));
  }

  /**
    What the pair counts say: every key's count is its number of occurrences
    among the position pairs, and the counts add up to the number of
    position pairs `i < j`, `n(n-1)/2` per document of `n` tokens.
   */
  lemma PairCounts(docs: seq<seq<string>>)
    ensures var pairings := TallyOf(CorpusPairs(docs));
      && Valid(pairings)
      && (forall p :: p in pairings.count <==> p in CorpusPairs(docs))
      && (forall p :: p in pairings.count ==> pairings.count[p] == Occurrences(CorpusPairs(docs), p))
      && 2 * SumCounts(pairings.order, pairings.count) == PairSlots(docs)
  {
    var pairs := CorpusPairs(docs);
    TallyOfCounts(pairs);
    CorpusPairsLength(docs);
    var t := TallyOf(pairs);
    assert Valid(t);
    assert forall p :: p in t.count <==> p in pairs;
    assert forall p :: p in t.count ==> t.count[p] == Occurrences(pairs, p);
    assert SumCounts(t.order, t.count) == |pairs|;
  }

  function RMax(x: real, y: real): real {
    if x >= y then x else y
  }

  function RMin(x: real, y: real): real {
    if x <= y then x else y
  }

  /** `P(Item1|Item2)` once the token total cancels: the pair count over `df[Item2]`. */
  function Given(count: nat, dfGiven: nat): real
    requires dfGiven > 0
  {
    count as real / dfGiven as real
  }

  /**
    The significance rule for one key counted `count` times, with document
    frequencies `dfA` of `key.0` and `dfB` of `key.1`, among `nDocs`
    documents: `None` when the pair is skipped or rejected, otherwise the
    source word, its target and the larger probability.
   */
  function Verdict(key: Pair, count: nat, dfA: nat, dfB: nat, nDocs: nat): (r: Option<(string, string, real)>)
    requires dfA > 0 && dfB > 0
    ensures r.Some? <==>
      && Min(dfA, dfB) >= nDocs / DocsPerOccurrence
      && RMax(Given(count, dfB), Given(count, dfA)) >= ProbThreshold
      && RMax(Given(count, dfB), Given(count, dfA)) - RMin(Given(count, dfB), Given(count, dfA)) < MaxSpread
    ensures r.Some? ==> r.value.2 == RMax(Given(count, dfB), Given(count, dfA)) && r.value.2 >= ProbThreshold
    ensures r.Some? ==> (r.value.0, r.value.1) in {key, (key.1, key.0)}
  {
    var agb := Given(count, dfB);
    var bga := Given(count, dfA);
    if Min(dfA, dfB) < nDocs / DocsPerOccurrence then None
    else
      var maxProb := RMax(agb, bga);
      var minProb := RMin(agb, bga);
      if maxProb >= ProbThreshold && maxProb - minProb < MaxSpread then
        if agb > bga then Some((key.0, key.1, maxProb)) else Some((key.1, key.0, maxProb))
      else None
  }

  /** Dividing by a larger number gives no more. */
  lemma DivideMore(c: real, x: real, y: real)
    requires c >= 0.0 && 0.0 < x <= y
    ensures c / y <= c / x
  {
    var p, q := c / x, c / y;
    assert p * x == c && q * y == c;
    assert p >= 0.0;
    assert p * y >= p * x;
  }

  /** Dividing a positive number by a strictly larger one gives strictly less. */
  lemma DivideMoreStrict(c: real, x: real, y: real)
    requires c > 0.0 && 0.0 < x < y
    ensures c / y < c / x
  {
    var p, q := c / x, c / y;
    assert p * x == c && q * y == c;
    assert p > 0.0;
    assert p * y > p * x;
  }

  /**
    The direction rule for a key of two different words: the target never
    occurs in more documents than the source, and it is `key.0`, the
    case-insensitively smaller word, whenever the two occur equally often.
   */
  lemma VerdictDirection(key: Pair, count: nat, dfA: nat, dfB: nat, nDocs: nat)
    requires dfA > 0 && dfB > 0 && key.0 != key.1
    requires Verdict(key, count, dfA, dfB, nDocs).Some?
    ensures var v := Verdict(key, count, dfA, dfB, nDocs).value;
      && ((v.0, v.1) == key ==> dfB < dfA)
      && ((v.0, v.1) == (key.1, key.0) ==> dfA <= dfB)
  {
    var agb := Given(count, dfB);
    var bga := Given(count, dfA);
    if agb > bga {
      if dfB >= dfA {
        DivideMore(count as real, dfA as real, dfB as real);
      }
    } else {
      if dfB < dfA {
        DivideMoreStrict(count as real, dfB as real, dfA as real);
      }
    }
  }

  /**
    An accepted key of two words, the smaller one first, maps a word to one
    that precedes it.
   */
  lemma VerdictRanked(key: Pair, count: nat, df: map<string, nat>, nDocs: nat)
    requires key.0 in df && key.1 in df && df[key.0] > 0 && df[key.1] > 0
    requires LessIgnoringCase(key.0, key.1)
    requires Verdict(key, count, df[key.0], df[key.1], nDocs).Some?
    ensures var v := Verdict(key, count, df[key.0], df[key.1], nDocs).value;
      Precedes(df, v.1, v.0)
  {
    if key.0 == key.1 {
      LexLessIrreflexive(Lower(key.0));
    }
    VerdictDirection(key, count, df[key.0], df[key.1], nDocs);
  }

  /** Where every key's words have positive document frequency. */
  ghost predicate Counted(keys: seq<Pair>, counts: map<Pair, nat>, df: map<string, nat>) {
    forall k :: k in keys ==> k in counts && k.0 in df && k.1 in df && df[k.0] > 0 && df[k.1] > 0
  }

  /**
    The `significance` dictionary after the keys `keys`, in order: an
    accepted source is added with its target, and replaced only by a later
    key of strictly larger probability.
   */
  function Select(keys: seq<Pair>, counts: map<Pair, nat>, df: map<string, nat>, nDocs: nat): map<string, (string, real)>
    requires Counted(keys, counts, df)
    decreases |keys|
  {
    if keys == [] then map[]
    else
      var prev := Select(keys[..|keys| - 1], counts, df, nDocs);
      var k := keys[|keys| - 1];
      match Verdict(k, counts[k], df[k.0], df[k.1], nDocs)
      case None => prev
      case Some(v) =>
        if v.0 !in prev || prev[v.0].1 < v.2 then prev[v.0 := (v.1, v.2)] else prev
  }

  /** The verdict of a key, when its counts are known. */
  function VerdictOf(k: Pair, counts: map<Pair, nat>, df: map<string, nat>, nDocs: nat): Option<(string, string, real)>
    requires k in counts && k.0 in df && k.1 in df && df[k.0] > 0 && df[k.1] > 0
  {
    Verdict(k, counts[k], df[k.0], df[k.1], nDocs)
  }

  /** Every stored entry is the verdict of one of the keys. */
  lemma {:induction false} SelectOrigin(keys: seq<Pair>, counts: map<Pair, nat>, df: map<string, nat>, nDocs: nat, a: string)
    returns (k: Pair)
    requires Counted(keys, counts, df)
    requires a in Select(keys, counts, df, nDocs)
    ensures k in keys
    ensures var sig := Select(keys, counts, df, nDocs);
      VerdictOf(k, counts, df, nDocs) == Some((a, sig[a].0, sig[a].1))
    decreases |keys|
  {
    var init := keys[..|keys| - 1];
    var last := keys[|keys| - 1];
    assert Counted(init, counts, df);
    var sig := Select(keys, counts, df, nDocs);
    var prev := Select(init, counts, df, nDocs);
    if a in prev && sig[a] == prev[a] {
      k := SelectOrigin(init, counts, df, nDocs, a);
    } else {
      k := last;
    }
  }

  /**
    Every accepted key's source is stored with a probability at least as
    large as the key's: each source keeps the target of largest probability.
   */
  lemma {:induction false} SelectBest(keys: seq<Pair>, counts: map<Pair, nat>, df: map<string, nat>, nDocs: nat)
    requires Counted(keys, counts, df)
    ensures var sig := Select(keys, counts, df, nDocs);
      forall k :: k in keys && VerdictOf(k, counts, df, nDocs).Some? ==>
        var v := VerdictOf(k, counts, df, nDocs).value;
        v.0 in sig && sig[v.0].1 >= v.2
    decreases |keys|
  {
    if keys != [] {
      var init := keys[..|keys| - 1];
      assert Counted(init, counts, df);
      SelectBest(init, counts, df, nDocs);
      assert keys == init + [keys[|keys| - 1]];
    }
  }

  /** The mapping the constructor builds from the documents. */
  ghost function MappingsOf(docs: seq<seq<string>>): map<string, string> {
    var df := TallyOf(Flatten(docs));
    var pairings := TallyOf(CorpusPairs(docs));
    PairsCounted(docs);
    var sig := Select(pairings.order, pairings.count, df.count, |docs|);
    map a | a in sig :: sig[a].0
  }

  lemma PairsCounted(docs: seq<seq<string>>)
    ensures var pairings := TallyOf(CorpusPairs(docs));
      Counted(pairings.order, pairings.count, TallyOf(Flatten(docs)).count)
  {
    var df := TallyOf(Flatten(docs));
    var pairings := TallyOf(CorpusPairs(docs));
    WordCounts(docs);
    PairCounts(docs);
    forall k | k in pairings.order
      ensures k in pairings.count && k.0 in df.count && k.1 in df.count && df.count[k.0] > 0 && df.count[k.1] > 0
    {
      assert k in set x | x in pairings.order;
      assert k in CorpusPairs(docs);
      OccurrencesPositive(Flatten(docs), k.0);
      OccurrencesPositive(Flatten(docs), k.1);
    }
  }

  /** `a / omega / (b / omega) == a / b`: the token total cancels. */
  lemma Cancel(a: real, b: real, omega: real)
    requires b > 0.0 && omega > 0.0
    ensures (a / omega) / (b / omega) == a / b
  {
    assert (a / omega) * omega == a;
    assert (b / omega) * omega == b;
  }

  /**
    The significance loop over the keys in counting order, computing the
    probabilities with the token total `omega` as the source does.
   */
  method Significance(pairings: Tally<Pair>, df: Tally<string>, omega: nat, nDocs: nat)
    returns (significance: map<string, (string, real)>)
    requires Counted(pairings.order, pairings.count, df.count)
    requires pairings.order != [] ==> omega > 0
    ensures significance == Select(pairings.order, pairings.count, df.count, nDocs)
  {
    significance := map[];
    for n := 0 to |pairings.order|
      invariant significance == Select(pairings.order[..n], pairings.count, df.count, nDocs)
    {
      var key := pairings.order[n];
      assert pairings.order[..n + 1][..n] == pairings.order[..n];
      assert Counted(pairings.order[..n + 1], pairings.count, df.count);
      var count := pairings.count[key];
      var aib := count as real / omega as real;
      var pa := df.count[key.0] as real / omega as real;
      var pb := df.count[key.1] as real / omega as real;
      var agb := aib / pb;
      var bga := aib / pa;
      Cancel(count as real, df.count[key.1] as real, omega as real);
      Cancel(count as real, df.count[key.0] as real, omega as real);
      var minFreq := Min(df.count[key.0], df.count[key.1]);
      if minFreq < nDocs / DocsPerOccurrence {
        continue;
      }
      var maxProb := RMax(agb, bga);
      var minProb := RMin(agb, bga);
      if maxProb >= ProbThreshold && maxProb - minProb < MaxSpread {
        var a, b;
        if agb > bga {
          a, b := key.0, key.1;
        } else {
          a, b := key.1, key.0;
        }
        if a !in significance {
          significance := significance[a := (b, maxProb)];
        } else if significance[a].1 < maxProb {
          significance := significance[a := (b, maxProb)];
        }
      }
    }
    assert pairings.order[..|pairings.order|] == pairings.order;
  }

  /** `x` strictly before `y`: fewer occurrences, or as many and case-insensitively smaller. */
  ghost predicate Precedes(df: map<string, nat>, x: string, y: string) {
    var dx := if x in df then df[x] else 0;
    var dy := if y in df then df[y] else 0;
    dx < dy || (dx == dy && LessIgnoringCase(x, y))
  }

  lemma PrecedesIrreflexive(df: map<string, nat>, x: string)
    ensures !Precedes(df, x, x)
  {
    LexLessIrreflexive(Lower(x));
  }

  lemma PrecedesTransitive(df: map<string, nat>, x: string, y: string, z: string)
    requires Precedes(df, x, y) && Precedes(df, y, z)
    ensures Precedes(df, x, z)
  {
    if LessIgnoringCase(x, y) && LessIgnoringCase(y, z) {
      LexLessTransitive(Lower(x), Lower(y), Lower(z));
    }
  }

  /**
    When no document repeats a word ignoring case, every mapping leads to a
    word that precedes its source: fewer occurrences, or as many and
    case-insensitively smaller.
   */
  lemma MappingsRanked(docs: seq<seq<string>>)
    requires forall d :: d in docs ==> CaseDistinct(d)
    ensures var m := MappingsOf(docs);
      forall a :: a in m ==> Precedes(TallyOf(Flatten(docs)).count, m[a], a)
  {
    var df := TallyOf(Flatten(docs));
    var pairings := TallyOf(CorpusPairs(docs));
    PairsCounted(docs);
    var sig := Select(pairings.order, pairings.count, df.count, |docs|);
    assert MappingsOf(docs) == map a | a in sig :: sig[a].0;
    forall a | a in sig
      ensures Precedes(df.count, sig[a].0, a)
    {
      var k := SelectOrigin(pairings.order, pairings.count, df.count, |docs|, a);
      PairCounts(docs);
      assert k in pairings.count;
      CorpusPairsOrdered(docs);
      VerdictRanked(k, pairings.count[k], df.count, |docs|);
    }
  }

  /** Every mapping links two words of the documents. */
  lemma MappingTargets(docs: seq<seq<string>>)
    ensures var m := MappingsOf(docs);
      forall a :: a in m ==> a in Flatten(docs) && m[a] in Flatten(docs)
  {
    var df := TallyOf(Flatten(docs));
    var pairings := TallyOf(CorpusPairs(docs));
    PairsCounted(docs);
    var sig := Select(pairings.order, pairings.count, df.count, |docs|);
    assert MappingsOf(docs) == map a | a in sig :: sig[a].0;
    forall a | a in sig
      ensures a in Flatten(docs) && sig[a].0 in Flatten(docs)
    {
      var k := SelectOrigin(pairings.order, pairings.count, df.count, |docs|, a);
      PairCounts(docs);
      assert k in pairings.count;
      assert k in CorpusPairs(docs);
    }
  }

  /** A counted pair means at least one token was counted. */
  lemma PairsNeedTokens(docs: seq<seq<string>>)
    ensures TallyOf(CorpusPairs(docs)).order != [] ==> |Flatten(docs)| > 0
  {
    var pairings := TallyOf(CorpusPairs(docs));
    if pairings.order != [] {
      PairCounts(docs);
      var p := pairings.order[0];
      assert p in set x | x in pairings.order;
      assert p in CorpusPairs(docs);
    }
  }

  /** A subset is no larger. */
  lemma {:induction false} SubsetSize<T>(a: set<T>, b: set<T>)
    requires a <= b
    ensures |a| <= |b|
    decreases |a|
  {
    if a != {} {
      var x :| x in a;
      SubsetSize(a - {x}, b - {x});
    }
  }

  /** The mapper: each source word and the word it is mapped to. */
  class LexicalMapper {
    const mappings: map<string, string>
    /** The document frequencies the mapping was chosen from. */
    ghost const df: map<string, nat>

    /** Every mapping leads to a word that precedes its source. */
    ghost predicate Ranked() {
      forall a :: a in mappings ==> Precedes(df, mappings[a], a)
    }

    /**
      Counts the documents, selects the significant pairs and keeps each
      source's target. The mapping is ranked when no document repeats a
      word ignoring case.
     */
    constructor (docs: seq<seq<string>>)
      ensures mappings == MappingsOf(docs) && df == TallyOf(Flatten(docs)).count
      ensures (forall d :: d in docs ==> CaseDistinct(d)) ==> Ranked()
    {
      var counts, pairings, omega := CountTokens(docs);
      PairsCounted(docs);
      PairsNeedTokens(docs);
      var significance := Significance(pairings, counts, omega, |docs|);
      mappings := map a | a in significance :: significance[a].0;
      df := counts.count;
      if forall d :: d in docs ==> CaseDistinct(d) {
        MappingsRanked(docs);
      }
    }

    /** The mapped words that precede `w`, and `w` itself if it is mapped. */
    ghost function Ahead(w: string): set<string> {
      set k | k in mappings && (k == w || Precedes(df, k, w))
    }

    /** Following a mapping leaves fewer words ahead. */
    lemma AheadShrinks(w: string)
      requires Ranked() && w in mappings
      ensures |Ahead(mappings[w])| < |Ahead(w)|
    {
      var t := mappings[w];
      forall k | k in Ahead(t)
        ensures k in Ahead(w)
      {
        if k != t {
          PrecedesTransitive(df, k, t, w);
        }
      }
      PrecedesIrreflexive(df, w);
      if Precedes(df, w, t) {
        PrecedesTransitive(df, w, t, w);
      }
      assert w in Ahead(w) && w !in Ahead(t);
      SubsetSize(Ahead(t), Ahead(w) - {w});
    }

    /** Where `Map` ends: the empty word at once, otherwise the end of the chain of mappings. */
    ghost function Resolve(w: string): string
      requires Ranked()
      decreases |Ahead(w)|
    {
      if w == "" then ""
      else if w in mappings then
        AheadShrinks(w);
        Resolve(mappings[w])
      else w
    }

    /** `Map`: follows the mappings from `word` until a word has none. */
    method Map(word: string) returns (r: string)
      requires Ranked()
      ensures r == Resolve(word)
    {
      var prev := word;
      var next := "";
      while prev != next
        invariant Resolve(prev) == Resolve(word)
        invariant next != "" ==> next == prev && prev !in mappings
        decreases |Ahead(prev)|, if prev != next then 1 else 0
      {
        if prev in mappings {
          AheadShrinks(prev);
          prev := mappings[prev];
        } else {
          next := prev;
        }
      }
      return next;
    }

    /**
      `Map` returns the empty word or a word without a mapping; a word
      without a mapping, the empty word included, maps to itself.
     */
    lemma {:induction false} ResolveEnds(w: string)
      requires Ranked()
      ensures Resolve(w) == "" || Resolve(w) !in mappings
      ensures w !in mappings ==> Resolve(w) == w
      ensures Resolve("") == ""
      decreases |Ahead(w)|
    {
      if w != "" && w in mappings {
        AheadShrinks(w);
        ResolveEnds(mappings[w]);
      }
    }

    /** Mapping a mapped word changes nothing. */
    lemma ResolveIdempotent(w: string)
      requires Ranked()
      ensures Resolve(Resolve(w)) == Resolve(w)
    {
      ResolveEnds(w);
      ResolveEnds(Resolve(w));
    }
  }
}
