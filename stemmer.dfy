/**
  The unsupervised stemmer: every vocabulary word is split against every
  other one, a directed graph links each word to the fragments it splits
  into, and a word's stem is found by walking that graph using support
  counts. Nodes live in a map keyed by their token (an arena): the source
  creates nodes only through its token-keyed dictionary, so a token
  identifies its node.
 */
module Stemming {
  import opened Wrappers
  import opened Text

  // ---------------------------------------------------------------------------
  // Split

  /** The four fragments a split produces: `a == a1 + a2` and `b == b1 + b2`. */
  datatype Fragments = Fragments(a1: string, a2: string, b1: string, b2: string)

  /** The candidate `Split` starts from and returns when no split point is good. */
  const Degenerate := Fragments("", "", "", "")

  /** The split of `a` at `i` and of `b` at `j`. */
  function FragmentsAt(a: string, b: string, i: nat, j: nat): Fragments
    requires i <= |a| && j <= |b|
  {
    Fragments(a[..i], a[i..], b[..j], b[j..])
  }

  /** A split point pair is good when a non-empty fragment of `a` equals one of `b`. */
  predicate Good(f: Fragments) {
    || (f.a1 == f.b1 && f.a1 != "")
    || (f.a1 == f.b2 && f.a1 != "")
    || (f.a2 == f.b1 && f.a2 != "")
    || (f.a2 == f.b2 && f.a2 != "")
  }

  /** Some fragment is the whole of `a`: the split that `Split` returns at once. */
  predicate Whole(f: Fragments, a: string) {
    f.a1 == a || f.a2 == a || f.b1 == a || f.b2 == a
  }

  function Max(x: nat, y: nat): nat {
    if x >= y then x else y
  }

  /** The larger of the two words' shorter-fragment lengths. */
  function Score(f: Fragments): nat {
    Max(Min(|f.a1|, |f.a2|), Min(|f.b1|, |f.b2|))
  }

  /** A split point of `a` and `b` that `Split` visits: `0 <= i < |a|`, `0 <= j < |b|`. */
  predicate IsPoint(a: string, b: string, i: int, j: int) {
    0 <= i < |a| && 0 <= j < |b|
  }

  /** `(i1, j1)` comes before `(i2, j2)` in the row-major order of the nested loops. */
  predicate Before(i1: int, j1: int, i2: int, j2: int) {
    i1 < i2 || (i1 == i2 && j1 < j2)
  }

  /**
    The nested loops of `Split` from point `(i, j)` on, with `best` the
    first candidate of highest score seen so far: a good split with a whole
    fragment ends the search, otherwise a good split replaces `best` only if
    it scores strictly higher.
   */
  function Scan(a: string, b: string, i: nat, j: nat, best: Fragments): Fragments
    requires i <= |a| && j <= |b|
    decreases |a| - i, |b| - j
  {
    if i == |a| then best
    else if j == |b| then Scan(a, b, i + 1, 0, best)
    else
      var f := FragmentsAt(a, b, i, j);
      if Good(f) && Whole(f, a) then f
      else Scan(a, b, i, j + 1, if Good(f) && Score(f) > Score(best) then f else best)
  }

  /** What `Split(a, b)` returns. */
  function SplitOf(a: string, b: string): Fragments {
    Scan(a, b, 0, 0, Degenerate)
  }

  /** The candidate the source's sort puts first, taken as the first one of highest score. */
  function FirstBest(candidates: seq<(Fragments, nat)>): (r: (Fragments, nat))
    requires |candidates| >= 1
    ensures r in candidates
    decreases |candidates|
  {
    if |candidates| == 1 then candidates[0]
    else
      var init := FirstBest(candidates[..|candidates| - 1]);
      var last := candidates[|candidates| - 1];
      if last.1 > init.1 then last else init
  }

  lemma FirstBestAppend(candidates: seq<(Fragments, nat)>, c: (Fragments, nat))
    requires |candidates| >= 1
    ensures FirstBest(candidates + [c]) == if c.1 > FirstBest(candidates).1 then c else FirstBest(candidates)
  {
    assert (candidates + [c])[..|candidates|] == candidates;
  }

  /**
    The candidate sorting by descending score puts first (`candidates.Sort`
    then `First()`); the model fixes the first of the highest-scoring ones.
   */
  method HighestScored(candidates: seq<(Fragments, nat)>) returns (top: nat)
    requires |candidates| >= 1
    ensures top < |candidates| && candidates[top] == FirstBest(candidates)
  {
    top := 0;
    for k := 1 to |candidates|
      invariant 0 <= top < k
      invariant candidates[top] == FirstBest(candidates[..k])
    {
      assert candidates[..k + 1] == candidates[..k] + [candidates[k]];
      FirstBestAppend(candidates[..k], candidates[k]);
      if candidates[k].1 > candidates[top].1 {
        top := k;
      }
    }
    assert candidates[..|candidates|] == candidates;
  }

  /**
    `Split`: collects the good split points as scored candidates behind the
    degenerate one, returning at once a split with a whole fragment, and
    finally takes the first candidate of highest score.
   */
  method Split(a: string, b: string) returns (f: Fragments)
    ensures f == SplitOf(a, b)
  {
    var candidates: seq<(Fragments, nat)> := [(Degenerate, 0)];
    ghost var best := Degenerate;
    for i := 0 to |a|
      invariant |candidates| >= 1 && FirstBest(candidates) == (best, Score(best))
      invariant SplitOf(a, b) == Scan(a, b, i, 0, best)
    {
      for j := 0 to |b|
        invariant |candidates| >= 1 && FirstBest(candidates) == (best, Score(best))
        invariant SplitOf(a, b) == Scan(a, b, i, j, best)
      {
        var a1, a2, b1, b2 := a[..i], a[i..], b[..j], b[j..];
        ghost var here := FragmentsAt(a, b, i, j);
        assert here == Fragments(a1, a2, b1, b2);
        var goodSplit := (a1 == b1 && a1 != "") || (a1 == b2 && a1 != "")
                      || (a2 == b1 && a2 != "") || (a2 == b2 && a2 != "");
        assert goodSplit == Good(here);
        if goodSplit {
          if a1 == a || a2 == a || b1 == a || b2 == a {
            return Fragments(a1, a2, b1, b2);
          }
          var al := Min(|a1|, |a2|);
          var bl := Min(|b1|, |b2|);
          var smallest := Max(al, bl);
          assert smallest == Score(here);
          FirstBestAppend(candidates, (here, smallest));
          candidates := candidates + [(Fragments(a1, a2, b1, b2), smallest)];
          if smallest > Score(best) {
            best := here;
          }
        }
      }
    }
    var top := HighestScored(candidates);
    f := candidates[top].0;
  }

  /** `f` is a good split of `a` and `b` at a point `Split` visits. */
  ghost predicate IsGoodSplit(a: string, b: string, f: Fragments) {
    exists i, j :: IsPoint(a, b, i, j) && f == FragmentsAt(a, b, i, j) && Good(f)
  }

  /** Some visited point has a good split. */
  ghost predicate HasGoodPoint(a: string, b: string) {
    exists i, j :: IsPoint(a, b, i, j) && Good(FragmentsAt(a, b, i, j))
  }

  /** Some visited point has a good split with a whole fragment. */
  ghost predicate HasWholePoint(a: string, b: string) {
    exists i, j :: IsPoint(a, b, i, j) && Good(FragmentsAt(a, b, i, j)) && Whole(FragmentsAt(a, b, i, j), a)
  }

  lemma {:induction false} ScanShape(a: string, b: string, i: nat, j: nat, best: Fragments)
    requires i <= |a| && j <= |b|
    requires best == Degenerate || IsGoodSplit(a, b, best)
    ensures Scan(a, b, i, j, best) == best || IsGoodSplit(a, b, Scan(a, b, i, j, best))
    decreases |a| - i, |b| - j
  {
    if i == |a| {
    } else if j == |b| {
      ScanShape(a, b, i + 1, 0, best);
    } else {
      var f := FragmentsAt(a, b, i, j);
      if Good(f) && Whole(f, a) {
        assert IsPoint(a, b, i, j);
      } else {
        var next := if Good(f) && Score(f) > Score(best) then f else best;
        assert IsPoint(a, b, i, j);
        ScanShape(a, b, i, j + 1, next);
      }
    }
  }

  /**
    `Split(a, b)` returns the four empty strings exactly when no split point
    is good; otherwise it returns a good split `a[..i], a[i..], b[..j], b[j..]`
    with `i < |a|` and `j < |b|`.
   */
  lemma SplitShape(a: string, b: string)
    ensures SplitOf(a, b) == Degenerate || IsGoodSplit(a, b, SplitOf(a, b))
    ensures SplitOf(a, b) == Degenerate <==> !HasGoodPoint(a, b)
  {
    ScanShape(a, b, 0, 0, Degenerate);
    var r := SplitOf(a, b);
    if HasGoodPoint(a, b) {
      var i, j :| IsPoint(a, b, i, j) && Good(FragmentsAt(a, b, i, j));
      if HasWholePoint(a, b) {
        var i0, j0 :| IsPoint(a, b, i0, j0) && Good(FragmentsAt(a, b, i0, j0)) && Whole(FragmentsAt(a, b, i0, j0), a);
        FirstWholePoint(a, b, i0, j0);
      } else {
        SplitBestScore(a, b, i, j);
      }
    }
    if r != Degenerate {
      var i, j :| IsPoint(a, b, i, j) && r == FragmentsAt(a, b, i, j) && Good(r);
    }
  }

  /** A good whole split at the given point exists, and possibly an earlier one. */
  lemma {:induction false} FirstWholePoint(a: string, b: string, i0: nat, j0: nat)
    requires IsPoint(a, b, i0, j0)
    requires Good(FragmentsAt(a, b, i0, j0)) && Whole(FragmentsAt(a, b, i0, j0), a)
    ensures Good(SplitOf(a, b)) && Whole(SplitOf(a, b), a)
    decreases i0, j0
  {
    if exists i, j :: (IsPoint(a, b, i, j) && Before(i, j, i0, j0)
                       && Good(FragmentsAt(a, b, i, j)) && Whole(FragmentsAt(a, b, i, j), a))
    {
      var i, j :| IsPoint(a, b, i, j) && Before(i, j, i0, j0)
        && Good(FragmentsAt(a, b, i, j)) && Whole(FragmentsAt(a, b, i, j), a);
      FirstWholePoint(a, b, i, j);
    } else {
      SplitWholeFirst(a, b, i0, j0);
    }
  }

  lemma {:induction false} ScanWhole(a: string, b: string, i: nat, j: nat, best: Fragments, i0: nat, j0: nat)
    requires i <= |a| && j <= |b| && IsPoint(a, b, i0, j0) && !Before(i0, j0, i, j)
    requires Good(FragmentsAt(a, b, i0, j0)) && Whole(FragmentsAt(a, b, i0, j0), a)
    requires forall i', j' :: (IsPoint(a, b, i', j') && !Before(i', j', i, j) && Before(i', j', i0, j0)
                               ==> !(Good(FragmentsAt(a, b, i', j')) && Whole(FragmentsAt(a, b, i', j'), a)))
    ensures Scan(a, b, i, j, best) == FragmentsAt(a, b, i0, j0)
    decreases |a| - i, |b| - j
  {
    if j == |b| {
      assert i < i0;
      ScanWhole(a, b, i + 1, 0, best, i0, j0);
    } else if i != i0 || j != j0 {
      assert IsPoint(a, b, i, j) && Before(i, j, i0, j0);
      var f := FragmentsAt(a, b, i, j);
      assert !(Good(f) && Whole(f, a));
      var next := if Good(f) && Score(f) > Score(best) then f else best;
      assert Scan(a, b, i, j, best) == Scan(a, b, i, j + 1, next);
      ScanWhole(a, b, i, j + 1, next, i0, j0);
    } else {
      var f := FragmentsAt(a, b, i, j);
      assert Good(f) && Whole(f, a);
    }
  }

  /**
    When some good split has a fragment equal to the whole of `a` (in
    particular when `a` is a proper prefix or suffix of `b`), `Split`
    returns the first such split in the row-major order of its loops.
   */
  lemma SplitWholeFirst(a: string, b: string, i0: nat, j0: nat)
    requires IsPoint(a, b, i0, j0)
    requires Good(FragmentsAt(a, b, i0, j0)) && Whole(FragmentsAt(a, b, i0, j0), a)
    requires forall i, j :: (IsPoint(a, b, i, j) && Before(i, j, i0, j0)
                             ==> !(Good(FragmentsAt(a, b, i, j)) && Whole(FragmentsAt(a, b, i, j), a)))
    ensures SplitOf(a, b) == FragmentsAt(a, b, i0, j0)
  {
    ScanWhole(a, b, 0, 0, Degenerate, i0, j0);
  }

  lemma {:induction false} ScanMax(a: string, b: string, i: nat, j: nat, best: Fragments)
    requires i <= |a| && j <= |b|
    requires !HasWholePoint(a, b)
    ensures Score(Scan(a, b, i, j, best)) >= Score(best)
    ensures Scan(a, b, i, j, best) == best || Good(Scan(a, b, i, j, best))
    ensures forall i', j' {:trigger FragmentsAt(a, b, i', j')} :: (IsPoint(a, b, i', j') && !Before(i', j', i, j) && Good(FragmentsAt(a, b, i', j'))
                              ==> Score(Scan(a, b, i, j, best)) >= Score(FragmentsAt(a, b, i', j')))
    decreases |a| - i, |b| - j
  {
    if i == |a| {
    } else if j == |b| {
      ScanMax(a, b, i + 1, 0, best);
      assert forall i', j' :: IsPoint(a, b, i', j') && !Before(i', j', i, j) ==> !Before(i', j', i + 1, 0);
    } else {
      var f := FragmentsAt(a, b, i, j);
      assert IsPoint(a, b, i, j);
      assert !(Good(f) && Whole(f, a));
      var next := if Good(f) && Score(f) > Score(best) then f else best;
      assert Scan(a, b, i, j, best) == Scan(a, b, i, j + 1, next);
      ScanMax(a, b, i, j + 1, next);
      var r := Scan(a, b, i, j + 1, next);
      forall i', j' | IsPoint(a, b, i', j') && !Before(i', j', i, j) && Good(FragmentsAt(a, b, i', j'))
        ensures Score(r) >= Score(FragmentsAt(a, b, i', j'))
      {
        if i' != i || j' != j {
          assert !Before(i', j', i, j + 1);
        }
      }
    }
  }

  /**
    Otherwise `Split` returns a good split whose score is at least that of
    every good split point.
   */
  lemma SplitBestScore(a: string, b: string, i: nat, j: nat)
    requires !HasWholePoint(a, b)
    requires IsPoint(a, b, i, j) && Good(FragmentsAt(a, b, i, j))
    ensures Good(SplitOf(a, b))
    ensures Score(SplitOf(a, b)) >= Score(FragmentsAt(a, b, i, j))
  {
    ScanMax(a, b, 0, 0, Degenerate);
    assert Score(FragmentsAt(a, b, i, j)) >= 1;
  }

  /** A non-empty proper prefix or proper suffix of `w`. */
  predicate ProperPiece(f: string, w: string) {
    f != "" && |f| < |w| && (f == w[..|f|] || f == w[|w| - |f|..])
  }

  /** What a fragment of `w` can be: empty, the whole word, or a proper piece. */
  predicate Piece(f: string, w: string) {
    f == "" || f == w || ProperPiece(f, w)
  }

  /** Each fragment `Split` returns is empty, the whole word, or a proper prefix or suffix of it. */
  lemma SplitPieces(a: string, b: string)
    ensures var r := SplitOf(a, b);
      Piece(r.a1, a) && Piece(r.a2, a) && Piece(r.b1, b) && Piece(r.b2, b)
  {
    SplitShape(a, b);
    var r := SplitOf(a, b);
    if r != Degenerate {
      var i, j :| IsPoint(a, b, i, j) && r == FragmentsAt(a, b, i, j) && Good(r);
      if i != 0 {
        assert ProperPiece(r.a1, a) && ProperPiece(r.a2, a);
      }
      if j != 0 {
        assert ProperPiece(r.b1, b) && ProperPiece(r.b2, b);
      }
    }
  }

  // ---------------------------------------------------------------------------
  // The morpheme graph

  /** A graph node: its token and its in- and out-links, each a hash set kept in insertion order. */
  datatype MorphemeNode = MorphemeNode(token: string, inLinks: seq<string>, outLinks: seq<string>)

  /** The `nodes` dictionary; a node is named by its token. */
  type Arena = map<string, MorphemeNode>

  /** `HashSet.Add`. */
  function AddLink(links: seq<string>, x: string): (r: seq<string>)
    ensures Distinct(links) ==> Distinct(r)
    ensures forall y :: y in r <==> y in links || y == x
  {
    if x in links then links else links + [x]
  }

  /**
    `GetNode`: no node (`null`) for the empty fragment; otherwise the node of
    `key`, created with no links if the dictionary has none.
   */
  function GetNode(g: Arena, key: string): (r: (Arena, Option<string>))
    ensures key == "" ==> r == (g, None)
    ensures key != "" ==> r.1 == Some(key) && r.0.Keys == g.Keys + {key}
    ensures forall k :: k in g ==> r.0[k] == g[k]
    ensures key != "" && key !in g ==> r.0[key] == MorphemeNode(key, [], [])
  {
    if key == "" then (g, None)
    else if key in g then (g, Some(key))
    else (g[key := MorphemeNode(key, [], [])], Some(key))
  }

  /**
    `ConnectNodes(a, b)`: unless `b` is null or `a` itself, `b` joins the
    out-links of `a` and `a` the in-links of `b`; no other node changes.
   */
  function ConnectNodes(g: Arena, a: string, b: Option<string>): (r: Arena)
    requires a in g && (b.Some? ==> b.value in g)
    ensures r.Keys == g.Keys
    ensures b.None? || b.value == a ==> r == g
    ensures b.Some? && b.value != a ==>
      && r[a] == g[a].(outLinks := AddLink(g[a].outLinks, b.value))
      && r[b.value] == g[b.value].(inLinks := AddLink(g[b.value].inLinks, a))
    ensures forall k :: k in g && k != a && (b.None? || k != b.value) ==> r[k] == g[k]
  {
    match b
    case None => g
    case Some(t) =>
      if t == a then g
      else g[a := g[a].(outLinks := AddLink(g[a].outLinks, t))][t := g[t].(inLinks := AddLink(g[t].inLinks, a))]
  }

  /** `ConnectNodes(nodeA, GetNode(frag, nodes))`. */
  function LinkFragment(g: Arena, a: string, frag: string): (r: Arena)
    requires a in g
    ensures g.Keys <= r.Keys && r.Keys <= g.Keys + {frag}
    ensures frag != "" ==> frag in r
  {
    var (g1, n) := GetNode(g, frag);
    ConnectNodes(g1, a, n)
  }

  /** One iteration of the inner loop of `SplitPhase`: `tokenA` split against `tokenB`. */
  function PairStep(g: Arena, a: string, b: string): (r: Arena)
    requires a in g && b in g
    ensures g.Keys <= r.Keys
  {
    if a == b then g
    else
      var f := SplitOf(a, b);
      var g1 := LinkFragment(g, a, f.a1);
      var g2 := LinkFragment(g1, a, f.a2);
      var g3 := LinkFragment(g2, b, f.b1);
      LinkFragment(g3, b, f.b2)
  }

  /** The inner loop of `SplitPhase` over the first `n` corpus words. */
  function RowStep(g: Arena, a: string, vocab: seq<string>, n: nat): (r: Arena)
    requires a in g && n <= |vocab| && forall w :: w in vocab ==> w in g
    ensures g.Keys <= r.Keys
  {
    if n == 0 then g
    else PairStep(RowStep(g, a, vocab, n - 1), a, vocab[n - 1])
  }

  /** The dictionary after the initialisation loop: one unlinked node per corpus word. */
  function Init(vocab: seq<string>): (r: Arena)
    ensures forall w :: w in vocab ==> w in r
  {
    map w | w in vocab :: MorphemeNode(w, [], [])
  }

  lemma InitAppend(vocab: seq<string>, w: string)
    ensures Init(vocab + [w]) == Init(vocab)[w := MorphemeNode(w, [], [])]
  {
    var l, r := Init(vocab + [w]), Init(vocab)[w := MorphemeNode(w, [], [])];
    assert l.Keys == r.Keys;
  }

  /** The dictionary after the first `m` corpus words were dequeued and processed. */
  function Rows(vocab: seq<string>, m: nat): (r: Arena)
    requires m <= |vocab|
    ensures forall w :: w in vocab ==> w in r
  {
    if m == 0 then Init(vocab)
    else RowStep(Rows(vocab, m - 1), vocab[m - 1], vocab, |vocab|)
  }

  /**
    The graph `SplitPhase` builds: every corpus word has a node, each node's
    token is its key, and every edge leads to a non-empty proper prefix or
    suffix (`GraphWellFormed` states the rest of its shape).
   */
  function Graph(vocab: seq<string>): (r: Arena)
    ensures (forall w :: w in vocab ==> w in r) && Linked(r) && Tokens(r)
  {
    RowsWellFormed(vocab, |vocab|);
    Rows(vocab, |vocab|)
  }

  /**
    The graph is well formed: in particular its links are mirrored and
    fragments that are not corpus words have no out-links.
   */
  lemma GraphWellFormed(vocab: seq<string>)
    ensures WellFormed(Graph(vocab), vocab)
  {
    RowsWellFormed(vocab, |vocab|);
  }

  /** `ConnectNodes(node, GetNode(frag, nodes))`, one statement of the inner loop of `SplitPhase`. */
  method Link(nodes: Arena, a: string, frag: string) returns (nodes': Arena)
    requires a in nodes
    ensures nodes' == LinkFragment(nodes, a, frag)
  {
    var step := GetNode(nodes, frag);
    nodes' := ConnectNodes(step.0, a, step.1);
  }

  /**
    The body of the inner loop of `SplitPhase` for two different words:
    both are linked to their fragments, then the fragments not yet in the
    dictionary would be queued, which none is.
   */
  method SplitPair(nodes: Arena, openSet: seq<string>, tokenA: string, tokenB: string)
    returns (nodes': Arena, openSet': seq<string>)
    requires tokenA in nodes && tokenB in nodes && tokenA != tokenB
    ensures nodes' == PairStep(nodes, tokenA, tokenB)
    ensures openSet' == openSet
  {
    var f := Split(tokenA, tokenB);
    var g1 := Link(nodes, tokenA, f.a1);
    var g2 := Link(g1, tokenA, f.a2);
    var g3 := Link(g2, tokenB, f.b1);
    nodes' := Link(g3, tokenB, f.b2);
    assert g1.Keys <= g2.Keys <= g3.Keys <= nodes'.Keys;
    openSet' := openSet;
    if f.a1 !in nodes' && f.a1 != "" {
      openSet' := openSet' + [f.a1];
    }
    if f.a2 !in nodes' && f.a2 != "" {
      openSet' := openSet' + [f.a2];
    }
    if f.b1 !in nodes' && f.b1 != "" {
      openSet' := openSet' + [f.b1];
    }
    if f.b2 !in nodes' && f.b2 != "" {
      openSet' := openSet' + [f.b2];
    }
  }

  /** The inner loop of `SplitPhase`: the dequeued word against every corpus word. */
  method SplitRow(nodes: Arena, openSet: seq<string>, tokenA: string, vocab: seq<string>)
    returns (nodes': Arena, openSet': seq<string>)
    requires tokenA in nodes && forall w :: w in vocab ==> w in nodes
    ensures nodes' == RowStep(nodes, tokenA, vocab, |vocab|)
    ensures openSet' == openSet
  {
    nodes', openSet' := nodes, openSet;
    for k := 0 to |vocab|
      invariant nodes' == RowStep(nodes, tokenA, vocab, k)
      invariant openSet' == openSet
    {
      var tokenB := vocab[k];
      if tokenA == tokenB {
        continue;
      }
      nodes', openSet' := SplitPair(nodes', openSet', tokenA, tokenB);
    }
  }

  /** The initialisation loop of `SplitPhase`: a node per corpus word, every word queued. */
  method Initialise(vocab: seq<string>) returns (nodes: Arena, openSet: seq<string>)
    requires Distinct(vocab)
    ensures nodes == Init(vocab) && openSet == vocab
  {
    nodes := map[];
    openSet := [];
    for i := 0 to |vocab|
      invariant nodes == Init(vocab[..i]) && openSet == vocab[..i]
    {
      InitAppend(vocab[..i], vocab[i]);
      assert vocab[..i + 1] == vocab[..i] + [vocab[i]];
      nodes := nodes[vocab[i] := MorphemeNode(vocab[i], [], [])];
      openSet := openSet + [vocab[i]];
    }
    assert vocab[..|vocab|] == vocab;
  }

  /**
    `SplitPhase`: every corpus word gets a node and is queued; each dequeued
    word is split against every other corpus word and linked to its
    fragments, and the other word to its own. The enqueue checks come after
    `GetNode` has already added the fragment, so they never fire: the queue
    only ever holds corpus words (`openSet == vocab[m..]`).
   */
  method SplitPhase(vocab: seq<string>) returns (nodes: Arena)
    requires Distinct(vocab)
    ensures nodes == Graph(vocab)
  {
    var openSet;
    nodes, openSet := Initialise(vocab);
    ghost var m := 0;
    while |openSet| != 0
      invariant 0 <= m <= |vocab| && openSet == vocab[m..]
      invariant nodes == Rows(vocab, m)
      decreases |openSet|
    {
      var tokenA := openSet[0];
      openSet := openSet[1..];
      assert tokenA == vocab[m];
      nodes, openSet := SplitRow(nodes, openSet, tokenA, vocab);
      m := m + 1;
    }
    assert m == |vocab|;
  }

  /** Every out-link leads to a node whose token is a proper prefix or suffix of the source's. */
  ghost predicate Linked(g: Arena) {
    forall k, o {:trigger o in g[k].outLinks} :: k in g && o in g[k].outLinks ==> o in g && ProperPiece(o, k)
  }

  /**
    The invariant of the graph under construction: every corpus word has a
    node, each node's token is its key, link sets hold no duplicates, links
    shorten tokens and are mirrored (`b` is an out-link of `a` exactly when
    `a` is an in-link of `b`), and only corpus words have out-links.
   */
  ghost predicate WellFormed(g: Arena, vocab: seq<string>) {
    && (forall w :: w in vocab ==> w in g)
    && (forall k :: k in g ==> g[k].token == k && Distinct(g[k].inLinks) && Distinct(g[k].outLinks))
    && (forall k :: k in g && k !in vocab ==> g[k].outLinks == [])
    && Linked(g)
    && (forall k, o {:trigger o in g[k].outLinks} :: k in g && o in g[k].outLinks ==> k in g[o].inLinks)
    && (forall k, i {:trigger i in g[k].inLinks} :: k in g && i in g[k].inLinks ==> i in g && k in g[i].outLinks)
  }

  lemma InitWellFormed(vocab: seq<string>)
    ensures WellFormed(Init(vocab), vocab)
  {
  }

  lemma ConnectWellFormed(g: Arena, vocab: seq<string>, a: string, b: Option<string>)
    requires WellFormed(g, vocab) && a in vocab
    requires b.Some? ==> b.value in g && (b.value == a || ProperPiece(b.value, a))
    ensures WellFormed(ConnectNodes(g, a, b), vocab)
  {
    if b.Some? && b.value != a {
      ConnectKeepsNodes(g, vocab, a, b.value);
      ConnectKeepsOutLinks(g, vocab, a, b.value);
      ConnectKeepsInLinks(g, vocab, a, b.value);
    }
  }

  lemma ConnectKeepsNodes(g: Arena, vocab: seq<string>, a: string, t: string)
    requires WellFormed(g, vocab) && a in vocab && t in g && a != t
    ensures var r := ConnectNodes(g, a, Some(t));
      && (forall w :: w in vocab ==> w in r)
      && (forall k :: k in r ==> r[k].token == k && Distinct(r[k].inLinks) && Distinct(r[k].outLinks))
      && (forall k :: k in r && k !in vocab ==> r[k].outLinks == [])
  {
    var r := ConnectNodes(g, a, Some(t));
    forall k | k in r
      ensures r[k].token == k && Distinct(r[k].inLinks) && Distinct(r[k].outLinks)
      ensures k !in vocab ==> r[k].outLinks == []
    {
      if k != a && k != t {
        assert r[k] == g[k];
      }
    }
  }

  lemma ConnectKeepsOutLinks(g: Arena, vocab: seq<string>, a: string, t: string)
    requires WellFormed(g, vocab) && a in vocab && t in g && a != t && ProperPiece(t, a)
    ensures var r := ConnectNodes(g, a, Some(t));
      && Linked(r)
      && (forall k, o :: k in r && o in r[k].outLinks ==> k in r[o].inLinks)
  {
    var r := ConnectNodes(g, a, Some(t));
    forall k, o | k in r && o in r[k].outLinks
      ensures o in r && ProperPiece(o, k) && k in r[o].inLinks
    {
      if k != a {
        assert r[k].outLinks == g[k].outLinks;
        assert o in g[k].outLinks;
        assert r[o].inLinks == g[o].inLinks || r[o].inLinks == AddLink(g[o].inLinks, a);
      } else if o != t {
        assert o in g[k].outLinks;
        assert r[o].inLinks == g[o].inLinks;
      }
    }
  }

  lemma ConnectKeepsInLinks(g: Arena, vocab: seq<string>, a: string, t: string)
    requires WellFormed(g, vocab) && a in vocab && t in g && a != t
    ensures var r := ConnectNodes(g, a, Some(t));
      forall k, i :: k in r && i in r[k].inLinks ==> i in r && k in r[i].outLinks
  {
    var r := ConnectNodes(g, a, Some(t));
    forall k, i | k in r && i in r[k].inLinks
      ensures i in r && k in r[i].outLinks
    {
      if k != t {
        assert r[k].inLinks == g[k].inLinks;
        assert i in g[k].inLinks;
        assert r[i].outLinks == g[i].outLinks || r[i].outLinks == AddLink(g[i].outLinks, t);
      } else if i != a {
        assert i in g[k].inLinks;
        assert r[i].outLinks == g[i].outLinks;
      }
    }
  }

  lemma GetNodeWellFormed(g: Arena, vocab: seq<string>, key: string)
    requires WellFormed(g, vocab)
    ensures WellFormed(GetNode(g, key).0, vocab)
  {
    if key != "" && key !in g {
      var r := g[key := MorphemeNode(key, [], [])];
      assert GetNode(g, key).0 == r;
      forall k | k in r
        ensures r[k].token == k && Distinct(r[k].inLinks) && Distinct(r[k].outLinks)
        ensures k !in vocab ==> r[k].outLinks == []
      {
        if k != key {
          assert r[k] == g[k];
        }
      }
      forall k, o | k in r && o in r[k].outLinks
        ensures o in r && ProperPiece(o, k) && k in r[o].inLinks
      {
        assert k in g && r[k] == g[k];
        assert o in g && r[o] == g[o];
      }
      forall k, i | k in r && i in r[k].inLinks
        ensures i in r && k in r[i].outLinks
      {
        assert k in g && r[k] == g[k];
        assert i in g && r[i] == g[i];
      }
      assert Linked(r);
      assert WellFormed(r, vocab);
    } else {
      assert GetNode(g, key).0 == g;
    }
  }

  lemma LinkFragmentWellFormed(g: Arena, vocab: seq<string>, a: string, frag: string)
    requires WellFormed(g, vocab) && a in vocab && Piece(frag, a)
    ensures WellFormed(LinkFragment(g, a, frag), vocab)
  {
    GetNodeWellFormed(g, vocab, frag);
    var (g1, n) := GetNode(g, frag);
    ConnectWellFormed(g1, vocab, a, n);
  }

  lemma PairStepWellFormed(g: Arena, vocab: seq<string>, a: string, b: string)
    requires WellFormed(g, vocab) && a in vocab && b in vocab
    ensures WellFormed(PairStep(g, a, b), vocab)
  {
    if a != b {
      var f := SplitOf(a, b);
      SplitPieces(a, b);
      var g1 := LinkFragment(g, a, f.a1);
      LinkFragmentWellFormed(g, vocab, a, f.a1);
      var g2 := LinkFragment(g1, a, f.a2);
      LinkFragmentWellFormed(g1, vocab, a, f.a2);
      var g3 := LinkFragment(g2, b, f.b1);
      LinkFragmentWellFormed(g2, vocab, b, f.b1);
      LinkFragmentWellFormed(g3, vocab, b, f.b2);
    }
  }

  lemma {:induction false} RowStepWellFormed(g: Arena, vocab: seq<string>, a: string, n: nat)
    requires WellFormed(g, vocab) && a in vocab && n <= |vocab|
    ensures WellFormed(RowStep(g, a, vocab, n), vocab)
  {
    if n > 0 {
      RowStepWellFormed(g, vocab, a, n - 1);
      PairStepWellFormed(RowStep(g, a, vocab, n - 1), vocab, a, vocab[n - 1]);
    }
  }

  lemma {:induction false} RowsWellFormed(vocab: seq<string>, m: nat)
    requires m <= |vocab|
    ensures WellFormed(Rows(vocab, m), vocab)
  {
    if m == 0 {
      InitWellFormed(vocab);
    } else {
      RowsWellFormed(vocab, m - 1);
      RowStepWellFormed(Rows(vocab, m - 1), vocab, vocab[m - 1], |vocab|);
    }
  }

  /** A walk along out-links. */
  ghost predicate IsPath(g: Arena, p: seq<string>) {
    && (forall i :: 0 <= i < |p| ==> p[i] in g)
    && (forall i :: 0 <= i < |p| - 1 ==> p[i + 1] in g[p[i]].outLinks)
  }

  /** Tokens strictly shorten along a walk, so the graph has no cycle. */
  lemma {:induction false} PathShortens(g: Arena, p: seq<string>)
    requires Linked(g) && IsPath(g, p) && |p| >= 2
    ensures |p[|p| - 1]| < |p[0]|
    ensures p[|p| - 1] != p[0]
    decreases |p|
  {
    assert p[1] in g[p[0]].outLinks;
    if |p| > 2 {
      PathShortens(g, p[1..]);
    }
  }

  // ---------------------------------------------------------------------------
  // FindStem

  /** How many of `ins` are among `mine`: the support count of one out-link. */
  function Support(ins: seq<string>, mine: seq<string>): (r: nat)
    ensures r <= |ins|
    decreases |ins|
  {
    if ins == [] then 0
    else Support(ins[..|ins| - 1], mine) + if ins[|ins| - 1] in mine then 1 else 0
  }

  /** A neighbour has no support exactly when none of its in-links is one of ours. */
  lemma {:induction false} SupportZero(ins: seq<string>, mine: seq<string>)
    ensures Support(ins, mine) == 0 <==> forall x :: x in ins ==> x !in mine
    decreases |ins|
  {
    if ins != [] {
      var init := ins[..|ins| - 1];
      SupportZero(init, mine);
      assert ins == init + [ins[|ins| - 1]];
    }
  }

  /**
    The out-links `outs` of a node whose in-links are `mine`, split in
    order into those with positive support (paired with it) and the rest.
   */
  function Partition(g: Arena, mine: seq<string>, outs: seq<string>): (r: (seq<(string, nat)>, seq<string>))
    requires forall o :: o in outs ==> o in g
    ensures |r.0| + |r.1| == |outs|
    ensures forall p :: p in r.0 ==> p.0 in outs && p.1 == Support(g[p.0].inLinks, mine) > 0
    ensures forall o :: o in r.1 ==> o in outs && Support(g[o].inLinks, mine) == 0
    decreases |outs|
  {
    if outs == [] then ([], [])
    else
      var prev := Partition(g, mine, outs[..|outs| - 1]);
      var node := outs[|outs| - 1];
      var support := Support(g[node].inLinks, mine);
      if support > 0 then (prev.0 + [(node, support)], prev.1) else (prev.0, prev.1 + [node])
  }

  /** Support relative to the neighbour's in-degree. */
  function Ratio(g: Arena, p: (string, nat)): real
    requires p.0 in g && 0 < p.1 <= |g[p.0].inLinks|
  {
    p.1 as real / |g[p.0].inLinks| as real
  }

  /** All pairs name nodes and have a positive support no larger than the in-degree. */
  ghost predicate Supported(g: Arena, supported: seq<(string, nat)>) {
    forall p :: p in supported ==> p.0 in g && 0 < p.1 <= |g[p.0].inLinks|
  }

  /**
    The first supported neighbour of highest ratio (`k > max`, from
    `max = 0`) and that ratio. Every ratio is positive, so a neighbour is
    found as soon as there is one.
   */
  function MostSupported(g: Arena, supported: seq<(string, nat)>): (r: (Option<string>, real))
    requires Supported(g, supported)
    ensures r.0.None? <==> supported == []
    ensures r.0.Some? ==> exists i :: 0 <= i < |supported| && supported[i].0 == r.0.value && Ratio(g, supported[i]) == r.1
    ensures forall i :: 0 <= i < |supported| ==> Ratio(g, supported[i]) <= r.1
    decreases |supported|
  {
    if supported == [] then (None, 0.0)
    else
      var prev := MostSupported(g, supported[..|supported| - 1]);
      var p := supported[|supported| - 1];
      var k := Ratio(g, p);
      if k > prev.1 then (Some(p.0), k) else prev
  }

  /** The first neighbour of least in-degree (`count < min || best == null`) and that in-degree. */
  function LeastLinked(g: Arena, linked: seq<string>): (r: (Option<string>, nat))
    requires forall o :: o in linked ==> o in g
    ensures r.0.None? <==> linked == []
    ensures r.0.Some? ==> r.0.value in linked && |g[r.0.value].inLinks| == r.1
    ensures forall o :: o in linked ==> r.1 <= |g[o].inLinks|
    decreases |linked|
  {
    if linked == [] then (None, 0)
    else
      var prev := LeastLinked(g, linked[..|linked| - 1]);
      var o := linked[|linked| - 1];
      if |g[o].inLinks| < prev.1 || prev.0 == None then (Some(o), |g[o].inLinks|) else prev
  }

  /** Below this in-degree an unsupported neighbour is still followed. */
  const FollowLimit := 15

  /**
    The neighbour `MorphemeNode.FindStem` recurses into, if any: none when
    the node has no out-links; the supported neighbour of highest ratio if
    there is one; else the neighbour of least in-degree if that is below
    the limit, and none otherwise.
   */
  function Follow(g: Arena, t: string): (r: Option<string>)
    requires Linked(g) && t in g
    ensures r.Some? ==> r.value in g[t].outLinks && r.value in g && |r.value| < |t|
  {
    var node := g[t];
    if node.outLinks == [] then None
    else
      var parts := Partition(g, node.inLinks, node.outLinks);
      if parts.0 != [] then MostSupported(g, parts.0).0
      else
        var least := LeastLinked(g, parts.1);
        if least.1 < FollowLimit then least.0 else None
  }

  /** The token `MorphemeNode.FindStem` returns from the node of `t`. */
  function StemOf(g: Arena, t: string): string
    requires Linked(g) && t in g
    decreases |t|
  {
    match Follow(g, t)
    case None => t
    case Some(next) => StemOf(g, next)
  }

  /** A proper piece of a word is a substring of it. */
  lemma PieceSubstring(f: string, w: string)
    requires ProperPiece(f, w)
    ensures IsSubstring(f, w)
  {
    if f == w[..|f|] {
      assert w[0..|f|] == f;
    } else {
      assert w[|w| - |f|..|w|] == f;
    }
  }

  /**
    The stem is the word itself or a non-empty, strictly shorter substring
    of it (a chain of proper prefixes and suffixes).
   */
  lemma {:induction false} StemOfSubstring(g: Arena, t: string)
    requires Linked(g) && t in g
    ensures var r := StemOf(g, t);
      IsSubstring(r, t) && (r == t || (r != "" && |r| < |t|))
    decreases |t|
  {
    SubstringOfSelf(t);
    match Follow(g, t)
    case None =>
    case Some(next) =>
      PieceSubstring(next, t);
      StemOfSubstring(g, next);
      SubstringTransitive(StemOf(g, next), next, t);
  }

  /** The stem is itself a node of the graph. */
  lemma {:induction false} StemOfNode(g: Arena, t: string)
    requires Linked(g) && t in g
    ensures StemOf(g, t) in g
    decreases |t|
  {
    match Follow(g, t)
    case None =>
    case Some(next) =>
      StemOfNode(g, next);
  }

  /** The stem's own stem is itself: the walk stops at a node where it would stop again. */
  lemma {:induction false} StemOfFixpoint(g: Arena, t: string)
    requires Linked(g) && t in g
    ensures StemOf(g, t) in g && StemOf(g, StemOf(g, t)) == StemOf(g, t)
    decreases |t|
  {
    StemOfNode(g, t);
    var follow := Follow(g, t);
    if follow.Some? {
      var next := follow.value;
      StemOfFixpoint(g, next);
    }
  }

  /** The support loop: how many in-links of a neighbour are also in-links of this node. */
  method CountSupport(ins: seq<string>, mine: seq<string>) returns (support: nat)
    ensures support == Support(ins, mine)
  {
    support := 0;
    for j := 0 to |ins|
      invariant support == Support(ins[..j], mine)
    {
      assert ins[..j + 1][..j] == ins[..j];
      if ins[j] in mine {
        support := support + 1;
      }
    }
    assert ins[..|ins|] == ins;
  }

  /** One more out-link joins the supported or the linked ones. */
  lemma PartitionSnoc(g: Arena, mine: seq<string>, outs: seq<string>, i: nat)
    requires i < |outs| && forall o :: o in outs ==> o in g
    ensures var prev := Partition(g, mine, outs[..i]);
      var support := Support(g[outs[i]].inLinks, mine);
      Partition(g, mine, outs[..i + 1]) ==
        if support > 0 then (prev.0 + [(outs[i], support)], prev.1) else (prev.0, prev.1 + [outs[i]])
  {
    assert outs[..i + 1][..i] == outs[..i];
  }

  /** One iteration of the loop over the out-links: the `i`-th joins the supported or the linked ones. */
  method PartitionStep(g: Arena, mine: seq<string>, outs: seq<string>, i: nat, supported: seq<(string, nat)>, linked: seq<string>)
    returns (supported': seq<(string, nat)>, linked': seq<string>)
    requires i < |outs| && forall o :: o in outs ==> o in g
    requires (supported, linked) == Partition(g, mine, outs[..i])
    ensures (supported', linked') == Partition(g, mine, outs[..i + 1])
  {
    var n := outs[i];
    var support := CountSupport(g[n].inLinks, mine);
    PartitionSnoc(g, mine, outs, i);
    if support > 0 {
      supported', linked' := supported + [(n, support)], linked;
    } else {
      supported', linked' := supported, linked + [n];
    }
  }

  /** The loop over the out-links that fills `supported` and `linked`. */
  method PartitionLinks(g: Arena, t: string) returns (supported: seq<(string, nat)>, linked: seq<string>)
    requires t in g && forall o :: o in g[t].outLinks ==> o in g
    ensures (supported, linked) == Partition(g, g[t].inLinks, g[t].outLinks)
  {
    var mine, outs := g[t].inLinks, g[t].outLinks;
    supported, linked := [], [];
    for i := 0 to |outs|
      invariant (supported, linked) == Partition(g, mine, outs[..i])
    {
      supported, linked := PartitionStep(g, mine, outs, i, supported, linked);
    }
    assert outs[..|outs|] == outs;
  }

  /** The loop that picks the supported neighbour of highest ratio. */
  method MostSupportedOf(g: Arena, supported: seq<(string, nat)>) returns (best: Option<string>, max: real)
    requires Supported(g, supported)
    ensures (best, max) == MostSupported(g, supported)
  {
    best, max := None, 0.0;
    for i := 0 to |supported|
      invariant (best, max) == MostSupported(g, supported[..i])
    {
      var p := supported[i];
      var k := p.1 as real / |g[p.0].inLinks| as real;
      assert supported[..i + 1][..i] == supported[..i];
      if k > max {
        max := k;
        best := Some(p.0);
      }
    }
    assert supported[..|supported|] == supported;
  }

  /** The loop that picks the neighbour of least in-degree. */
  method LeastLinkedOf(g: Arena, linked: seq<string>) returns (best: Option<string>, min: nat)
    requires forall o :: o in linked ==> o in g
    ensures (best, min) == LeastLinked(g, linked)
  {
    best, min := None, 0;
    for i := 0 to |linked|
      invariant (best, min) == LeastLinked(g, linked[..i])
    {
      var n := linked[i];
      assert linked[..i + 1][..i] == linked[..i];
      if |g[n].inLinks| < min || best == None {
        best := Some(n);
        min := |g[n].inLinks|;
      }
    }
    assert linked[..|linked|] == linked;
  }

  /** `MorphemeNode.FindStem`, on the node of `t`. */
  method NodeFindStem(g: Arena, t: string) returns (stem: string)
    requires Linked(g) && t in g
    ensures stem == StemOf(g, t)
    decreases |t|
  {
    if |g[t].outLinks| == 0 {
      return t;
    }
    assert forall o :: o in g[t].outLinks ==> o in g;
    var supported, linked := PartitionLinks(g, t);
    if |supported| != 0 {
      var best, max := MostSupportedOf(g, supported);
      assert Follow(g, t) == best;
      stem := NodeFindStem(g, best.value);
    } else {
      var best, min := LeastLinkedOf(g, linked);
      if min < FollowLimit {
        assert Follow(g, t) == best;
        stem := NodeFindStem(g, best.value);
      } else {
        stem := t;
      }
    }
  }

  /** Every node's token is its key. */
  ghost predicate Tokens(g: Arena) {
    forall k :: k in g ==> g[k].token == k
  }

  /** `Stemmer.FindStem`: a word without a node is its own stem; otherwise the token of its node's stem. */
  method FindStem(word: string, nodes: Arena) returns (stem: string)
    requires Linked(nodes) && Tokens(nodes)
    ensures stem == if word in nodes then StemOf(nodes, word) else word
  {
    if word !in nodes {
      return word;
    }
    var found := NodeFindStem(nodes, word);
    StemOfNode(nodes, word);
    stem := nodes[found].token;
  }

  /** The stem of every corpus word in the graph built from the corpus. */
  ghost function StemTable(vocab: seq<string>): (r: map<string, string>)
    ensures forall w :: w in vocab ==> w in r && r[w] == StemOf(Graph(vocab), w)
    ensures forall w :: w in r ==> w in vocab
  {
    var g := Graph(vocab);
    StemsTable(g, vocab, |vocab|);
    StemsOf(g, vocab, |vocab|)
  }

  /** The stem of each of the first `n` words. */
  ghost function StemsOf(g: Arena, words: seq<string>, n: nat): (r: map<string, string>)
    requires Linked(g) && Tokens(g) && n <= |words|
    ensures r.Keys == set w | w in words[..n]
    decreases n
  {
    if n == 0 then map[]
    else
      var w := words[n - 1];
      StemsOf(g, words, n - 1)[w := if w in g then StemOf(g, w) else w]
  }

  lemma {:induction false} StemsTable(g: Arena, words: seq<string>, n: nat)
    requires Linked(g) && Tokens(g) && n <= |words| && forall w :: w in words ==> w in g
    ensures forall k :: 0 <= k < n ==> StemsOf(g, words, n)[words[k]] == StemOf(g, words[k])
  {
    if n > 0 {
      StemsTable(g, words, n - 1);
    }
  }

  /** The constructor's loop filling `mappings` with `FindStem` of every corpus word. */
  method StemAll(corpus: seq<string>, nodes: Arena) returns (table: map<string, string>)
    requires Linked(nodes) && Tokens(nodes)
    ensures table == StemsOf(nodes, corpus, |corpus|)
  {
    table := map[];
    for i := 0 to |corpus|
      invariant table == StemsOf(nodes, corpus, i)
    {
      var stem := FindStem(corpus[i], nodes);
      table := table[corpus[i] := stem];
    }
  }

  /** The stemmer: the corpus words and the stem `FindStem` gave each of them. */
  class Stemmer {
    const corpusWords: seq<string>
    const mappings: map<string, string>

    ghost predicate Valid() {
      mappings == StemTable(corpusWords)
    }

    /**
      Builds the graph and stems every corpus word. The words must be
      distinct: the source's `nodes.Add` and `mappings.Add` throw on a
      repeated key.
     */
    constructor (corpus: seq<string>)
      requires Distinct(corpus)
      ensures corpusWords == corpus && Valid()
    {
      var nodes := SplitPhase(corpus);
      var table := StemAll(corpus, nodes);
      corpusWords := corpus;
      mappings := table;
    }

    /** `Stem`: the stored stem of a corpus word, any other word unchanged. */
    function Stem(word: string): (r: string)
      ensures Valid() && word !in corpusWords ==> r == word
      ensures Valid() && word in corpusWords ==> r == StemOf(Graph(corpusWords), word)
    {
      if word in mappings then mappings[word] else word
    }
  }

  /** Stemming a stem changes nothing. */
  lemma StemIdempotent(s: Stemmer, word: string)
    requires s.Valid()
    ensures s.Stem(s.Stem(word)) == s.Stem(word)
  {
    if word in s.corpusWords {
      StemOfFixpoint(Graph(s.corpusWords), word);
    }
  }

  /** A stem is a substring of its word, and empty only for the empty word. */
  lemma StemSubstring(s: Stemmer, word: string)
    requires s.Valid()
    ensures IsSubstring(s.Stem(word), word)
    ensures word != "" ==> s.Stem(word) != ""
  {
    SubstringOfSelf(word);
    if word in s.corpusWords {
      StemOfSubstring(Graph(s.corpusWords), word);
    }
  }
}
