/**
  The counting dictionaries of the core (`Dictionary<string, int>` filled by
  "add with 0 if missing, then increment"). A .NET dictionary that never loses
  a key enumerates its keys in insertion order, and that order is observable
  downstream (ties in sorting, pair enumeration), so a tally keeps it.
 */
module Tallies {
  import opened Text

  /** Keys in insertion order together with their counts. */
  datatype Tally<T(==)> = Tally(order: seq<T>, count: map<T, nat>)

  /** The order lists every key exactly once. */
  predicate Valid<T(==)>(t: Tally<T>) {
    && Distinct(t.order)
    && t.count.Keys == set x | x in t.order
  }

  function Empty<T(==)>(): Tally<T> {
    Tally([], map[])
  }

  /** One more occurrence of `x`; a new key is appended with count 1. */
  function Add<T(==)>(t: Tally<T>, x: T): Tally<T> {
    if x in t.count then Tally(t.order, t.count[x := t.count[x] + 1])
    else Tally(t.order + [x], t.count[x := 1])
  }

  /** How often `x` occurs in `s`. */
  function Occurrences<T(==)>(s: seq<T>, x: T): nat
    decreases |s|
  {
    if s == [] then 0 else Occurrences(s[..|s| - 1], x) + (if s[|s| - 1] == x then 1 else 0)
  }

  /** The tally a left-to-right counting loop over `s` builds. */
  function TallyOf<T(==)>(s: seq<T>): Tally<T>
    decreases |s|
  {
    if s == [] then Empty() else Add(TallyOf(s[..|s| - 1]), s[|s| - 1])
  }

  /** Sum of the counts of the keys listed in `order`. */
  function SumCounts<T(==)>(order: seq<T>, count: map<T, nat>): nat
    requires forall x :: x in order ==> x in count
    decreases |order|
  {
    if order == [] then 0 else count[order[0]] + SumCounts(order[1..], count)
  }

  lemma {:induction false} OccurrencesAppend<T>(a: seq<T>, b: seq<T>, x: T)
    ensures Occurrences(a + b, x) == Occurrences(a, x) + Occurrences(b, x)
    decreases |b|
  {
    if b == [] {
      assert a + b == a;
    } else {
      assert (a + b)[..|a + b| - 1] == a + b[..|b| - 1];
      OccurrencesAppend(a, b[..|b| - 1], x);
    }
  }

  lemma {:induction false} OccurrencesPositive<T>(s: seq<T>, x: T)
    ensures x in s <==> Occurrences(s, x) > 0
    decreases |s|
  {
    if s != [] {
      OccurrencesPositive(s[..|s| - 1], x);
      assert s == s[..|s| - 1] + [s[|s| - 1]];
    }
  }

  /** In a duplicate-free sequence every element occurs at most once. */
  lemma {:induction false} OccurrencesDistinct<T>(s: seq<T>, x: T)
    requires Distinct(s)
    ensures Occurrences(s, x) == if x in s then 1 else 0
    decreases |s|
  {
    if s != [] {
      var init := s[..|s| - 1];
      assert s == init + [s[|s| - 1]];
      OccurrencesDistinct(init, x);
      assert s[|s| - 1] !in init;
    }
  }

  lemma {:induction false} SumCountsIncrement<T>(order: seq<T>, count: map<T, nat>, x: T)
    requires Distinct(order) && x in order
    requires forall y :: y in order ==> y in count
    ensures SumCounts(order, count[x := count[x] + 1]) == SumCounts(order, count) + 1
    decreases |order|
  {
    if order[0] != x {
      SumCountsIncrement(order[1..], count, x);
    } else {
      SumCountsUnchanged(order[1..], count, x, count[x] + 1);
    }
  }

  lemma {:induction false} SumCountsUnchanged<T>(order: seq<T>, count: map<T, nat>, x: T, v: nat)
    requires x !in order
    requires forall y :: y in order ==> y in count
    ensures SumCounts(order, count[x := v]) == SumCounts(order, count)
    decreases |order|
  {
    if order != [] {
      SumCountsUnchanged(order[1..], count, x, v);
    }
  }

  lemma {:induction false} SumCountsAppend<T>(order: seq<T>, count: map<T, nat>, x: T)
    requires forall y :: y in order ==> y in count
    requires x in count
    ensures SumCounts(order + [x], count) == SumCounts(order, count) + count[x]
    decreases |order|
  {
    if order == [] {
      assert order + [x] == [x];
    } else {
      assert (order + [x])[1..] == order[1..] + [x];
      SumCountsAppend(order[1..], count, x);
    }
  }

  /**
    The counting loop is exact: its keys are the distinct elements of `s`,
    each counted once per occurrence, and the counts add up to `|s|`.
   */
  lemma {:induction false} TallyOfCounts<T>(s: seq<T>)
    ensures Valid(TallyOf(s))
    ensures forall x :: x in TallyOf(s).count <==> x in s
    ensures forall x :: x in TallyOf(s).count ==> TallyOf(s).count[x] == Occurrences(s, x)
    ensures SumCounts(TallyOf(s).order, TallyOf(s).count) == |s|
    decreases |s|
  {
    if s != [] {
      var init, x := s[..|s| - 1], s[|s| - 1];
      assert s == init + [x];
      TallyOfCounts(init);
      var t := TallyOf(init);
      forall y ensures y in s <==> y in init || y == x {
        assert y in s ==> y in init || y == x;
      }
      forall y | y in TallyOf(s).count ensures TallyOf(s).count[y] == Occurrences(s, y) {
        OccurrencesPositive(init, y);
        assert s[..|s| - 1] == init;
      }
      AddCounts(t, x);
    }
  }

  /** Counting one occurrence keeps a tally valid and raises its total by one. */
  lemma AddCounts<T>(t: Tally<T>, x: T)
    requires Valid(t)
    ensures Valid(Add(t, x))
    ensures SumCounts(Add(t, x).order, Add(t, x).count) == SumCounts(t.order, t.count) + 1
  {
    if x in t.count {
      SumCountsIncrement(t.order, t.count, x);
    } else {
      SumCountsUnchanged(t.order, t.count, x, 1);
      SumCountsAppend(t.order, t.count[x := 1], x);
      forall i, j | 0 <= i < j < |t.order + [x]| ensures (t.order + [x])[i] != (t.order + [x])[j] {
        if j == |t.order| {
          assert (t.order + [x])[i] == t.order[i];
        }
      }
    }
  }

  /** Counting one more element extends the tally by `Add`. */
  lemma TallyOfSnoc<T>(s: seq<T>, x: T)
    ensures TallyOf(s + [x]) == Add(TallyOf(s), x)
  {
    assert (s + [x])[..|s|] == s;
  }
}
