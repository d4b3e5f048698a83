/**
  String helpers standing for the .NET library calls the core uses:
  `String.Split(char)`, `String.Trim(char[])`, `String.ToLower()` and the
  case-insensitive `String.Compare(a, b, true)`.
  Case mapping and comparison are modelled on ASCII letters only.
 */
module Text {

  /** No element occurs twice. */
  predicate Distinct<T(==)>(s: seq<T>) {
    forall i, j :: 0 <= i < j < |s| ==> s[i] != s[j]
  }

  /** The position of the first occurrence of `x` in `s`. */
  function IndexOf<T(==)>(s: seq<T>, x: T): (r: nat)
    requires x in s
    ensures r < |s| && s[r] == x
    ensures forall j :: 0 <= j < r ==> s[j] != x
    decreases |s|
  {
    if s[0] == x then 0 else 1 + IndexOf(s[1..], x)
  }

  /** The smaller of two naturals. */
  function Min(x: nat, y: nat): nat {
    if x <= y then x else y
  }

  lemma AppendAssociates<T>(a: seq<T>, b: seq<T>, c: seq<T>)
    ensures a + b + c == a + (b + c)
  {
  }

  lemma TakeSnoc<T>(s: seq<T>, i: nat)
    requires i < |s|
    ensures s[..i + 1] == s[..i] + [s[i]]
  {
  }

  predicate IsUpper(c: char) {
    'A' <= c <= 'Z'
  }

  /** `Char.ToLower` on ASCII: upper-case letters become lower case, all else is unchanged. */
  function LowerChar(c: char): (r: char)
    ensures !IsUpper(r)
    ensures !IsUpper(c) ==> r == c
  {
    if IsUpper(c) then (c as int + 32) as char else c
  }

  /** `String.ToLower`. */
  function Lower(s: string): (r: string)
    ensures |r| == |s|
    ensures forall i :: 0 <= i < |s| ==> r[i] == LowerChar(s[i])
  {
    seq(|s|, i requires 0 <= i < |s| => LowerChar(s[i]))
  }

  /** A string `Lower` leaves unchanged. */
  predicate IsLower(s: string) {
    forall i :: 0 <= i < |s| ==> !IsUpper(s[i])
  }

  lemma LowerFacts(s: string)
    ensures IsLower(Lower(s))
    ensures IsLower(s) ==> Lower(s) == s
  {
  }

  /** `s` occurs contiguously inside `t`. */
  ghost predicate IsSubstring(s: string, t: string) {
    exists i, j :: 0 <= i <= j <= |t| && t[i..j] == s
  }

  lemma SubstringOfSelf(t: string)
    ensures IsSubstring(t, t)
  {
    assert t[0..|t|] == t;
  }

  lemma SubstringTransitive(a: string, b: string, c: string)
    requires IsSubstring(a, b) && IsSubstring(b, c)
    ensures IsSubstring(a, c)
  {
    var i, j :| 0 <= i <= j <= |c| && c[i..j] == b;
    var k, l :| 0 <= k <= l <= |b| && b[k..l] == a;
    var s := c[i + k..i + l];
    forall m | 0 <= m < |a| ensures s[m] == a[m] {
      assert a[m] == b[k + m] == c[i + k + m];
    }
    assert s == a;
  }

  lemma SubstringOfLower(a: string, b: string)
    requires IsSubstring(a, b) && IsLower(b)
    ensures IsLower(a)
  {
    var i, j :| 0 <= i <= j <= |b| && b[i..j] == a;
    forall k | 0 <= k < |a| ensures !IsUpper(a[k]) {
      assert a[k] == b[i + k];
    }
  }

  // ---------------------------------------------------------------------------
  // Split and join

  /**
    `String.Split(c)`: the fields between occurrences of `c`, empty fields
    included, so there is always at least one field.
   */
  function SplitOn(s: string, c: char): (r: seq<string>)
    ensures |r| >= 1
    decreases |s|
  {
    if s == [] then [""]
    else if s[0] == c then [""] + SplitOn(s[1..], c)
    else
      var rest := SplitOn(s[1..], c);
      [[s[0]] + rest[0]] + rest[1..]
  }

  /** The fields joined with `c` between neighbours. */
  function JoinWith(fields: seq<string>, c: char): string
    requires |fields| >= 1
    decreases |fields|
  {
    if |fields| == 1 then fields[0] else fields[0] + [c] + JoinWith(fields[1..], c)
  }

  lemma {:induction false} SplitWithout(a: string, c: char)
    requires c !in a
    ensures SplitOn(a, c) == [a]
    decreases |a|
  {
    if a != [] {
      assert c !in a[1..];
      SplitWithout(a[1..], c);
      assert [a[0]] + a[1..] == a;
    }
  }

  lemma {:induction false} SplitAtFirst(a: string, c: char, b: string)
    requires c !in a
    ensures SplitOn(a + [c] + b, c) == [a] + SplitOn(b, c)
    decreases |a|
  {
    if a == [] {
      assert a + [c] + b == [c] + b;
      assert ([c] + b)[1..] == b;
    } else {
      SplitAtFirst(a[1..], c, b);
      assert (a + [c] + b)[1..] == a[1..] + [c] + b;
      assert [a[0]] + a[1..] == a;
    }
  }

  /** Splitting a joined row gives back its fields when no field holds the separator. */
  lemma {:induction false} SplitJoin(fields: seq<string>, c: char)
    requires |fields| >= 1
    requires forall k :: 0 <= k < |fields| ==> c !in fields[k]
    ensures SplitOn(JoinWith(fields, c), c) == fields
    decreases |fields|
  {
    if |fields| == 1 {
      SplitWithout(fields[0], c);
    } else {
      SplitJoin(fields[1..], c);
      SplitAtFirst(fields[0], c, JoinWith(fields[1..], c));
      assert [fields[0]] + fields[1..] == fields;
    }
  }

  // ---------------------------------------------------------------------------
  // Trim

  /** The first index at or after `i` whose character is not in `chars`, or `|s|`. */
  function TrimmedStart(s: string, chars: set<char>, i: nat): (k: nat)
    requires i <= |s|
    ensures i <= k <= |s|
    ensures k < |s| ==> s[k] !in chars
    ensures forall m :: i <= m < k ==> s[m] in chars
    decreases |s| - i
  {
    if i < |s| && s[i] in chars then TrimmedStart(s, chars, i + 1) else i
  }

  /** The index just past the last character of `s[lo..j]` not in `chars`, or `lo`. */
  function TrimmedEnd(s: string, chars: set<char>, lo: nat, j: nat): (k: nat)
    requires lo <= j <= |s|
    ensures lo <= k <= j
    ensures k > lo ==> s[k - 1] !in chars
    ensures forall m :: k <= m < j ==> s[m] in chars
    decreases j
  {
    if j > lo && s[j - 1] in chars then TrimmedEnd(s, chars, lo, j - 1) else j
  }

  /**
    `String.Trim(chars)`: the longest stretch of `s` that neither starts nor ends
    with a character of `chars`, found by stripping the front and then the back.
   */
  function Trim(s: string, chars: set<char>): (r: string)
    ensures IsSubstring(r, s)
    ensures r != [] ==> r[0] !in chars && r[|r| - 1] !in chars
    ensures exists a, b ::
      && 0 <= a <= b <= |s| && r == s[a..b]
      && (forall m :: 0 <= m < a ==> s[m] in chars)
      && (forall m :: b <= m < |s| ==> s[m] in chars)
  {
    var i := TrimmedStart(s, chars, 0);
    var j := TrimmedEnd(s, chars, i, |s|);
    s[i..j]
  }

  // ---------------------------------------------------------------------------
  // Case-insensitive ordering

  /** Lexicographic order on character codes; a proper prefix comes first. */
  predicate LexLess(a: string, b: string)
    decreases |a|
  {
    if a == [] then b != []
    else if b == [] then false
    else if a[0] != b[0] then a[0] < b[0]
    else LexLess(a[1..], b[1..])
  }

  lemma {:induction false} LexLessIrreflexive(a: string)
    ensures !LexLess(a, a)
    decreases |a|
  {
    if a != [] {
      LexLessIrreflexive(a[1..]);
    }
  }

  lemma {:induction false} LexLessTransitive(a: string, b: string, c: string)
    requires LexLess(a, b) && LexLess(b, c)
    ensures LexLess(a, c)
    decreases |a|
  {
    if a != [] && b != [] && c != [] && a[0] == b[0] && b[0] == c[0] {
      LexLessTransitive(a[1..], b[1..], c[1..]);
    }
  }

  lemma {:induction false} LexLessTotal(a: string, b: string)
    requires a != b
    ensures LexLess(a, b) || LexLess(b, a)
    decreases |a|
  {
    if a != [] && b != [] && a[0] == b[0] {
      assert a == [a[0]] + a[1..] && b == [b[0]] + b[1..];
      LexLessTotal(a[1..], b[1..]);
    }
  }

  lemma LexLessAsymmetric(a: string, b: string)
    requires LexLess(a, b)
    ensures !LexLess(b, a)
  {
    if LexLess(b, a) {
      LexLessTransitive(a, b, a);
      LexLessIrreflexive(a);
    }
  }

  /** `String.Compare(a, b, true) < 0`: `a` sorts strictly before `b` ignoring case. */
  predicate LessIgnoringCase(a: string, b: string) {
    LexLess(Lower(a), Lower(b))
  }
}
