/** `sorted(set(xs))` on a column of strings: the distinct values in
    ascending code-point order. */
module SortedSets {
  import opened Strings

  predicate StrictlySorted(s: seq<string>)
  {
    forall i, j :: 0 <= i < j < |s| ==> LexLess(s[i], s[j])
  }

  lemma {:induction false} BelowHeadBelowAll(x: string, s: seq<string>)
    requires StrictlySorted(s) && s != [] && LexLess(x, s[0])
    ensures forall j :: 0 <= j < |s| ==> LexLess(x, s[j])
  {
    forall j | 0 < j < |s| {
      LexLessTransitive(x, s[0], s[j]);
    }
  }

  /** Adds x to a strictly sorted sequence, keeping it strictly sorted and
      free of duplicates. */
  function Insert(x: string, s: seq<string>): (r: seq<string>)
    requires StrictlySorted(s)
    ensures StrictlySorted(r)
    ensures forall y :: y in r <==> y == x || y in s
    decreases |s|
  {
    if s == [] then [x]
    else if x == s[0] then s
    else if LexLess(x, s[0]) then
      BelowHeadBelowAll(x, s);
      [x] + s
    else
      LexLessTotal(x, s[0]);
      var t := Insert(x, s[1..]);
      assert forall y :: y in s[1..] ==> LexLess(s[0], y);
      [s[0]] + t
  }

  /** `sorted(set(xs))`. */
  function SortedDistinct(xs: seq<string>): (r: seq<string>)
    ensures StrictlySorted(r)
    ensures forall y :: y in r <==> y in xs
  {
    if xs == [] then []
    else
      var init := xs[..|xs| - 1];
      assert xs == init + [xs[|xs| - 1]];
      Insert(xs[|xs| - 1], SortedDistinct(init))
  }

  /** The head of a strictly sorted sequence is below every other element. */
  lemma HeadIsLeast(s: seq<string>, y: string)
    requires StrictlySorted(s) && y in s
    ensures y == s[0] || LexLess(s[0], y)
  {
  }

  /** Two strictly sorted sequences with the same elements are equal: the
      contract of SortedDistinct pins down Python's result exactly. */
  lemma {:induction false} SortedUnique(a: seq<string>, b: seq<string>)
    requires StrictlySorted(a) && StrictlySorted(b)
    requires forall y :: y in a <==> y in b
    ensures a == b
  {
    if a != [] { assert a[0] in b; }
    if b != [] { assert b[0] in a; }
    if a != [] && b != [] {
      HeadIsLeast(b, a[0]);
      HeadIsLeast(a, b[0]);
      assert a[0] == b[0] by {
        if LexLess(a[0], b[0]) { LexLessAsymmetric(a[0], b[0]); }
      }
      LexLessIrreflexive(a[0]);
      forall y ensures y in a[1..] <==> y in b[1..] {
        if y in a[1..] {
          var i :| 1 <= i < |a| && a[i] == y;
          assert y in b && y != b[0];
          var j :| 0 <= j < |b| && b[j] == y;
          assert b[1..][j - 1] == y;
        }
        if y in b[1..] {
          var i :| 1 <= i < |b| && b[i] == y;
          assert y in a && y != a[0];
          var j :| 0 <= j < |a| && a[j] == y;
          assert a[1..][j - 1] == y;
        }
      }
      SortedUnique(a[1..], b[1..]);
      assert a == [a[0]] + a[1..] && b == [b[0]] + b[1..];
    }
  }

  /** Strictly sorted means duplicate-free. */
  lemma StrictlySortedDistinct(s: seq<string>, i: int, j: int)
    requires StrictlySorted(s) && 0 <= i < |s| && 0 <= j < |s| && i != j
    ensures s[i] != s[j]
  {
    if i < j { LexLessIrreflexive(s[i]); } else { LexLessIrreflexive(s[j]); }
  }
}
