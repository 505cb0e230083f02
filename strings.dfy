/** The few Python string operations the script relies on: str.split with a
    one-character separator, str.join, reversed(), slicing with non-negative
    bounds, and the code-point order that sorted() uses on strings. */
module Strings {

  /** `s.split(sep)`: the pieces between separators, in order. Python returns
      at least one piece, the empty string for an empty input. */
  function Split(s: string, sep: char): (parts: seq<string>)
    ensures |parts| >= 1
    decreases |s|
  {
    if s == [] then [""]
    else
      var rest := Split(s[1..], sep);
      if s[0] == sep then [""] + rest
      else [[s[0]] + rest[0]] + rest[1..]
  }

  /** `sep.join(parts)` for a one-character separator. */
  function Join(sep: char, parts: seq<string>): string
  {
    if |parts| == 0 then ""
    else if |parts| == 1 then parts[0]
    else parts[0] + [sep] + Join(sep, parts[1..])
  }

  /** `list(reversed(s))`. */
  function Reversed<T>(s: seq<T>): seq<T>
  {
    seq(|s|, i requires 0 <= i < |s| => s[|s| - 1 - i])
  }

  /** `s[lo:hi]` for 0 <= lo <= hi: Python clamps both bounds to the length. */
  function Slice(s: string, lo: nat, hi: nat): (r: string)
    requires lo <= hi
    ensures |r| == if hi <= |s| then hi - lo else if lo <= |s| then |s| - lo else 0
    ensures forall i :: 0 <= i < |r| ==> r[i] == s[lo + i]
  {
    var a := if lo <= |s| then lo else |s|;
    var b := if hi <= |s| then hi else |s|;
    s[a..b]
  }

  lemma JoinCons(sep: char, p: string, parts: seq<string>)
    requires |parts| >= 1
    ensures Join(sep, [p] + parts) == p + [sep] + Join(sep, parts)
  {
    assert ([p] + parts)[1..] == parts;
  }

  /** Joining the pieces of a split gives the string back. */
  lemma {:induction false} SplitThenJoin(s: string, sep: char)
    ensures Join(sep, Split(s, sep)) == s
  {
    if s != [] {
      var rest := Split(s[1..], sep);
      SplitThenJoin(s[1..], sep);
      if s[0] == sep {
        JoinCons(sep, "", rest);
        assert s == [sep] + s[1..];
      } else if |rest| == 1 {
        assert s == [s[0]] + s[1..];
      } else {
        assert rest == [rest[0]] + rest[1..];
        JoinCons(sep, rest[0], rest[1..]);
        JoinCons(sep, [s[0]] + rest[0], rest[1..]);
        assert s == [s[0]] + s[1..];
      }
    }
  }

  /** A string without the separator is a single piece. */
  lemma {:induction false} SplitWithoutSeparator(p: string, sep: char)
    requires sep !in p
    ensures Split(p, sep) == [p]
  {
    if p != [] {
      SplitWithoutSeparator(p[1..], sep);
      assert p == [p[0]] + p[1..];
    }
  }

  /** A string that holds the separator has at least two pieces. */
  lemma {:induction false} SplitWithSeparator(p: string, sep: char)
    requires sep in p
    ensures |Split(p, sep)| >= 2
  {
    if p[0] != sep {
      assert sep in p[1..] by {
        var k :| 0 <= k < |p| && p[k] == sep;
        assert p[1..][k - 1] == sep;
      }
      SplitWithSeparator(p[1..], sep);
    }
  }

  /** Splitting around one separator splits each side on its own. */
  lemma {:induction false} SplitAppend(a: string, b: string, sep: char)
    ensures Split(a + [sep] + b, sep) == Split(a, sep) + Split(b, sep)
  {
    if a == [] {
      assert a + [sep] + b == [sep] + b;
      SplitCons(sep, b, sep);
    } else {
      var c, t := a[0], a[1..];
      assert a == [c] + t;
      assert a + [sep] + b == [c] + (t + [sep] + b);
      SplitAppend(t, b, sep);
      SplitAppendStep(c, t, t + [sep] + b, sep, Split(b, sep));
    }
  }

  /** The inductive step of SplitAppend: a character put in front of both sides. */
  lemma SplitAppendStep(c: char, t: string, u: string, sep: char, right: seq<string>)
    requires Split(u, sep) == Split(t, sep) + right
    ensures Split([c] + u, sep) == Split([c] + t, sep) + right
  {
    SplitCons(c, u, sep);
    SplitCons(c, t, sep);
    var left := Split(t, sep);
    if c == sep {
      ConsConcat("", left, right);
    } else {
      TailConcat([c] + left[0], left, right);
    }
  }

  lemma ConsConcat<T>(h: T, l: seq<T>, r: seq<T>)
    ensures [h] + (l + r) == ([h] + l) + r
  {
  }

  lemma TailConcat<T>(h: T, l: seq<T>, r: seq<T>)
    requires |l| >= 1
    ensures (l + r)[0] == l[0]
    ensures [h] + (l + r)[1..] == ([h] + l[1..]) + r
  {
    assert (l + r)[1..] == l[1..] + r;
  }

  /** One step of Split, with the first character apart. */
  lemma SplitCons(c: char, t: string, sep: char)
    ensures Split([c] + t, sep) ==
            if c == sep then [""] + Split(t, sep) else [[c] + Split(t, sep)[0]] + Split(t, sep)[1..]
  {
    assert ([c] + t)[1..] == t;
  }

  /** Pieces that hold no separator come back unchanged from joining and splitting. */
  lemma {:induction false} JoinThenSplit(sep: char, parts: seq<string>)
    requires |parts| >= 1
    requires forall i :: 0 <= i < |parts| ==> sep !in parts[i]
    ensures Split(Join(sep, parts), sep) == parts
  {
    SplitWithoutSeparator(parts[0], sep);
    if |parts| > 1 {
      JoinThenSplit(sep, parts[1..]);
      SplitAppend(parts[0], Join(sep, parts[1..]), sep);
      assert parts == [parts[0]] + parts[1..];
    }
  }

  /** Joining k pieces and splitting again gives at least k pieces, and
      exactly k when and only when no piece held the separator. */
  lemma {:induction false} JoinThenSplitLength(sep: char, parts: seq<string>)
    requires |parts| >= 1
    ensures |Split(Join(sep, parts), sep)| >= |parts|
    ensures |Split(Join(sep, parts), sep)| == |parts| <==>
            forall i :: 0 <= i < |parts| ==> sep !in parts[i]
  {
    if sep in parts[0] {
      SplitWithSeparator(parts[0], sep);
    } else {
      SplitWithoutSeparator(parts[0], sep);
    }
    if |parts| > 1 {
      var tail := parts[1..];
      JoinThenSplitLength(sep, tail);
      SplitAppend(parts[0], Join(sep, tail), sep);
      assert forall i :: 1 <= i < |parts| ==> parts[i] == tail[i - 1];
    }
  }

  /** A character absent from the string is absent from every piece. */
  lemma {:induction false} SplitKeepsAbsent(s: string, sep: char, c: char)
    requires c !in s
    ensures forall i :: 0 <= i < |Split(s, sep)| ==> c !in Split(s, sep)[i]
  {
    if s != [] {
      SplitKeepsAbsent(s[1..], sep, c);
    }
  }

  /** Python's `a < b` on strings: lexicographic by code point, a proper
      prefix before the longer string. */
  predicate LexLess(a: string, b: string)
  {
    if a == [] then b != []
    else if b == [] then false
    else if a[0] != b[0] then a[0] < b[0]
    else LexLess(a[1..], b[1..])
  }

  lemma {:induction false} LexLessIrreflexive(a: string)
    ensures !LexLess(a, a)
  {
    if a != [] {
      LexLessIrreflexive(a[1..]);
    }
  }

  lemma {:induction false} LexLessAsymmetric(a: string, b: string)
    requires LexLess(a, b)
    ensures !LexLess(b, a)
  {
    if a != [] && a[0] == b[0] {
      LexLessAsymmetric(a[1..], b[1..]);
    }
  }

  lemma {:induction false} LexLessTransitive(a: string, b: string, c: string)
    requires LexLess(a, b) && LexLess(b, c)
    ensures LexLess(a, c)
  {
    if a != [] && a[0] == b[0] && b[0] == c[0] {
      LexLessTransitive(a[1..], b[1..], c[1..]);
    }
  }

  lemma {:induction false} LexLessTotal(a: string, b: string)
    requires a != b
    ensures LexLess(a, b) || LexLess(b, a)
  {
    if a != [] && b != [] && a[0] == b[0] {
      assert a == [a[0]] + a[1..] && b == [b[0]] + b[1..];
      LexLessTotal(a[1..], b[1..]);
    }
  }
}
