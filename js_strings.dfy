/**
 * The JavaScript built-ins the render controller calls when it strips the
 * model's reply, with the semantics JavaScript gives them:
 * `String.prototype.split` with a one-character separator,
 * `Array.prototype.slice` with relative indices and `Array.prototype.join`.
 * `IndexOf` and `LastIndexOf` (`String.prototype.indexOf` and
 * `lastIndexOf`) are not called by the controller: they only serve to state
 * the stripping a second way, by position.
 *
 * JavaScript strings are sequences of UTF-16 code units; a Dafny `string` is
 * a sequence of Unicode scalar values. A lone surrogate therefore cannot be
 * represented here, and a character outside the Basic Multilingual Plane is
 * one `char` where JavaScript has two code units. `'\n'` and `' '` are single
 * code units that never occur inside a surrogate pair, so splitting and
 * joining on them give the same pieces either way, and no contract depends on
 * the difference.
 */
module JsStrings {

  /** Number of occurrences of `c` in `s`. */
  function Count(s: string, c: char): (n: nat)
    ensures n <= |s|
    ensures n == 0 <==> c !in s
  {
    if s == [] then 0
    else (if s[0] == c then 1 else 0) + Count(s[1..], c)
  }

  /**
   * `s.split(sep)`: the pieces of `s` between occurrences of `sep`, empty
   * pieces kept, so that `"".split(sep)` is `[""]` and a separator at either
   * end yields an empty first or last piece.
   */
  function Split(s: string, sep: char): (pieces: seq<string>)
    ensures |pieces| == Count(s, sep) + 1
    ensures forall i :: 0 <= i < |pieces| ==> sep !in pieces[i]
  {
    if s == [] then [""]
    else
      var rest := Split(s[1..], sep);
      if s[0] == sep then [""] + rest
      else [[s[0]] + rest[0]] + rest[1..]
  }

  /** Counting in a concatenation is counting in each half. */
  lemma {:induction false} CountAppend(a: string, b: string, c: char)
    ensures Count(a + b, c) == Count(a, c) + Count(b, c)
  {
    if a == [] {
      assert a + b == b;
    } else {
      assert (a + b)[1..] == a[1..] + b;
      CountAppend(a[1..], b, c);
    }
  }

  /** `parts.join(sep)`: the parts with one `sep` between neighbours; `[].join(sep)` is `""`. */
  function Join(parts: seq<string>, sep: char): (s: string)
    ensures |parts| > 0 ==> |s| >= |parts| - 1
  {
    if |parts| == 0 then ""
    else if |parts| == 1 then parts[0]
    else parts[0] + [sep] + Join(parts[1..], sep)
  }

  /** Separator-free parts are joined with exactly one separator fewer than there are parts. */
  lemma {:induction false} JoinCount(parts: seq<string>, sep: char)
    requires forall i :: 0 <= i < |parts| ==> sep !in parts[i]
    ensures Count(Join(parts, sep), sep) == if |parts| == 0 then 0 else |parts| - 1
  {
    if |parts| > 1 {
      JoinCount(parts[1..], sep);
      CountAppend(parts[0] + [sep], Join(parts[1..], sep), sep);
      CountAppend(parts[0], [sep], sep);
    }
  }

  /**
   * The index that `Array.prototype.slice` makes of a relative index on an
   * array of length `len`: a negative index counts back from the end, and
   * the result is clamped into `[0, len]`.
   */
  function RelativeIndex(i: int, len: nat): (k: nat)
    ensures k <= len
    ensures 0 <= i <= len ==> k == i
    ensures -(len as int) <= i < 0 ==> k == len + i
    ensures i < -(len as int) ==> k == 0
    ensures len < i ==> k == len
  {
    if i < 0 then (if len + i < 0 then 0 else len + i)
    else if i > len then len
    else i
  }

  /**
   * `xs.slice(start, end)`: the elements from the resolved start up to the
   * resolved end, and empty when the resolved end is not past the resolved
   * start.
   */
  function Slice<T>(xs: seq<T>, start: int, end: int): (window: seq<T>)
    ensures var lo, hi := RelativeIndex(start, |xs|), RelativeIndex(end, |xs|);
      && |window| == (if lo < hi then hi - lo else 0)
      && window <= xs[lo..]
  {
    var lo := RelativeIndex(start, |xs|);
    var hi := RelativeIndex(end, |xs|);
    if lo < hi then xs[lo..hi] else []
  }

  /** `xs.slice(1, -1)` drops the first and the last element, and leaves nothing of fewer than three. */
  lemma SliceDropsEnds<T>(xs: seq<T>)
    ensures |xs| <= 2 ==> Slice(xs, 1, -1) == []
    ensures |xs| >= 2 ==> Slice(xs, 1, -1) == xs[1..|xs| - 1]
  {
  }

  /** `s.indexOf(c)`: the first position of `c` in `s`, or -1 when there is none. */
  function IndexOf(s: string, c: char): (i: int)
    ensures -1 <= i < |s|
    ensures i == -1 <==> c !in s
    ensures 0 <= i ==> s[i] == c && c !in s[..i]
  {
    if s == [] then -1
    else if s[0] == c then 0
    else
      var j := IndexOf(s[1..], c);
      if j == -1 then -1
      else
        assert s[..j + 1] == [s[0]] + s[1..][..j];
        j + 1
  }

  /** `s.lastIndexOf(c)`: the last position of `c` in `s`, or -1 when there is none. */
  function LastIndexOf(s: string, c: char): (i: int)
    ensures -1 <= i < |s|
    ensures i == -1 <==> c !in s
    ensures 0 <= i ==> s[i] == c && c !in s[i + 1..]
  {
    if s == [] then -1
    else if s[|s| - 1] == c then |s| - 1
    else
      var i := LastIndexOf(s[..|s| - 1], c);
      assert s == s[..|s| - 1] + [s[|s| - 1]];
      assert i != -1 ==> s[i + 1..] == s[..|s| - 1][i + 1..] + [s[|s| - 1]];
      i
  }

  // ---------------------------------------------------------------------
  // Split and Join are inverse to each other

  /** Joining a part in front of at least one more adds that part and a separator in front. */
  lemma JoinCons(head: string, parts: seq<string>, sep: char)
    requires |parts| > 0
    ensures Join([head] + parts, sep) == head + [sep] + Join(parts, sep)
  {
    assert ([head] + parts)[1..] == parts;
  }

  /** Extending the first part by one character extends the joined string by that character. */
  lemma JoinExtendFirst(c: char, parts: seq<string>, sep: char)
    requires |parts| > 0
    ensures Join([[c] + parts[0]] + parts[1..], sep) == [c] + Join(parts, sep)
  {
    if |parts| > 1 {
      JoinCons([c] + parts[0], parts[1..], sep);
      JoinCons(parts[0], parts[1..], sep);
      assert [parts[0]] + parts[1..] == parts;
    }
  }

  /** Splitting and re-joining with the same separator gives the string back. */
  lemma {:induction false} JoinSplit(s: string, sep: char)
    ensures Join(Split(s, sep), sep) == s
  {
    if s != [] {
      var rest := Split(s[1..], sep);
      JoinSplit(s[1..], sep);
      assert s == [s[0]] + s[1..];
      if s[0] == sep {
        JoinCons("", rest, sep);
      } else {
        JoinExtendFirst(s[0], rest, sep);
      }
    }
  }

  /** A string without the separator splits into itself alone. */
  lemma {:induction false} SplitNoSeparator(a: string, sep: char)
    requires sep !in a
    ensures Split(a, sep) == [a]
  {
    if a != [] {
      SplitNoSeparator(a[1..], sep);
      assert [a[0]] + a[1..] == a;
    }
  }

  /** Splitting `a + [sep] + t`, with no separator in `a`, yields `a` and then the pieces of `t`. */
  lemma {:induction false} SplitAfterPiece(a: string, sep: char, t: string)
    requires sep !in a
    ensures Split(a + [sep] + t, sep) == [a] + Split(t, sep)
  {
    var s := a + [sep] + t;
    if a == [] {
      assert s[1..] == t;
    } else {
      assert s[1..] == a[1..] + [sep] + t;
      SplitAfterPiece(a[1..], sep, t);
      assert [a[0]] + a[1..] == a;
    }
  }

  /** Joining separator-free parts and splitting again gives the parts back. */
  lemma {:induction false} SplitJoin(parts: seq<string>, sep: char)
    requires |parts| > 0
    requires forall i :: 0 <= i < |parts| ==> sep !in parts[i]
    ensures Split(Join(parts, sep), sep) == parts
  {
    if |parts| == 1 {
      SplitNoSeparator(parts[0], sep);
    } else {
      SplitJoin(parts[1..], sep);
      SplitAfterPiece(parts[0], sep, Join(parts[1..], sep));
    }
  }

  /** Joining with one more part appends a separator and that part. */
  lemma {:induction false} JoinSnoc(parts: seq<string>, last: string, sep: char)
    requires |parts| > 0
    ensures Join(parts + [last], sep) == Join(parts, sep) + [sep] + last
  {
    if |parts| > 1 {
      assert (parts + [last])[1..] == parts[1..] + [last];
      JoinSnoc(parts[1..], last, sep);
    }
  }

  /** Without its first element, a sequence of two or more is its inner part followed by its last element. */
  lemma DropFirst<T>(xs: seq<T>)
    requires |xs| >= 2
    ensures xs[1..] == xs[1..|xs| - 1] + [xs[|xs| - 1]]
  {
  }

  /** Joining three or more parts: the first part, a separator, the joined inner parts, a separator, the last part. */
  lemma JoinOuter(parts: seq<string>, sep: char)
    requires |parts| >= 3
    ensures Join(parts, sep)
            == parts[0] + [sep] + Join(parts[1..|parts| - 1], sep) + [sep] + parts[|parts| - 1]
  {
    var n := |parts|;
    var inner := Join(parts[1..n - 1], sep);
    assert Join(parts[1..], sep) == inner + [sep] + parts[n - 1] by {
      DropFirst(parts);
      JoinSnoc(parts[1..n - 1], parts[n - 1], sep);
    }
    AppendThree(parts[0] + [sep], inner, [sep], parts[n - 1]);
  }

  /** Five pieces concatenated left to right equal the same pieces grouped from the right. */
  lemma ConcatAssoc4(a: string, b: string, c: string, d: string, e: string)
    ensures a + b + c + d + e == a + (b + (c + (d + e)))
  {
  }

  /** Appending three pieces at once is appending them one after another. */
  lemma AppendThree(x: string, a: string, b: string, c: string)
    ensures x + (a + b + c) == x + a + b + c
  {
  }

  /** A common prefix cancels. */
  lemma CancelPrefix(p: string, a: string, b: string)
    requires p + a == p + b
    ensures a == b
  {
    assert a == (p + a)[|p|..];
  }

  /** A common prefix and a common suffix cancel. */
  lemma CancelAround(p: string, a: string, b: string, q: string)
    requires p + a + q == p + b + q
    ensures a == b
  {
    assert |a| == |b|;
    assert a == (p + a + q)[|p|..|p| + |a|];
    assert b == (p + b + q)[|p|..|p| + |b|];
  }

  // ---------------------------------------------------------------------
  // Locating a separator placed between separator-free text

  /** The first `c` of `a + [c] + b` is the one after `a` when `a` has none. */
  lemma IndexOfAfter(a: string, c: char, b: string)
    requires c !in a
    ensures IndexOf(a + [c] + b, c) == |a|
  {
    var s := a + [c] + b;
    assert s[|a|] == c;
    assert s[..|a|] == a;
  }

  /** The last `c` of `a + [c] + b` is the one before `b` when `b` has none. */
  lemma LastIndexOfBefore(a: string, c: char, b: string)
    requires c !in b
    ensures LastIndexOf(a + [c] + b, c) == |a|
  {
    var s := a + [c] + b;
    assert s[|a|] == c;
    assert s[|a| + 1..] == b;
  }
}
