/**
 * The Python string operations the extractor uses, over `seq<char>`:
 * `strip`, `split('\n')`, `join`, `find`, the `in` operator, a
 * case-insensitive literal test and a whole-word search `\bw\b`.
 */
module Strings {
  import opened CharClasses
  import opened Wrappers

  /** The first index k in [lo, hi) with P(s[k]), or `hi` when there is none. */
  function FirstWhere<T>(P: T -> bool, s: seq<T>, lo: nat, hi: nat): (k: nat)
    requires lo <= hi <= |s|
    decreases hi - lo
    ensures lo <= k <= hi
    ensures k < hi ==> P(s[k])
    ensures forall j :: lo <= j < k ==> !P(s[j])
  {
    if lo == hi then hi
    else if P(s[lo]) then lo
    else FirstWhere(P, s, lo + 1, hi)
  }

  /** The position just after the last k in [lo, hi) with P(s[k]), or `lo`
      when there is none. */
  function LastWhere<T>(P: T -> bool, s: seq<T>, lo: nat, hi: nat): (k: nat)
    requires lo <= hi <= |s|
    decreases hi - lo
    ensures lo <= k <= hi
    ensures k > lo ==> P(s[k - 1])
    ensures forall j :: k <= j < hi ==> !P(s[j])
  {
    if lo == hi then lo
    else if P(s[hi - 1]) then hi
    else LastWhere(P, s, lo, hi - 1)
  }

  /** The elements of s that satisfy P, in their order. */
  function Filter<T>(P: T -> bool, s: seq<T>): (r: seq<T>)
  {
    if s == [] then [] else (if P(s[0]) then [s[0]] else []) + Filter(P, s[1..])
  }

  lemma {:induction false} FilterKeeps<T>(P: T -> bool, s: seq<T>)
    ensures forall x :: x in Filter(P, s) ==> x in s && P(x)
  {
    if s != [] {
      FilterKeeps(P, s[1..]);
    }
  }

  lemma {:induction false} FilterConcat<T>(P: T -> bool, a: seq<T>, b: seq<T>)
    ensures Filter(P, a + b) == Filter(P, a) + Filter(P, b)
  {
    if a == [] {
      assert a + b == b;
    } else {
      var ab := a + b;
      assert ab[0] == a[0];
      assert ab[1..] == a[1..] + b;
      var head := if P(a[0]) then [a[0]] else [];
      assert Filter(P, ab) == head + Filter(P, a[1..] + b);
      FilterConcat(P, a[1..], b);
      assert Filter(P, a) == head + Filter(P, a[1..]);
    }
  }

  lemma {:induction false} FilterNone<T>(P: T -> bool, s: seq<T>)
    requires forall j :: 0 <= j < |s| ==> !P(s[j])
    ensures Filter(P, s) == []
  {
    if s != [] {
      FilterNone(P, s[1..]);
    }
  }

  lemma {:induction false} FilterAll<T>(P: T -> bool, s: seq<T>)
    requires forall j :: 0 <= j < |s| ==> P(s[j])
    ensures Filter(P, s) == s
  {
    if s != [] {
      FilterAll(P, s[1..]);
      assert [s[0]] + s[1..] == s;
    }
  }

  /** Dropping a stretch P rejects joins what stands on either side of it. */
  lemma FilterAroundRejected<T>(P: T -> bool, x: seq<T>, j: seq<T>, y: seq<T>)
    requires forall i :: 0 <= i < |j| ==> !P(j[i])
    ensures Filter(P, x + j + y) == Filter(P, x) + Filter(P, y)
  {
    FilterConcat(P, x + j, y);
    FilterConcat(P, x, j);
    FilterNone(P, j);
    assert Filter(P, x) + [] == Filter(P, x);
  }

  /** Filtering by Q and then by P is filtering by R when R is exactly "P and Q". */
  lemma {:induction false} FilterTwice<T>(P: T -> bool, Q: T -> bool, R: T -> bool, s: seq<T>)
    requires forall x :: R(x) <==> P(x) && Q(x)
    ensures Filter(P, Filter(Q, s)) == Filter(R, s)
  {
    if s != [] {
      FilterTwice(P, Q, R, s[1..]);
      var head := if Q(s[0]) then [s[0]] else [];
      FilterConcat(P, head, Filter(Q, s[1..]));
      if Q(s[0]) {
        assert Filter(P, head) == (if P(s[0]) then [s[0]] else []) + Filter(P, []);
      }
    }
  }

  /** `str.strip()`: s without its leading and trailing whitespace. */
  function Strip(s: string): (r: string)
    ensures |r| <= |s|
    ensures r == [] || (NotSpace(r[0]) && NotSpace(r[|r| - 1]))
    ensures r == [] <==> forall i :: 0 <= i < |s| ==> IsSpace(s[i])
    ensures (s == [] || (NotSpace(s[0]) && NotSpace(s[|s| - 1]))) ==> r == s
  {
    var a := FirstWhere(NotSpace, s, 0, |s|);
    var b := LastWhere(NotSpace, s, a, |s|);
    s[a..b]
  }

  /** Stripping removes whitespace only: the visible characters stay, in order. */
  lemma StripKeepsText(s: string)
    ensures Filter(NotSpace, Strip(s)) == Filter(NotSpace, s)
  {
    var a := FirstWhere(NotSpace, s, 0, |s|);
    var b := LastWhere(NotSpace, s, a, |s|);
    FilterMiddle(NotSpace, s, a, b);
  }

  /** Stripping a slice of t leaves a slice of t. */
  lemma StripOfSlice(t: string, lo: nat, hi: nat) returns (a: nat, b: nat)
    requires lo <= hi <= |t|
    ensures lo <= a <= b <= hi && Strip(t[lo..hi]) == t[a..b]
  {
    var s := t[lo..hi];
    var i := FirstWhere(NotSpace, s, 0, |s|);
    var j := LastWhere(NotSpace, s, i, |s|);
    a, b := lo + i, lo + j;
    assert Strip(s) == s[i..j];
  }

  /** Stripping never cuts into the text between two visible characters. */
  lemma StripKeepsInner(s: string, i: nat, j: nat)
    requires i < j <= |s| && NotSpace(s[i]) && NotSpace(s[j - 1])
    ensures Contains(Strip(s), s[i..j])
  {
    var a := FirstWhere(NotSpace, s, 0, |s|);
    var b := LastWhere(NotSpace, s, a, |s|);
    assert a <= i && j <= b;
    var r := Strip(s);
    assert r == s[a..b];
    SliceOfSlice(s, a, b, i - a, j - a);
    assert OccursAt(r, s[i..j], i - a);
  }

  /** A slice of a slice is a slice of the whole. */
  lemma SliceOfSlice<T>(s: seq<T>, a: nat, b: nat, x: nat, y: nat)
    requires a <= b <= |s| && x <= y <= b - a
    ensures s[a..b][x..y] == s[a + x..a + y]
  {
    forall k | 0 <= k < y - x
      ensures s[a..b][x..y][k] == s[a + x..a + y][k]
    {
      assert s[a..b][x..y][k] == s[a..b][x + k];
    }
  }

  /** Cutting off a prefix and a suffix that P rejects does not change the
      filtered sequence. */
  lemma FilterMiddle<T>(P: T -> bool, s: seq<T>, a: nat, b: nat)
    requires a <= b <= |s|
    requires forall j :: 0 <= j < a ==> !P(s[j])
    requires forall j :: b <= j < |s| ==> !P(s[j])
    ensures Filter(P, s[a..b]) == Filter(P, s)
  {
    var rest := s[a..];
    assert Filter(P, s) == Filter(P, rest) by {
      FilterDropLeading(P, s, a);
    }
    assert Filter(P, rest) == Filter(P, rest[..b - a]) by {
      assert forall j :: b - a <= j < |rest| ==> !P(rest[j]);
      FilterDropTrailing(P, rest, b - a);
    }
    assert rest[..b - a] == s[a..b];
  }

  lemma FilterSplitAt<T>(P: T -> bool, s: seq<T>, k: nat)
    requires k <= |s|
    ensures Filter(P, s) == Filter(P, s[..k]) + Filter(P, s[k..])
  {
    assert s == s[..k] + s[k..];
    FilterConcat(P, s[..k], s[k..]);
  }

  /** Dropping a prefix that P rejects does not change the filtered sequence. */
  lemma {:induction false} FilterDropLeading<T>(P: T -> bool, s: seq<T>, a: nat)
    requires a <= |s|
    requires forall j :: 0 <= j < a ==> !P(s[j])
    ensures Filter(P, s) == Filter(P, s[a..])
  {
    if a > 0 {
      assert s[1..][a - 1..] == s[a..];
      FilterDropLeading(P, s[1..], a - 1);
    }
  }

  /** Dropping a suffix that P rejects does not change the filtered sequence. */
  lemma FilterDropTrailing<T>(P: T -> bool, s: seq<T>, b: nat)
    requires b <= |s|
    requires forall j :: b <= j < |s| ==> !P(s[j])
    ensures Filter(P, s) == Filter(P, s[..b])
  {
    FilterSplitAt(P, s, b);
    FilterNone(P, s[b..]);
  }

  /** `sep.join(parts)`. */
  function Join(sep: char, parts: seq<string>): string
  {
    if |parts| == 0 then []
    else if |parts| == 1 then parts[0]
    else parts[0] + [sep] + Join(sep, parts[1..])
  }

  /** `s.split('\n')`: the pieces between line feeds. */
  function SplitLines(s: string): (lines: seq<string>)
    ensures |lines| >= 1
    decreases |s|
  {
    if s == [] then [[]]
    else
      var rest := SplitLines(s[1..]);
      if s[0] == '\n' then [[]] + rest
      else [[s[0]] + rest[0]] + rest[1..]
  }

  /** The pieces hold no line feed, and joining them back with line feeds
      gives s again. */
  lemma {:induction false} SplitLinesShape(s: string)
    ensures forall i :: 0 <= i < |SplitLines(s)| ==> '\n' !in SplitLines(s)[i]
    ensures Join('\n', SplitLines(s)) == s
    decreases |s|
  {
    if s != [] {
      var rest := SplitLines(s[1..]);
      SplitLinesShape(s[1..]);
      assert s == [s[0]] + s[1..];
      if s[0] != '\n' {
        var lines := SplitLines(s);
        assert lines[0] == [s[0]] + rest[0];
        assert lines[1..] == rest[1..];
        if |rest| > 1 {
          assert Join('\n', rest) == rest[0] + ['\n'] + Join('\n', rest[1..]);
        }
      } else {
        assert SplitLines(s)[1..] == rest;
      }
    }
  }

  /** A text without line feeds is one line. */
  lemma {:induction false} SplitLinesSingle(s: string)
    requires '\n' !in s
    ensures SplitLines(s) == [s]
  {
    if s != [] {
      SplitLinesSingle(s[1..]);
      assert [s[0]] + s[1..] == s;
    }
  }

  /** Splitting the line-feed join of line-feed-free pieces gives the pieces back. */
  lemma {:induction false} SplitJoinLines(lines: seq<string>)
    requires |lines| >= 1
    requires forall i :: 0 <= i < |lines| ==> '\n' !in lines[i]
    ensures SplitLines(Join('\n', lines)) == lines
  {
    if |lines| == 1 {
      SplitLinesSingle(lines[0]);
    } else {
      SplitJoinLines(lines[1..]);
      SplitPrefix(lines[0], Join('\n', lines[1..]), lines[1..]);
    }
  }

  lemma {:induction false} SplitPrefix(line: string, tail: string, tailLines: seq<string>)
    requires '\n' !in line
    requires SplitLines(tail) == tailLines
    ensures SplitLines(line + ['\n'] + tail) == [line] + tailLines
  {
    var s := line + ['\n'] + tail;
    if line == [] {
      assert s == ['\n'] + tail;
      assert s[1..] == tail;
    } else {
      SplitPrefix(line[1..], tail, tailLines);
      assert s[0] == line[0];
      assert s[1..] == line[1..] + ['\n'] + tail;
      var rest := SplitLines(s[1..]);
      assert rest[0] == line[1..] && rest[1..] == tailLines;
      assert [line[0]] + line[1..] == line;
    }
  }

  /** Whether needle n occurs in h starting at k. */
  predicate OccursAt(h: string, n: string, k: nat) {
    k + |n| <= |h| && h[k..k + |n|] == n
  }

  /** `h.find(n, from)`: the first position at or after `from` where n occurs;
      `None` stands for Python's -1. */
  function FindFrom(h: string, n: string, from: nat): (r: Option<nat>)
    ensures r.Some? ==> from <= r.value && OccursAt(h, n, r.value)
    ensures r.Some? ==> forall k :: from <= k < r.value ==> !OccursAt(h, n, k)
    ensures r.None? <==> forall k :: from <= k ==> !OccursAt(h, n, k)
    decreases |h| - from
  {
    if from + |n| > |h| then None
    else if h[from..from + |n|] == n then
      assert OccursAt(h, n, from);
      Some(from)
    else FindFrom(h, n, from + 1)
  }

  function Find(h: string, n: string): (r: Option<nat>)
  {
    FindFrom(h, n, 0)
  }

  /** Python's `n in h`. */
  predicate Contains(h: string, n: string) {
    Find(h, n).Some?
  }

  /** Whether the text from position k, lowered, starts with the lower-case
      literal w: a literal matched under `re.IGNORECASE`. */
  predicate LiteralAt(t: string, k: nat, w: string) {
    k + |w| <= |t| && LowerStr(t[k..k + |w|]) == w
  }

  /** The word w occurs at k with a word boundary `\b` on each side. */
  predicate WholeWordAt(t: string, w: string, k: nat) {
    && OccursAt(t, w, k)
    && (k == 0 || !IsWordChar(t[k - 1]))
    && (k + |w| == |t| || !IsWordChar(t[k + |w|]))
  }

  /** Whether `\b` w `\b` matches t at or after position `from` (for
      `from == 0`, `re.search(r'\b' + w + r'\b', t)`), for a word w that
      begins and ends with a word character. */
  function HasWholeWordFrom(t: string, w: string, from: nat): (found: bool)
    requires w != [] && IsWordChar(w[0]) && IsWordChar(w[|w| - 1])
    ensures found <==> exists k :: from <= k && WholeWordAt(t, w, k)
    decreases |t| - from
  {
    from + |w| <= |t| && (WholeWordAt(t, w, from) || HasWholeWordFrom(t, w, from + 1))
  }
}
