/**
 * The whitespace normaliser `re.sub(r'\s+', ' ', text.strip())`, which
 * `find_abstract` applies to its input and `clean_abstract_text` applies
 * as its first step.
 */
module Normalizer {
  import opened CharClasses
  import opened Strings

  /** Only plain spaces as whitespace, never two in a row, none at either end. */
  predicate IsNormalized(s: string) {
    && (forall i :: 0 <= i < |s| ==> s[i] == ' ' || NotSpace(s[i]))
    && (forall i :: 0 <= i < |s| - 1 ==> s[i] != ' ' || s[i + 1] != ' ')
    && (s != [] ==> s[0] != ' ' && s[|s| - 1] != ' ')
  }

  /** `re.sub(r'\s+', ' ', s)`: each maximal run of whitespace becomes one space. */
  function CollapseRuns(s: string): string
    decreases |s|
  {
    if s == [] then []
    else if IsSpace(s[0]) then
      [' '] + CollapseRuns(s[FirstWhere(NotSpace, s, 0, |s|)..])
    else
      [s[0]] + CollapseRuns(s[1..])
  }

  /** The result starts as s does, a leading whitespace run becoming a space. */
  lemma CollapseRunsFirst(s: string)
    requires s != []
    ensures CollapseRuns(s) != [] && CollapseRuns(s)[0] == (if IsSpace(s[0]) then ' ' else s[0])
  {
  }

  /** The result ends as s does, a trailing whitespace run becoming a space. */
  lemma {:induction false} CollapseRunsLast(s: string)
    requires s != []
    ensures var r := CollapseRuns(s);
      r != [] && r[|r| - 1] == (if IsSpace(s[|s| - 1]) then ' ' else s[|s| - 1])
    decreases |s|
  {
    var k := if IsSpace(s[0]) then FirstWhere(NotSpace, s, 0, |s|) else 1;
    var t := s[k..];
    var rest := CollapseRuns(t);
    assert CollapseRuns(s) == [CollapseRuns(s)[0]] + rest;
    if t != [] {
      CollapseRunsLast(t);
      assert t[|t| - 1] == s[|s| - 1];
    } else if IsSpace(s[0]) {
      assert IsSpace(s[|s| - 1]);
    }
  }

  lemma CollapseRunsEnds(s: string)
    ensures var r := CollapseRuns(s);
      s != [] ==> && r != []
                  && r[0] == (if IsSpace(s[0]) then ' ' else s[0])
                  && r[|r| - 1] == (if IsSpace(s[|s| - 1]) then ' ' else s[|s| - 1])
  {
    if s != [] {
      CollapseRunsFirst(s);
      CollapseRunsLast(s);
    }
  }

  /** The result holds plain spaces as its only whitespace, never two in a row. */
  lemma {:induction false} CollapseRunsSpacing(s: string)
    ensures var r := CollapseRuns(s);
      && (forall i :: 0 <= i < |r| ==> r[i] == ' ' || NotSpace(r[i]))
      && (forall i :: 0 <= i < |r| - 1 ==> r[i] != ' ' || r[i + 1] != ' ')
    decreases |s|
  {
    if s != [] {
      var t := if IsSpace(s[0]) then s[FirstWhere(NotSpace, s, 0, |s|)..] else s[1..];
      var head := if IsSpace(s[0]) then ' ' else s[0];
      var rest := CollapseRuns(t);
      CollapseRunsSpacing(t);
      if t != [] {
        CollapseRunsFirst(t);
      }
      var r := [head] + rest;
      assert r == CollapseRuns(s);
      assert forall i :: 1 <= i < |r| ==> r[i] == rest[i - 1];
    }
  }

  /** Collapsing rewrites whitespace only: the visible characters stay, in order. */
  lemma {:induction false} CollapseRunsKeepsText(s: string)
    ensures Filter(NotSpace, CollapseRuns(s)) == Filter(NotSpace, s)
    decreases |s|
  {
    if s == [] {
    } else if IsSpace(s[0]) {
      var k := FirstWhere(NotSpace, s, 0, |s|);
      var rest := CollapseRuns(s[k..]);
      CollapseRunsKeepsText(s[k..]);
      FilterDropLeading(NotSpace, s, k);
      assert ([' '] + rest)[1..] == rest;
    } else {
      var rest := CollapseRuns(s[1..]);
      CollapseRunsKeepsText(s[1..]);
      assert ([s[0]] + rest)[1..] == rest;
    }
  }

  /** `re.sub(r'\s+', ' ', s.strip())`. */
  function Normalize(s: string): (r: string)
    ensures IsNormalized(r)
    ensures '\n' !in r
  {
    var r := CollapseRuns(Strip(s));
    CollapseRunsSpacing(Strip(s));
    CollapseRunsEnds(Strip(s));
    assert forall i :: 0 <= i < |r| ==> r[i] != '\n';
    r
  }

  /** Normalising rewrites whitespace only: the visible characters stay, in order. */
  lemma NormalizeKeepsText(s: string)
    ensures Filter(NotSpace, Normalize(s)) == Filter(NotSpace, s)
  {
    StripKeepsText(s);
    CollapseRunsKeepsText(Strip(s));
  }

  /** Normalising leaves normalised text unchanged. */
  lemma NormalizeFixesNormalized(s: string)
    requires IsNormalized(s)
    ensures Normalize(s) == s
  {
    assert Strip(s) == s;
    CollapseFixes(s);
  }

  lemma {:induction false} CollapseFixes(s: string)
    requires forall i :: 0 <= i < |s| ==> s[i] == ' ' || NotSpace(s[i])
    requires forall i :: 0 <= i < |s| - 1 ==> s[i] != ' ' || s[i + 1] != ' '
    requires s != [] ==> s[|s| - 1] != ' '
    ensures CollapseRuns(s) == s
  {
    if s != [] {
      CollapseFixes(s[1..]);
      if IsSpace(s[0]) {
        assert s[0] == ' ' && |s| >= 2 && NotSpace(s[1]);
        assert FirstWhere(NotSpace, s, 0, |s|) == 1;
      }
      assert [s[0]] + s[1..] == s;
    }
  }

  /** Text without whitespace passes through collapsing unchanged. */
  lemma {:induction false} CollapseRunsVisiblePrefix(x: string, y: string)
    requires forall i :: 0 <= i < |x| ==> NotSpace(x[i])
    ensures CollapseRuns(x + y) == x + CollapseRuns(y)
  {
    if x == [] {
      assert x + y == y;
    } else {
      assert (x + y)[0] == x[0];
      assert (x + y)[1..] == x[1..] + y;
      CollapseRunsVisiblePrefix(x[1..], y);
      assert [x[0]] + x[1..] == x;
    }
  }

  /** A whole run of whitespace collapses to one space. */
  lemma CollapseRunsRun(run: string, y: string)
    requires run != []
    requires forall i :: 0 <= i < |run| ==> IsSpace(run[i])
    requires y == [] || NotSpace(y[0])
    ensures CollapseRuns(run + y) == [' '] + CollapseRuns(y)
  {
    var s := run + y;
    assert s[0] == run[0];
    assert forall i :: 0 <= i < |run| ==> s[i] == run[i];
    assert |run| < |s| ==> s[|run|] == y[0];
    assert FirstWhere(NotSpace, s, 0, |s|) == |run|;
    assert s[|run|..] == y;
  }

  /** Normalising is idempotent. */
  lemma NormalizeIdempotent(s: string)
    ensures Normalize(Normalize(s)) == Normalize(s)
  {
    NormalizeFixesNormalized(Normalize(s));
  }
}
