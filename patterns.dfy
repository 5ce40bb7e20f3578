/**
 * The three label patterns `find_abstract` tries, each of the form
 *
 *   label[:\s]*(.+?)(?=\n\s*\n|\nkeywords?|\nintroduction|\n1\.|\nbackground)
 *
 * searched with `re.search` under `re.IGNORECASE | re.DOTALL`. The regular
 * expressions are written out as functions: the label is a literal, the
 * greedy `[:\s]*` gives characters back one at a time when the rest fails,
 * the lazy group ends at the first position where the lookahead holds.
 */
module SectionPatterns {
  import opened Wrappers
  import opened CharClasses
  import opened Strings

  /** One label pattern; everything after the label is common to all three. */
  datatype SectionPattern = SectionPattern(heading: string)

  /** The patterns in the order they are tried. */
  const AbstractPatterns: seq<SectionPattern> :=
    [SectionPattern("abstract"), SectionPattern("summary"), SectionPattern("overview")]

  /** A match of a pattern: the label starts at `at` and group 1 is `t[start..end]`. */
  datatype Match = Match(at: nat, start: nat, end: nat)

  /** `\s*\n` matches at k. */
  predicate SpacesThenNewline(t: string, k: nat)
    decreases |t| - k
  {
    k < |t| && (t[k] == '\n' || (IsSpace(t[k]) && SpacesThenNewline(t, k + 1)))
  }

  /** The lookahead `(?=\n\s*\n|\nkeywords?|\nintroduction|\n1\.|\nbackground)`
      holds at e. Every alternative starts with a line feed. */
  predicate BoundaryAt(t: string, e: nat) {
    && e < |t|
    && t[e] == '\n'
    && (|| SpacesThenNewline(t, e + 1)
        || LiteralAt(t, e + 1, "keyword")
        || LiteralAt(t, e + 1, "introduction")
        || LiteralAt(t, e + 1, "1.")
        || LiteralAt(t, e + 1, "background"))
  }

  /** The first position at or after `from` where the lookahead holds. */
  function NextBoundary(t: string, from: nat): (e: Option<nat>)
    ensures e.Some? ==> from <= e.value && BoundaryAt(t, e.value)
    ensures forall k :: from <= k && (e.None? || k < e.value) ==> !BoundaryAt(t, k)
    decreases |t| - from
  {
    if from >= |t| then None
    else if BoundaryAt(t, from) then Some(from)
    else NextBoundary(t, from + 1)
  }

  /** Group 1 can start at g: the lazy `(.+?)` takes at least one character
      and then needs the lookahead somewhere after it. */
  predicate Viable(t: string, g: nat) {
    NextBoundary(t, g + 1).Some?
  }

  /** A later group start is viable only if an earlier one is. */
  lemma ViableEarlier(t: string, g: nat, h: nat)
    requires g <= h && Viable(t, h)
    ensures Viable(t, g)
  {
    var e := NextBoundary(t, h + 1).value;
    assert BoundaryAt(t, e);
  }

  /** After the label, `[:\s]*` first takes the whole run `t[lo..g]`, then
      gives it back one character at a time: the group starts at the largest
      viable position in `lo..g`. */
  function LastViable(t: string, lo: nat, g: nat): (r: Option<nat>)
    requires lo <= g
    ensures r.Some? ==> lo <= r.value <= g && Viable(t, r.value)
    ensures forall h :: lo <= h <= g && (r.None? || r.value < h) ==> !Viable(t, h)
    decreases g - lo
  {
    if Viable(t, g) then Some(g)
    else if g == lo then None
    else LastViable(t, lo, g - 1)
  }

  /** The pattern with the given label tried at position p. */
  function MatchAt(t: string, heading: string, p: nat): (m: Option<Match>)
    ensures m.Some? ==> && m.value.at == p
                        && LiteralAt(t, p, heading)
                        && p + |heading| <= m.value.start < m.value.end < |t|
                        && (forall i :: p + |heading| <= i < m.value.start ==> IsColonOrSpace(t[i]))
                        && BoundaryAt(t, m.value.end)
                        && (forall e :: m.value.start < e < m.value.end ==> !BoundaryAt(t, e))
    ensures m.None? <==> !LiteralAt(t, p, heading) || !Viable(t, p + |heading|)
    ensures m.Some? ==> forall h :: m.value.start < h <= FirstWhere(NotColonOrSpace, t, p + |heading|, |t|) ==> !Viable(t, h)
  {
    if !LiteralAt(t, p, heading) then None
    else
      var lo := p + |heading|;
      var run := FirstWhere(NotColonOrSpace, t, lo, |t|);
      match LastViable(t, lo, run)
      case None => None
      case Some(g) =>
        ViableEarlier(t, lo, g);
        Some(Match(p, g, NextBoundary(t, g + 1).value))
  }

  /** `re.search`: the leftmost position from `from` on where the pattern matches. */
  function SearchFrom(t: string, heading: string, from: nat): (m: Option<Match>)
    ensures m.Some? ==> from <= m.value.at && m.value.start <= m.value.end <= |t|
    decreases |t| + 1 - from
  {
    if from > |t| then None
    else match MatchAt(t, heading, from)
      case Some(found) => Some(found)
      case None => SearchFrom(t, heading, from + 1)
  }

  /** What the search returns is a match at the position it reports. */
  lemma {:induction false} SearchFromFinds(t: string, heading: string, from: nat)
    requires SearchFrom(t, heading, from).Some?
    ensures MatchAt(t, heading, SearchFrom(t, heading, from).value.at) == SearchFrom(t, heading, from)
    decreases |t| + 1 - from
  {
    if MatchAt(t, heading, from).None? {
      SearchFromFinds(t, heading, from + 1);
    }
  }

  /** The pattern matches nowhere before the reported position, and nowhere
      at all when the search comes back empty. */
  lemma {:induction false} SearchFromLeftmost(t: string, heading: string, from: nat, p: nat)
    requires from <= p
    requires SearchFrom(t, heading, from).None? || p < SearchFrom(t, heading, from).value.at
    ensures MatchAt(t, heading, p).None?
    decreases |t| + 1 - from
  {
    if p > |t| {
      assert !LiteralAt(t, p, heading);
    } else if from < p {
      SearchFromLeftmost(t, heading, from + 1, p);
    }
  }

  /** A pattern can only match a text that has a line feed in it. */
  lemma MatchNeedsLineFeed(t: string, heading: string, p: nat)
    requires MatchAt(t, heading, p).Some?
    ensures '\n' in t
  {
    var e := MatchAt(t, heading, p).value.end;
    assert t[e] == '\n';
  }

  /** On a text without line feeds the search never matches. */
  lemma {:induction false} SearchNeedsLineFeed(t: string, heading: string, from: nat)
    requires '\n' !in t
    ensures SearchFrom(t, heading, from).None?
    decreases |t| + 1 - from
  {
    if from <= |t| {
      if MatchAt(t, heading, from).Some? {
        MatchNeedsLineFeed(t, heading, from);
      }
      SearchNeedsLineFeed(t, heading, from + 1);
    }
  }

  /** The first boundary from `from` on is the first line feed where the
      lookahead holds, when no line feed comes before it. */
  lemma NextBoundaryAt(t: string, from: nat, e: nat)
    requires from <= e && BoundaryAt(t, e)
    requires forall k :: from <= k < e ==> t[k] != '\n'
    ensures NextBoundary(t, from) == Some(e)
  {
  }

  /** With a line feed present the patterns do match: after the label, a
      body on one line that does not start with a colon or a space, then a
      blank line, the match is at the label and group 1 is the body. */
  lemma MatchesBeforeBlankLine(t: string, heading: string, e: nat)
    requires LiteralAt(t, 0, heading)
    requires |heading| < e && e + 1 < |t|
    requires NotColonOrSpace(t[|heading|])
    requires forall k :: |heading| <= k < e ==> t[k] != '\n'
    requires t[e] == '\n' && t[e + 1] == '\n'
    ensures MatchAt(t, heading, 0) == Some(Match(0, |heading|, e))
  {
    var lo := |heading|;
    assert FirstWhere(NotColonOrSpace, t, lo, |t|) == lo;
    assert SpacesThenNewline(t, e + 1);
    NextBoundaryAt(t, lo + 1, e);
  }
}
