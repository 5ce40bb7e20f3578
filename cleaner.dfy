/**
 * `clean_abstract_text`: collapse whitespace, delete every character outside
 * `[\w\s.,;:!?()\-&]`, put a space between a period and a word character
 * that follows it, and strip the ends.
 */
module Cleaner {
  import opened CharClasses
  import opened Strings
  import opened Normalizer

  /** The punctuation the cleaner keeps. */
  predicate IsAllowedPunct(c: char) {
    c in ".,;:!?()-&"
  }

  /** The class `[\w\s.,;:!?()\-&]`; everything else is an extraction artifact. */
  predicate IsKept(c: char) {
    IsWordChar(c) || IsSpace(c) || IsAllowedPunct(c)
  }

  /** A kept character that is not whitespace. */
  predicate IsKeptVisible(c: char) {
    IsKept(c) && NotSpace(c)
  }

  /** `re.sub(r'\.(\w)', r'. \1', s)`: scanning left to right, every period
      directly followed by a word character gets a space inserted after it
      and the scan resumes after that word character. */
  function SpaceAfterPeriods(s: string): (r: string)
    decreases |s|
  {
    if s == [] then []
    else if |s| >= 2 && s[0] == '.' && IsWordChar(s[1]) then
      ['.', ' ', s[1]] + SpaceAfterPeriods(s[2..])
    else
      [s[0]] + SpaceAfterPeriods(s[1..])
  }

  /** The period spacing only adds spaces, keeps the first character and
      leaves no period directly followed by a word character. */
  lemma {:induction false} SpaceAfterPeriodsShape(s: string)
    ensures var r := SpaceAfterPeriods(s);
      && (forall i :: 0 <= i < |r| ==> r[i] in s || r[i] == ' ')
      && (s != [] ==> r != [] && r[0] == s[0])
      && (forall i :: 0 <= i < |r| - 1 ==> !(r[i] == '.' && IsWordChar(r[i + 1])))
    decreases |s|
  {
    if s == [] {
    } else if |s| >= 2 && s[0] == '.' && IsWordChar(s[1]) {
      SpaceAfterPeriodsShape(s[2..]);
      var rest := SpaceAfterPeriods(s[2..]);
      var r := ['.', ' ', s[1]] + rest;
      assert forall c :: c in s[2..] ==> c in s;
      forall i | 0 <= i < |r| - 1
        ensures !(r[i] == '.' && IsWordChar(r[i + 1]))
      {
        if i >= 3 {
          assert r[i] == rest[i - 3] && r[i + 1] == rest[i - 2];
        } else if i == 2 {
          assert r[i + 1] == rest[0] && rest[0] == s[2];
        }
      }
      forall i | 0 <= i < |r|
        ensures r[i] in s || r[i] == ' '
      {
        if i >= 3 {
          assert r[i] == rest[i - 3];
        }
      }
    } else {
      SpaceAfterPeriodsShape(s[1..]);
      var rest := SpaceAfterPeriods(s[1..]);
      var r := [s[0]] + rest;
      assert forall c :: c in s[1..] ==> c in s;
      forall i | 0 <= i < |r| - 1
        ensures !(r[i] == '.' && IsWordChar(r[i + 1]))
      {
        if i >= 1 {
          assert r[i] == rest[i - 1] && r[i + 1] == rest[i];
        } else if s[0] == '.' {
          assert r[1] == rest[0] && rest[0] == s[1];
        }
      }
      forall i | 0 <= i < |r|
        ensures r[i] in s || r[i] == ' '
      {
        if i >= 1 {
          assert r[i] == rest[i - 1];
        }
      }
    }
  }

  /** Inserting spaces after periods changes nothing but spacing. */
  lemma {:induction false} SpaceAfterPeriodsKeepsVisible(s: string)
    ensures Filter(NotSpace, SpaceAfterPeriods(s)) == Filter(NotSpace, s)
    decreases |s|
  {
    if s == [] {
    } else if |s| >= 2 && s[0] == '.' && IsWordChar(s[1]) {
      var rest := SpaceAfterPeriods(s[2..]);
      SpaceAfterPeriodsKeepsVisible(s[2..]);
      assert s == [s[0], s[1]] + s[2..];
      FilterConcat(NotSpace, ['.', ' ', s[1]], rest);
      FilterConcat(NotSpace, [s[0], s[1]], s[2..]);
      assert Filter(NotSpace, ['.', ' ', s[1]]) == Filter(NotSpace, [s[0], s[1]]) by {
        assert ['.', ' ', s[1]][1..] == [' ', s[1]];
        assert [' ', s[1]][1..] == [s[1]];
        assert [s[0], s[1]][1..] == [s[1]];
      }
    } else {
      var rest := SpaceAfterPeriods(s[1..]);
      SpaceAfterPeriodsKeepsVisible(s[1..]);
      assert ([s[0]] + rest)[1..] == rest;
    }
  }

  /** `clean_abstract_text`. */
  function Clean(text: string): (r: string)
  {
    var collapsed := Normalize(text);
    var kept := Filter(IsKept, collapsed);
    Strip(SpaceAfterPeriods(kept))
  }

  /** The cleaned text holds only word characters, plain spaces and allowed
      punctuation, has no space at either end, no period fused to a word,
      and keeps, in order, exactly the visible characters of the input that
      the cleaner does not delete. */
  lemma CleanShape(text: string)
    ensures var r := Clean(text);
      && (forall i :: 0 <= i < |r| ==> IsWordChar(r[i]) || r[i] == ' ' || IsAllowedPunct(r[i]))
      && (r == [] || (r[0] != ' ' && r[|r| - 1] != ' '))
      && (forall i :: 0 <= i < |r| - 1 ==> !(r[i] == '.' && IsWordChar(r[i + 1])))
      && Filter(NotSpace, r) == Filter(IsKeptVisible, text)
  {
    var collapsed := Normalize(text);
    var kept := Filter(IsKept, collapsed);
    var spaced := SpaceAfterPeriods(kept);
    KeptCharacters(collapsed);
    VisibleKeptCharacters(text, collapsed, kept);
    SpaceAfterPeriodsShape(kept);
    SpaceAfterPeriodsKeepsVisible(kept);
    StripKeepsText(spaced);
    StripKeepsShape(spaced);
  }

  /** Stripping keeps the character set and the period spacing of the text. */
  lemma StripKeepsShape(s: string)
    ensures forall i :: 0 <= i < |Strip(s)| ==> Strip(s)[i] in s
    ensures (forall i :: 0 <= i < |s| - 1 ==> !(s[i] == '.' && IsWordChar(s[i + 1]))) ==>
              forall i :: 0 <= i < |Strip(s)| - 1 ==> !(Strip(s)[i] == '.' && IsWordChar(Strip(s)[i + 1]))
  {
    var a := FirstWhere(NotSpace, s, 0, |s|);
    var b := LastWhere(NotSpace, s, a, |s|);
    assert Strip(s) == s[a..b];
  }

  /** After collapsing, every kept character is a word character, a plain
      space or allowed punctuation. */
  lemma KeptCharacters(collapsed: string)
    requires forall i :: 0 <= i < |collapsed| ==> collapsed[i] == ' ' || NotSpace(collapsed[i])
    ensures forall c :: c in Filter(IsKept, collapsed) ==> IsWordChar(c) || c == ' ' || IsAllowedPunct(c)
  {
    FilterKeeps(IsKept, collapsed);
  }

  /** Only whitespace is rearranged before the deletion step, so the visible
      characters that survive it are those of the original text. */
  lemma VisibleKeptCharacters(text: string, collapsed: string, kept: string)
    requires collapsed == Normalize(text)
    requires kept == Filter(IsKept, collapsed)
    ensures Filter(NotSpace, kept) == Filter(IsKeptVisible, text)
  {
    NormalizeKeepsText(text);
    FilterTwice(NotSpace, IsKept, IsKeptVisible, collapsed);
    FilterTwice(IsKeptVisible, NotSpace, IsKeptVisible, collapsed);
    FilterTwice(IsKeptVisible, NotSpace, IsKeptVisible, text);
  }

  /** A text with no kept visible character, the empty text among them,
      cleans to the empty text. */
  lemma CleanBlank(text: string)
    requires forall i :: 0 <= i < |text| ==> !IsKeptVisible(text[i])
    ensures Clean(text) == []
  {
    FilterNone(IsKeptVisible, text);
    CleanShape(text);
  }

  /** A stretch without periods passes through the period-spacing step unchanged. */
  lemma {:induction false} SpaceAfterPeriodsNoPeriod(x: string, y: string)
    requires '.' !in x
    ensures SpaceAfterPeriods(x + y) == x + SpaceAfterPeriods(y)
  {
    if x == [] {
      assert x + y == y;
    } else {
      assert (x + y)[0] == x[0];
      assert (x + y)[1..] == x[1..] + y;
      SpaceAfterPeriodsNoPeriod(x[1..], y);
      assert [x[0]] + x[1..] == x;
    }
  }

  /** One step of the period spacing, at a period followed by a word character. */
  lemma SpaceAfterPeriodsAtPeriod(x: string, w: char, y: string)
    requires '.' !in x
    requires IsWordChar(w)
    ensures SpaceAfterPeriods(x + ['.', w] + y) == SpaceAfterPeriods(x) + ['.', ' ', w] + SpaceAfterPeriods(y)
  {
    SpaceAfterPeriodsNoPeriod(x, ['.', w] + y);
    SpaceAfterPeriodsNoPeriod(x, []);
    assert x + ['.', w] + y == x + (['.', w] + y);
    assert x + [] == x;
    assert (['.', w] + y)[2..] == y;
  }

  /** At a period not followed by a word character (a space, another
      period, any other character, or the end of the text) the period rule
      inserts nothing and goes on with the next character. */
  lemma {:induction false} SpaceAfterPeriodsPlainPeriod(x: string, y: string)
    requires '.' !in x
    requires y == [] || !IsWordChar(y[0])
    ensures SpaceAfterPeriods(x + ['.'] + y) == x + ['.'] + SpaceAfterPeriods(y)
  {
    var py := ['.'] + y;
    PlainPeriodStep(y);
    SpaceAfterPeriodsNoPeriod(x, py);
    assert x + ['.'] + y == x + py;
    assert x + (['.'] + SpaceAfterPeriods(y)) == x + ['.'] + SpaceAfterPeriods(y);
  }

  lemma PlainPeriodStep(y: string)
    requires y == [] || !IsWordChar(y[0])
    ensures SpaceAfterPeriods(['.'] + y) == ['.'] + SpaceAfterPeriods(y)
  {
    assert (['.'] + y)[1..] == y;
  }

  /** `Clean` as its four stages, for reasoning about particular texts. */
  lemma CleanStages(text: string, collapsed: string, kept: string, spaced: string)
    requires collapsed == Normalize(text)
    requires kept == Filter(IsKept, collapsed)
    requires spaced == SpaceAfterPeriods(kept)
    ensures Clean(text) == Strip(spaced)
  {
  }

  /** Text without periods is left alone by the period spacing. */
  lemma SpaceAfterPeriodsIdentity(s: string)
    requires '.' !in s
    ensures SpaceAfterPeriods(s) == s
  {
    SpaceAfterPeriodsNoPeriod(s, "");
    assert s + "" == s;
  }

  /** A non-empty run of `\w` characters. */
  predicate IsWord(w: string) {
    w != [] && forall i :: 0 <= i < |w| ==> IsWordChar(w[i])
  }

  /** Characters the cleaner deletes. */
  predicate IsJunk(j: string) {
    forall i :: 0 <= i < |j| ==> !IsKept(j[i])
  }

  lemma WordFacts(w: string)
    requires IsWord(w)
    ensures '.' !in w
    ensures forall i :: 0 <= i < |w| ==> NotSpace(w[i]) && IsKept(w[i])
  {
  }

  /** A period fused to the next word gets a space; digits count as word
      characters, so `3.14` becomes `3. 14`. */
  lemma CleanSpacesPeriod(a: string, b: string)
    requires IsWord(a) && IsWord(b)
    ensures Clean(a + "." + b) == a + ". " + b
  {
    PeriodKept(a, b);
    PeriodSpaced(a, b);
    PeriodStripped(a, b);
    CleanStages(a + "." + b, a + "." + b, a + "." + b, a + ". " + b);
  }

  lemma PeriodKept(a: string, b: string)
    requires IsWord(a) && IsWord(b)
    ensures Normalize(a + "." + b) == a + "." + b
    ensures Filter(IsKept, a + "." + b) == a + "." + b
  {
    var t := a + "." + b;
    WordFacts(a);
    WordFacts(b);
    forall i | 0 <= i < |t|
      ensures NotSpace(t[i]) && IsKept(t[i])
    {
      if i < |a| {
        assert t[i] == a[i];
      } else if i > |a| {
        assert t[i] == b[i - |a| - 1];
      }
    }
    NormalizeFixesNormalized(t);
    FilterAll(IsKept, t);
  }

  lemma PeriodSpaced(a: string, b: string)
    requires IsWord(a) && IsWord(b)
    ensures SpaceAfterPeriods(a + "." + b) == a + ". " + b
  {
    WordFacts(a);
    WordFacts(b);
    PeriodPieces(a, b);
    assert '.' !in b[1..];
    SpaceAfterPeriodsAtPeriod(a, b[0], b[1..]);
    SpaceAfterPeriodsIdentity(a);
    SpaceAfterPeriodsIdentity(b[1..]);
  }

  lemma PeriodPieces(a: string, b: string)
    requires b != []
    ensures a + "." + b == a + ['.', b[0]] + b[1..]
    ensures a + ". " + b == a + ['.', ' ', b[0]] + b[1..]
  {
    assert b == [b[0]] + b[1..];
  }

  lemma PeriodStripped(a: string, b: string)
    requires IsWord(a) && IsWord(b)
    ensures Strip(a + ". " + b) == a + ". " + b
  {
    var spaced := a + ". " + b;
    assert spaced[0] == a[0] && spaced[|spaced| - 1] == b[|b| - 1];
  }

  /** Deleted characters leave no space behind: the words around them join. */
  lemma CleanJoinsAcrossDeletions(a: string, j: string, b: string)
    requires IsWord(a) && IsJunk(j) && IsWord(b)
    ensures Clean(a + j + b) == a + b
  {
    JoinNormal(a, j, b);
    JoinFilter(a, j, b);
    WordsAdjacent(a, b);
    CleanStages(a + j + b, a + j + b, a + b, a + b);
  }

  lemma JoinFilter(a: string, j: string, b: string)
    requires IsWord(a) && IsJunk(j) && IsWord(b)
    ensures Filter(IsKept, a + j + b) == a + b
  {
    FilterAroundRejected(IsKept, a, j, b);
    WordKept(a);
    WordKept(b);
  }

  lemma WordsAdjacent(a: string, b: string)
    requires IsWord(a) && IsWord(b)
    ensures SpaceAfterPeriods(a + b) == a + b
    ensures Strip(a + b) == a + b
  {
    var s := a + b;
    WordFacts(a);
    WordFacts(b);
    forall i | 0 <= i < |s|
      ensures s[i] != '.'
    {
      if i < |a| {
        assert s[i] == a[i];
      } else {
        assert s[i] == b[i - |a|];
      }
    }
    SpaceAfterPeriodsIdentity(s);
    assert s[0] == a[0] && s[|s| - 1] == b[|b| - 1];
  }

  lemma WordKept(w: string)
    requires IsWord(w)
    ensures Filter(IsKept, w) == w
  {
    WordFacts(w);
    FilterAll(IsKept, w);
  }

  lemma JoinNormal(a: string, j: string, b: string)
    requires IsWord(a) && IsJunk(j) && IsWord(b)
    ensures Normalize(a + j + b) == a + j + b
  {
    var t := a + j + b;
    WordFacts(a);
    WordFacts(b);
    forall i | 0 <= i < |t|
      ensures NotSpace(t[i])
    {
      if i < |a| {
        assert t[i] == a[i];
      } else if i < |a| + |j| {
        assert t[i] == j[i - |a|];
      } else {
        assert t[i] == b[i - |a| - |j|];
      }
    }
    NormalizeFixesNormalized(t);
  }

  /** Two words with only spaces between them are kept as they are by the
      deletion, the period spacing and the strip. */
  lemma WordsSpaced(a: string, b: string, gap: string)
    requires IsWord(a) && IsWord(b)
    requires forall i :: 0 <= i < |gap| ==> gap[i] == ' '
    ensures Filter(IsKept, a + gap + b) == a + gap + b
    ensures SpaceAfterPeriods(a + gap + b) == a + gap + b
    ensures Strip(a + gap + b) == a + gap + b
  {
    var s := a + gap + b;
    WordFacts(a);
    WordFacts(b);
    forall i | 0 <= i < |s|
      ensures IsKept(s[i]) && s[i] != '.'
    {
      if i < |a| {
        assert s[i] == a[i];
      } else if i < |a| + |gap| {
        assert s[i] == gap[i - |a|];
      } else {
        assert s[i] == b[i - |a| - |gap|];
      }
    }
    FilterAll(IsKept, s);
    SpaceAfterPeriodsIdentity(s);
    assert s[0] == a[0] && s[|s| - 1] == b[|b| - 1];
  }

  /** A deletion between two spaces leaves both spaces in place. */
  lemma CleanLeavesDoubleSpace(a: string, j: string, b: string)
    requires IsWord(a) && j != [] && IsJunk(j) && IsWord(b)
    ensures Clean(a + " " + j + " " + b) == a + "  " + b
  {
    GapNormal(a, j, b);
    GapFilter(a, j, b);
    WordsSpaced(a, b, "  ");
    CleanStages(a + " " + j + " " + b, a + " " + j + " " + b, a + "  " + b, a + "  " + b);
  }

  lemma GapFilter(a: string, j: string, b: string)
    requires IsWord(a) && IsJunk(j) && IsWord(b)
    ensures Filter(IsKept, a + " " + j + " " + b) == a + "  " + b
  {
    var left, right := a + " ", " " + b;
    assert a + " " + j + " " + b == left + j + right;
    FilterAroundRejected(IsKept, left, j, right);
    SpacedWordKept(a, left);
    SpacedWordKept(b, right);
    assert left + right == a + "  " + b;
  }

  /** A word with a space on one side is kept whole. */
  lemma SpacedWordKept(w: string, s: string)
    requires IsWord(w) && (s == w + " " || s == " " + w)
    ensures Filter(IsKept, s) == s
  {
    WordFacts(w);
    assert forall i :: 0 <= i < |s| ==> s[i] == ' ' || s[i] in w;
    FilterAll(IsKept, s);
  }

  lemma GapNormal(a: string, j: string, b: string)
    requires IsWord(a) && j != [] && IsJunk(j) && IsWord(b)
    ensures Normalize(a + " " + j + " " + b) == a + " " + j + " " + b
  {
    var t := a + " " + j + " " + b;
    WordFacts(a);
    WordFacts(b);
    forall i | 0 <= i < |t|
      ensures t[i] == ' ' || NotSpace(t[i])
      ensures i + 1 < |t| ==> t[i] != ' ' || t[i + 1] != ' '
    {
      if i < |a| {
        assert t[i] == a[i];
      } else if i == |a| {
        assert t[i + 1] == j[0];
      } else if i < |a| + 1 + |j| {
        assert t[i] == j[i - |a| - 1];
      } else if i > |a| + 1 + |j| {
        assert t[i] == b[i - |a| - 2 - |j|];
      } else {
        assert t[i + 1] == b[0];
      }
    }
    assert t[0] == a[0] && t[|t| - 1] == b[|b| - 1];
    NormalizeFixesNormalized(t);
  }

  /** A second pass collapses the double space. */
  lemma CleanCollapsesDoubleSpace(a: string, b: string)
    requires IsWord(a) && IsWord(b)
    ensures Clean(a + "  " + b) == a + " " + b
  {
    CollapseDoubleSpace(a, b);
    WordsSpaced(a, b, " ");
    CleanStages(a + "  " + b, a + " " + b, a + " " + b, a + " " + b);
  }

  lemma CollapseDoubleSpace(a: string, b: string)
    requires IsWord(a) && IsWord(b)
    ensures Normalize(a + "  " + b) == a + " " + b
  {
    var t := a + "  " + b;
    assert Strip(t) == t by {
      assert t[0] == a[0] && t[|t| - 1] == b[|b| - 1];
    }
    CollapseWordGap(a, b);
  }

  lemma CollapseWordGap(a: string, b: string)
    requires IsWord(a) && IsWord(b)
    ensures CollapseRuns(a + "  " + b) == a + " " + b
  {
    WordFacts(a);
    assert a + "  " + b == a + ("  " + b);
    CollapseRunsVisiblePrefix(a, "  " + b);
    CollapseGapWord(b);
  }

  lemma CollapseGapWord(b: string)
    requires IsWord(b)
    ensures CollapseRuns("  " + b) == " " + b
  {
    WordFacts(b);
    CollapseRunsRun("  ", b);
    CollapseFixes(b);
  }

  /** Cleaning is not idempotent. */
  lemma CleanNotIdempotent(a: string, j: string, b: string)
    requires IsWord(a) && j != [] && IsJunk(j) && IsWord(b)
    ensures Clean(Clean(a + " " + j + " " + b)) != Clean(a + " " + j + " " + b)
  {
    CleanLeavesDoubleSpace(a, j, b);
    CleanCollapsesDoubleSpace(a, b);
    assert |a + " " + b| != |a + "  " + b|;
  }
}
