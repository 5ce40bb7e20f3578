/**
 * `PDFAbstractExtractor`'s text side: `find_abstract` flattens the text,
 * tries the label patterns in order on a lowered copy, maps a match back
 * to the original case and cleans it; when no pattern yields a result it
 * falls back to the keyword scan.
 */
module Extractor {
  import opened Wrappers
  import opened CharClasses
  import opened Strings
  import opened Normalizer
  import opened Cleaner
  import opened SectionPatterns
  import opened KeywordScan

  /** `text_lower.find(captured.lower())` and the slice of the original text
      at that offset, as long as the capture; `None` stands for `-1`. */
  function RecoverCase(text: string, lower: string, captured: string): (r: Option<string>)
    requires lower == LowerStr(text)
    ensures r.Some? <==> Contains(lower, LowerStr(captured))
  {
    match Find(lower, LowerStr(captured))
    case None => None
    case Some(k) => Some(text[k..k + |captured|])
  }

  /** What is recovered is the capture in its original case: it has the
      capture's length and lowers to the same text. */
  lemma RecoverCaseLowers(text: string, lower: string, captured: string)
    requires lower == LowerStr(text)
    ensures var r := RecoverCase(text, lower, captured);
      r.Some? ==> |r.value| == |captured| && LowerStr(r.value) == LowerStr(captured)
  {
    match Find(lower, LowerStr(captured))
    case None =>
    case Some(k) =>
      LowerStrSlice(text, k, k + |captured|);
  }

  /** Where the lowered capture is found, the original text is sliced. */
  lemma RecoverCaseAt(text: string, lower: string, captured: string, k: nat)
    requires lower == LowerStr(text)
    requires Find(lower, LowerStr(captured)) == Some(k)
    ensures k + |captured| <= |text|
    ensures RecoverCase(text, lower, captured) == Some(text[k..k + |captured|])
  {
    var needle := LowerStr(captured);
    assert |needle| == |captured|;
    assert OccursAt(lower, needle, k);
  }

  /** Any piece of the lowered text is found again, so the `-1` branch is
      never taken for a capture. The slice returned may lie earlier than
      the capture when the same words occur twice. */
  lemma RecoverCaseOfPiece(text: string, lower: string, a: nat, b: nat)
    requires lower == LowerStr(text)
    requires a <= b <= |lower|
    ensures RecoverCase(text, lower, lower[a..b]).Some?
  {
    LowerStrSlice(text, a, b);
    LowerStrIdempotent(text[a..b]);
    assert LowerStr(lower[a..b]) == lower[a..b];
    assert OccursAt(lower, lower[a..b], a);
  }

  /** One iteration of the pattern loop: search, strip group 1, recover the
      original case and clean it. `None` means the loop goes on. */
  function TryPattern(pattern: SectionPattern, text: string, lower: string): (r: Option<string>)
    requires lower == LowerStr(text)
  {
    match SearchFrom(lower, pattern.heading, 0)
    case None => None
    case Some(m) =>
      match RecoverCase(text, lower, Strip(lower[m.start..m.end]))
      case None => None
      case Some(original) => Some(Clean(original))
  }

  /** A pattern that matches always produces a result. */
  lemma MatchGivesResult(pattern: SectionPattern, text: string, lower: string)
    requires lower == LowerStr(text)
    ensures TryPattern(pattern, text, lower).Some? <==> SearchFrom(lower, pattern.heading, 0).Some?
  {
    match SearchFrom(lower, pattern.heading, 0)
    case None =>
    case Some(m) =>
      var a, b := StripOfSlice(lower, m.start, m.end);
      RecoverCaseOfPiece(text, lower, a, b);
  }

  /** The patterns in order; the first one that gives a result wins. */
  function TryPatterns(ps: seq<SectionPattern>, text: string, lower: string): (r: Option<string>)
    requires lower == LowerStr(text)
  {
    if ps == [] then None
    else match TryPattern(ps[0], text, lower)
      case Some(found) => Some(found)
      case None => TryPatterns(ps[1..], text, lower)
  }

  /** `find_abstract` with the given pattern list. */
  function FindAbstractResult(ps: seq<SectionPattern>, text: string): (r: Option<string>)
  {
    var normalized := Normalize(text);
    match TryPatterns(ps, normalized, LowerStr(normalized))
    case Some(found) => Some(found)
    case None => KeywordAbstract(normalized)
  }

  /** Lowering keeps a text free of line feeds. */
  lemma LowerStrNoLineFeed(s: string)
    requires '\n' !in s
    ensures '\n' !in LowerStr(s)
  {
    forall i | 0 <= i < |s|
      ensures LowerStr(s)[i] != '\n'
    {
      assert s[i] != '\n';
    }
  }

  /** On flattened text no pattern gives a result: each needs a line feed. */
  lemma {:induction false} PatternsNeverFire(ps: seq<SectionPattern>, text: string, lower: string)
    requires lower == LowerStr(text)
    requires '\n' !in lower
    ensures TryPatterns(ps, text, lower).None?
  {
    if ps != [] {
      SearchNeedsLineFeed(lower, ps[0].heading, 0);
      PatternsNeverFire(ps[1..], text, lower);
    }
  }

  /** `find_abstract` always ends in the keyword scan of the flattened text. */
  lemma FindAbstractFallsBack(ps: seq<SectionPattern>, text: string)
    ensures FindAbstractResult(ps, text) == KeywordAbstract(Normalize(text))
  {
    var normalized := Normalize(text);
    LowerStrNoLineFeed(normalized);
    PatternsNeverFire(ps, normalized, LowerStr(normalized));
  }

  /** End to end: `find_abstract` gives the cleaned flattened text with its
      leading label removed when that text holds the whole word "abstract"
      and something is left after the label, and `None` otherwise. */
  lemma FindAbstractEndToEnd(ps: seq<SectionPattern>, text: string)
    ensures FindAbstractResult(ps, text) ==
      var normalized := Normalize(text);
      if !HasAbstractWord(normalized) then None
      else
        var body := StripLabel(normalized);
        if body == [] then None else Some(Clean(body))
  {
    var normalized := Normalize(text);
    FindAbstractFallsBack(ps, text);
    SingleLineAbstract(normalized);
    assert Strip(normalized) == normalized;
  }

  /** The extractor. Its only state is the pattern list. */
  class PdfAbstractExtractor {
    const patterns: seq<SectionPattern>

    constructor()
      ensures patterns == AbstractPatterns
    {
      patterns := AbstractPatterns;
    }

    /** `find_abstract`. */
    method FindAbstract(text: string) returns (r: Option<string>)
      ensures r == FindAbstractResult(patterns, text)
    {
      var normalized := Normalize(text);
      var lower := LowerStr(normalized);
      var i := 0;
      while i < |patterns|
        invariant i <= |patterns|
        invariant TryPatterns(patterns[i..], normalized, lower) == TryPatterns(patterns, normalized, lower)
      {
        assert patterns[i..][1..] == patterns[i + 1..];
        var found := ApplyPattern(patterns[i], normalized, lower);
        if found.Some? {
          return found;
        }
        i := i + 1;
      }
      r := FindAbstractByKeywords(normalized);
    }

    /** The body of the pattern loop in `find_abstract`, step by step as
        the source runs it; `TryPattern` is the same attempt as a function,
        which the loop's invariant and the lemmas above are stated with. */
    static method ApplyPattern(pattern: SectionPattern, text: string, lower: string) returns (r: Option<string>)
      requires lower == LowerStr(text)
      ensures r == TryPattern(pattern, text, lower)
    {
      var m := SearchFrom(lower, pattern.heading, 0);
      if m.None? {
        return None;
      }
      var captured := Strip(lower[m.value.start..m.value.end]);
      var startPos := Find(lower, LowerStr(captured));
      if startPos.None? {
        assert RecoverCase(text, lower, captured).None?;
        return None;
      }
      var k := startPos.value;
      RecoverCaseAt(text, lower, captured, k);
      var original := text[k..k + |captured|];
      r := Some(Clean(original));
    }

    /** `find_abstract_by_keywords`. */
    method FindAbstractByKeywords(text: string) returns (r: Option<string>)
      ensures r == KeywordAbstract(text)
    {
      var lines := SplitLines(text);
      var start := FindStartLine(lines);
      if start == -1 {
        return None;
      }
      var end := FindEndLine(lines, start);
      var abstractText := Strip(Join(' ', lines[start..end]));
      abstractText := StripLabel(abstractText);
      if abstractText != [] {
        r := Some(Clean(abstractText));
      } else {
        r := None;
      }
    }

    /** The first loop of `find_abstract_by_keywords`: the index of the
        first line holding the whole word "abstract", or -1. */
    static method FindStartLine(lines: seq<string>) returns (start: int)
      ensures start == -1 <==> FirstAbstractLine(lines).None?
      ensures start != -1 ==> FirstAbstractLine(lines) == Some(start)
    {
      start := -1;
      var i := 0;
      while i < |lines|
        invariant i <= |lines| && start == -1
        invariant forall k :: 0 <= k < i ==> !HasAbstractWord(lines[k])
      {
        if HasAbstractWord(lines[i]) {
          start := i;
          break;
        }
        i := i + 1;
      }
    }

    /** Where the span ends: at the end keyword line if there is one, else
        where the blank-line scan stops. */
    static method FindEndLine(lines: seq<string>, start: nat) returns (end: nat)
      requires start < |lines|
      ensures end == SpanEnd(lines, start)
    {
      var found := FindKeywordLine(lines, start);
      if found != -1 {
        end := found;
        SpanEndAtKeyword(lines, start, end);
      } else {
        end := FindBlankLine(lines, start);
        SpanEndWithoutKeyword(lines, start, end);
      }
    }

    /** The second loop of `find_abstract_by_keywords`: the first line after
        `start` that, lowered and stripped, contains an end keyword, or -1. */
    static method FindKeywordLine(lines: seq<string>, start: nat) returns (found: int)
      requires start < |lines|
      ensures found == -1 ==> forall i :: start < i < |lines| ==> !HasEndKeyword(lines[i])
      ensures found != -1 ==> && start < found < |lines|
                              && HasEndKeyword(lines[found])
                              && forall i :: start < i < found ==> !HasEndKeyword(lines[i])
    {
      found := -1;
      var j := start + 1;
      while j < |lines|
        invariant start < j <= |lines|
        invariant forall k :: start < k < j ==> !HasEndKeyword(lines[k])
      {
        var lineLower := Strip(LowerStr(lines[j]));
        if ContainsAny(lineLower, EndKeywords) {
          return j;
        }
        j := j + 1;
      }
    }

    /** The third loop: the first blank line among the ten after `start`,
        or `start + 10` (capped at the number of lines) when there is none. */
    static method FindBlankLine(lines: seq<string>, start: nat) returns (end: nat)
      requires start < |lines|
      ensures start < end <= start + 10 && end <= |lines|
      ensures forall i :: start < i < end ==> !IsBlank(lines[i])
      ensures end < Min(start + 10, |lines|) ==> IsBlank(lines[end])
    {
      var window := Min(start + 11, |lines|);
      var k := start + 1;
      while k < window
        invariant start < k <= window
        invariant forall m :: start < m < k ==> !IsBlank(lines[m])
      {
        if Strip(lines[k]) == [] {
          return k;
        }
        k := k + 1;
      }
      end := Min(start + 10, |lines|);
    }
  }
}
