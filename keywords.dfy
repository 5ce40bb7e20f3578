/**
 * The line-oriented fallback `find_abstract_by_keywords`, as functions of
 * the text: the span starts at the first line holding the whole word
 * "abstract" and ends at the first later line holding an end keyword, or
 * else at the first blank line within the next ten lines, or else ten
 * lines on. The lines of the span are joined with spaces, a leading
 * `abstract` label is removed and the rest is cleaned.
 */
module KeywordScan {
  import opened Wrappers
  import opened CharClasses
  import opened Strings
  import opened Cleaner

  /** The words that mark the end of the abstract, matched as substrings of
      the lowered, stripped line. */
  const EndKeywords: seq<string> := ["keywords", "introduction", "background", "1.", "i."]

  function Min(a: int, b: int): int {
    if a <= b then a else b
  }

  /** `re.search(r'\babstract\b', line.lower())`. */
  predicate HasAbstractWord(line: string) {
    HasWholeWordFrom(LowerStr(line), "abstract", 0)
  }

  /** Python's `any(k in h for k in ks)`. */
  predicate ContainsAny(h: string, ks: seq<string>) {
    |ks| > 0 && (Contains(h, ks[0]) || ContainsAny(h, ks[1..]))
  }

  /** `any` holds exactly when one of the keywords occurs in h. */
  lemma {:induction false} ContainsAnyExists(h: string, ks: seq<string>)
    ensures ContainsAny(h, ks) <==> exists i :: 0 <= i < |ks| && Contains(h, ks[i])
  {
    if ks != [] {
      ContainsAnyExists(h, ks[1..]);
      assert forall i :: 1 <= i < |ks| ==> ks[i] == ks[1..][i - 1];
    }
  }

  /** The line, lowered and stripped, contains one of the end keywords. */
  predicate HasEndKeyword(line: string) {
    ContainsAny(Strip(LowerStr(line)), EndKeywords)
  }

  /** `line.strip() == ''`. */
  predicate IsBlank(line: string) {
    Strip(line) == []
  }

  /** The first line holding the whole word "abstract", if any. */
  function FirstAbstractLine(lines: seq<string>): (r: Option<nat>)
    ensures r.Some? ==> r.value < |lines| && HasAbstractWord(lines[r.value])
    ensures forall i :: 0 <= i < |lines| && (r.None? || i < r.value) ==> !HasAbstractWord(lines[i])
  {
    var k := FirstWhere(HasAbstractWord, lines, 0, |lines|);
    if k < |lines| then Some(k) else None
  }

  /** Where the span that starts at `start` ends (exclusive). */
  function SpanEnd(lines: seq<string>, start: nat): (end: nat)
    requires start < |lines|
    ensures start < end <= |lines|
    ensures (exists i :: start < i < |lines| && HasEndKeyword(lines[i])) ==>
              && end < |lines|
              && HasEndKeyword(lines[end])
              && forall i :: start < i < end ==> !HasEndKeyword(lines[i])
    ensures (forall i :: start < i < |lines| ==> !HasEndKeyword(lines[i])) ==>
              && end <= start + 10
              && (forall i :: start < i < end ==> !IsBlank(lines[i]))
              && (end < Min(start + 10, |lines|) ==> IsBlank(lines[end]))
  {
    var k := FirstWhere(HasEndKeyword, lines, start + 1, |lines|);
    if k < |lines| then k
    else
      var window := Min(start + 11, |lines|);
      var b := FirstWhere(IsBlank, lines, start + 1, window);
      if b < window then b else Min(start + 10, |lines|)
  }

  /** When a later line holds an end keyword, the span ends at the first
      such line and at no other. */
  lemma SpanEndAtKeyword(lines: seq<string>, start: nat, e: nat)
    requires start < e < |lines|
    requires HasEndKeyword(lines[e])
    requires forall i :: start < i < e ==> !HasEndKeyword(lines[i])
    ensures SpanEnd(lines, start) == e
  {
  }

  /** Without an end keyword, the span ends at the first blank line among
      the next ten, or ten lines on, and at no other line. */
  lemma SpanEndWithoutKeyword(lines: seq<string>, start: nat, e: nat)
    requires start < e <= |lines| && e <= start + 10
    requires forall i :: start < i < |lines| ==> !HasEndKeyword(lines[i])
    requires forall i :: start < i < e ==> !IsBlank(lines[i])
    requires e < Min(start + 10, |lines|) ==> IsBlank(lines[e])
    ensures SpanEnd(lines, start) == e
  {
    var s := SpanEnd(lines, start);
  }

  /** One `abstract` label at position k, after nothing but whitespace. */
  predicate LabelAt(s: string, k: nat) {
    && k <= |s|
    && (forall i :: 0 <= i < k ==> IsSpace(s[i]))
    && LiteralAt(s, k, "abstract")
  }

  /** `re.sub(r'^\s*abstract[:\s]*', '', s, flags=re.IGNORECASE)`. */
  function StripLabel(s: string): (r: string)
    ensures |r| <= |s| && r == s[|s| - |r|..]
    ensures (exists k: nat :: LabelAt(s, k)) ==>
              |s| - |r| >= 8 && (r == [] || NotColonOrSpace(r[0]))
    ensures (forall k: nat :: !LabelAt(s, k)) ==> r == s
    ensures forall k: nat :: LabelAt(s, k) ==>
              && k + 8 <= |s| - |r|
              && forall i :: k + 8 <= i < |s| - |r| ==> IsColonOrSpace(s[i])
  {
    var k := FirstWhere(NotSpace, s, 0, |s|);
    if LiteralAt(s, k, "abstract") then
      assert LabelAt(s, k);
      forall j: nat | LabelAt(s, j)
        ensures j == k
      {
        LabelAtFirstVisible(s, j);
      }
      var q := FirstWhere(NotColonOrSpace, s, k + 8, |s|);
      s[q..]
    else
      assert forall j: nat :: LabelAt(s, j) ==> j == k by {
        forall j: nat
          ensures LabelAt(s, j) ==> j == k
        {
          LabelAtFirstVisible(s, j);
        }
      }
      s
  }

  /** A label can only start at the first non-whitespace character. */
  lemma LabelAtFirstVisible(s: string, j: nat)
    ensures LabelAt(s, j) ==> j == FirstWhere(NotSpace, s, 0, |s|)
  {
    if LabelAt(s, j) {
      assert Lower(s[j]) == 'a' by {
        assert LowerStr(s[j..j + 8])[0] == Lower(s[j..j + 8][0]);
      }
    }
  }

  /** The abstract `find_abstract_by_keywords` returns. */
  function KeywordAbstract(text: string): (r: Option<string>)
  {
    var lines := SplitLines(text);
    match FirstAbstractLine(lines)
    case None => None
    case Some(start) =>
      var body := StripLabel(Strip(Join(' ', lines[start..SpanEnd(lines, start)])));
      if body == [] then None else Some(Clean(body))
  }

  /** On a single line the span is that line: the result is the stripped
      line with its label removed, cleaned, or `None` when the line lacks
      the word or nothing is left after the label. */
  lemma SingleLineAbstract(t: string)
    requires '\n' !in t
    ensures KeywordAbstract(t) ==
      if !HasAbstractWord(t) then None
      else
        var body := StripLabel(Strip(t));
        if body == [] then None else Some(Clean(body))
  {
    SplitLinesSingle(t);
    var lines := SplitLines(t);
    assert lines == [t];
    if HasAbstractWord(t) {
      assert FirstAbstractLine(lines) == Some(0);
      assert SpanEnd(lines, 0) == 1;
      assert lines[0..1] == [t];
    }
  }

  /** A text with no line holding the whole word "abstract" gives `None`. */
  lemma NoAbstractWordNoAbstract(text: string)
    requires forall i :: 0 <= i < |SplitLines(text)| ==> !HasAbstractWord(SplitLines(text)[i])
    ensures KeywordAbstract(text).None?
  {
  }

  /** End keywords are matched as substrings: any line containing `1.`,
      such as one ending in a year like `2021.`, ends the span. */
  lemma EndKeywordInsideLine(x: string, y: string)
    ensures HasEndKeyword(x + "1." + y)
  {
    var lowered := LowerStr(x + "1." + y);
    LoweredKeepsOneDot(x, y);
    StripKeepsInner(lowered, |x|, |x| + 2);
    assert Contains(Strip(lowered), EndKeywords[3]);
    ContainsAnyExists(Strip(lowered), EndKeywords);
  }

  lemma LoweredKeepsOneDot(x: string, y: string)
    ensures var lowered := LowerStr(x + "1." + y);
      |x| + 2 <= |lowered| && lowered[|x|..|x| + 2] == "1." && NotSpace(lowered[|x|]) && NotSpace(lowered[|x| + 1])
  {
    var line := x + "1." + y;
    var lowered := LowerStr(line);
    assert line[|x|] == '1' && line[|x| + 1] == '.';
    assert lowered[|x|..|x| + 2] == [lowered[|x|], lowered[|x| + 1]];
  }

  /** A single line whose label is followed only by characters the cleaner
      deletes gives `Some` of the empty text rather than `None`. */
  lemma JunkAfterLabel(t: string)
    requires '\n' !in t && HasAbstractWord(t)
    requires StripLabel(Strip(t)) != []
    requires forall i :: 0 <= i < |StripLabel(Strip(t))| ==> !IsKeptVisible(StripLabel(Strip(t))[i])
    ensures KeywordAbstract(t) == Some([])
  {
    SingleLineAbstract(t);
    CleanBlank(StripLabel(Strip(t)));
  }

  /** The line `abstract ` followed by characters the cleaner deletes, such
      as "abstract #", gives `Some` of the empty text. */
  lemma {:induction false} LabelThenJunk(j: string)
    requires j != [] && IsJunk(j)
    ensures KeywordAbstract("abstract " + j) == Some([])
  {
    var t := "abstract " + j;
    LabelPrefix(j);
    JunkLineShape(j);
    JunkLineLabel(j);
    JunkAfterLabel(t);
  }

  lemma {:induction false} JunkLineShape(j: string)
    requires j != [] && IsJunk(j)
    ensures '\n' !in "abstract " + j
    ensures Strip("abstract " + j) == "abstract " + j
  {
    var t := "abstract " + j;
    assert forall i :: 9 <= i < |t| ==> t[i] == j[i - 9];
    assert forall i :: 0 <= i < |t| ==> t[i] != '\n';
    assert NotSpace(t[|t| - 1]);
  }

  lemma {:induction false} JunkLineLabel(j: string)
    requires j != [] && IsJunk(j)
    requires LiteralAt("abstract " + j, 0, "abstract")
    ensures StripLabel("abstract " + j) == j
  {
    var t := "abstract " + j;
    var r := StripLabel(t);
    assert LabelAt(t, 0);
    assert t[8] == ' ' && t[9] == j[0];
    assert |t| - |r| == 9;
    assert t[9..] == j;
  }

  /** `abstract ` at the start of a line is a label and the whole word. */
  lemma {:induction false} LabelPrefix(j: string)
    ensures LiteralAt("abstract " + j, 0, "abstract")
    ensures HasAbstractWord("abstract " + j)
  {
    var t := "abstract " + j;
    var lower := LowerStr(t);
    assert t[0..8] == "abstract";
    assert LowerStr(t[0..8]) == "abstract";
    LowerStrSlice(t, 0, 8);
    assert lower[8] == ' ';
    assert WholeWordAt(lower, "abstract", 0);
  }
}
