/** `TextProcessor.extract_addendum` and `TextProcessor.extract_citation`
    (src/utils/processing/text.py): a list of patterns tried in order, the first
    that `re.search` finds deciding the result. The built-in patterns are
    written out as anchored matchers (all under `re.IGNORECASE`, with ASCII case
    folding); patterns a caller passes stay opaque `Pattern` values. */
module TextPatterns {
  import opened Wrappers
  import opened Strings
  import opened Matching
  import opened Nodes

  /** A matcher used as a pattern: `re.search`, then the group it reports. */
  function Searcher(m: Anchored): Pattern {
    s => Search(m, s)
  }

  /** A list of matchers used as patterns, in the same order. */
  function Searchers(ms: seq<Anchored>): (ps: seq<Pattern>)
    ensures |ps| == |ms|
  {
    seq(|ms|, i requires 0 <= i < |ms| => Searcher(ms[i]))
  }

  /** Pattern `i` of the list searches with matcher `i`. */
  lemma SearchersApply(ms: seq<Anchored>, i: nat, s: string)
    requires i < |ms|
    ensures Searchers(ms)[i](s) == Search(ms[i], s)
  {
  }

  /** When the first matcher finds something, that is what the list finds. */
  lemma FirstSearchHits(ms: seq<Anchored>, s: string, g: string)
    requires ms != [] && Search(ms[0], s) == Some(g)
    ensures FirstMatch(Searchers(ms), s) == Some(g)
  {
    SearchersApply(ms, 0, s);
  }

  /** What a search finds is a piece of the string searched. */
  lemma SearchFindsPiece(m: Anchored, s: string, g: string)
    requires Search(m, s) == Some(g)
    ensures exists a: nat :: OccursAt(s, g, a)
  {
    var k :| 0 <= k <= |s| && Hits(m, s, k) && g == Capture(m, s, k);
    assert OccursAt(s, g, k + m(s[k..]).value.0);
  }

  // ---------------------------------------------------------------------------
  // The built-in addendum patterns, searched in the stripped text

  /** `\[([^\]]+)\]$` (and `\(([^)]+)\)$` with `open`/`close` the parentheses):
      the bracket opens here, at least one other character follows, and the
      first closing bracket after it is the last character. The group is what
      lies between. The text searched is stripped, so `$` can only match at
      the very end. */
  function EnclosedTail(open: char, close: char, t: string): (r: Option<(nat, nat)>)
    ensures r.Some? <==> |t| >= 3 && t[0] == open && t[|t| - 1] == close && close !in t[1..|t| - 1]
    ensures r.Some? ==> r.value == (1, |t| - 1)
  {
    if |t| >= 3 && t[0] == open && t[|t| - 1] == close && close !in t[1..|t| - 1] then Some((1, |t| - 1))
    else None
  }

  function BracketTail(t: string): Option<(nat, nat)> { EnclosedTail('[', ']', t) }
  function ParenTail(t: string): Option<(nat, nat)> { EnclosedTail('(', ')', t) }

  /** `SOURCE:\s*(.+)$` and its siblings, with `lit` in lower case: the label,
      the run of whitespace after it, and then a non-empty rest of the line
      reaching the end, which is the group. */
  function LabelTail(lit: string, t: string): (r: Option<(nat, nat)>)
    ensures r.Some? ==> CaselessAt(t, 0, lit) && r.value.1 == |t|
  {
    if !CaselessAt(t, 0, lit) then None
    else
      match LineTail(t, |lit|)
      case None => None
      case Some(g) => Some((g, |t|))
  }

  /** `Added by Laws (\d+),\s*(.+)$` and `Amended by Laws (\d+),\s*(.+)$`, with
      `phrase` in lower case and ending in the space: the group read is the
      first one, the digits of the year. */
  function LawsTail(phrase: string, t: string): (r: Option<(nat, nat)>)
    ensures r.Some? ==> CaselessAt(t, 0, phrase) && r.value.0 == |phrase| < r.value.1 <= |t|
    ensures r.Some? ==> AllDigits(t[r.value.0..r.value.1])
  {
    if !CaselessAt(t, 0, phrase) then None
    else
      var d := DigitRunEnd(t, |phrase|);
      if d == |phrase| || d == |t| || t[d] != ',' then None
      else if LineTail(t, d + 1).None? then None
      else Some((|phrase|, d))
  }

  /** The matcher for the label `lit`. */
  function Label(lit: string): Anchored {
    t => LabelTail(lit, t)
  }

  /** The matcher for the session-law phrase `phrase`. */
  function Laws(phrase: string): Anchored {
    t => LawsTail(phrase, t)
  }

  /** The seven patterns used when the caller passes none, in order. */
  const AddendumMatchers: seq<Anchored> :=
    [BracketTail, ParenTail, Label("source:"), Label("history:"), Label("effective date:"),
     Laws("added by laws "), Laws("amended by laws ")]
  const DefaultAddendumPatterns: seq<Pattern> := Searchers(AddendumMatchers)

  /** `extract_addendum`: nothing for empty text; otherwise the group of the
      first pattern (the caller's, or the seven defaults when there are none)
      that matches somewhere in the stripped text, stripped, kept with the
      original text. An empty list of the caller's means no pattern at all. */
  function ExtractAddendum(text: string, patterns: Option<seq<Pattern>>, kind: AddendumType): (r: Option<Addendum>)
    ensures r.Some? ==> r.value.addendumType == kind && r.value.sourceText == text && NoEdgeSpace(r.value.addendumText)
  {
    if text == "" then None
    else
      var ps := if patterns.None? then DefaultAddendumPatterns else patterns.value;
      match FirstMatch(ps, Strip(text))
      case None => None
      case Some(g) => Some(Addendum(kind, Strip(g), text))
  }

  /** There is an addendum exactly when the text is non-empty and some pattern
      matches its stripped form; it then holds the stripped group of the first
      pattern that matches, every earlier pattern having failed. */
  lemma ExtractAddendumFirstMatch(text: string, patterns: Option<seq<Pattern>>, kind: AddendumType)
    ensures var ps := if patterns.None? then DefaultAddendumPatterns else patterns.value;
      && (ExtractAddendum(text, patterns, kind).Some? <==>
           text != "" && exists i :: 0 <= i < |ps| && ps[i](Strip(text)).Some?)
      && (ExtractAddendum(text, patterns, kind).Some? ==>
           exists i :: 0 <= i < |ps| && ps[i](Strip(text)).Some?
             && ExtractAddendum(text, patterns, kind).value.addendumText == Strip(ps[i](Strip(text)).value)
             && forall j :: 0 <= j < i ==> ps[j](Strip(text)).None?)
  {
    var ps := if patterns.None? then DefaultAddendumPatterns else patterns.value;
    FirstMatchIsFirst(ps, Strip(text));
  }

  /** A stripped text that ends in a bracketed note, with no `[` before the
      note and no `]` inside it, yields the note's text, stripped. */
  lemma BracketedNote(text: string, before: string, note: string, kind: AddendumType)
    requires Strip(text) == before + "[" + note + "]"
    requires '[' !in before && ']' !in note && note != ""
    ensures ExtractAddendum(text, None, kind) == Some(Addendum(kind, Strip(note), text))
  {
    var s := Strip(text);
    var k := |before|;
    assert s[k..] == "[" + note + "]";
    assert s[k..][1..|s[k..]| - 1] == note;
    assert Hits(BracketTail, s, k);
    forall j | 0 <= j < k
      ensures !Hits(BracketTail, s, j)
    {
      assert s[j..][0] == before[j];
    }
    SearchFindsFirst(BracketTail, s, k);
    assert Capture(BracketTail, s, k) == note;
    AddendumMatchersListed();
    FirstSearchHits(AddendumMatchers, s, note);
  }

  /** A single-line stripped text opening with `SOURCE:` (in any case) and not
      closing with a bracket or parenthesis yields what follows the label,
      stripped. */
  lemma SourceNote(text: string, kind: AddendumType)
    requires var s := Strip(text); CaselessAt(s, 0, "source:") && |s| > 7 && '\n' !in s
    requires var s := Strip(text); s[|s| - 1] != ']' && s[|s| - 1] != ')'
    ensures ExtractAddendum(text, None, kind) == Some(Addendum(kind, Strip(Strip(text)[7..]), text))
  {
    var s := Strip(text);
    var e := SpaceRunEnd(s, 7);
    EnclosedTailsMiss(s);
    LabelHits("source:", s);
    AddendumMatchersListed();
    ThirdSearchHits(AddendumMatchers, s, s[e..]);
    LStripOfSpaced(s, 7);
  }

  /** Neither enclosed-note pattern matches a string that does not end in the
      closing character. */
  lemma EnclosedTailsMiss(s: string)
    requires s != [] && s[|s| - 1] != ']' && s[|s| - 1] != ')'
    ensures Search(BracketTail, s) == None && Search(ParenTail, s) == None
  {
    forall k | 0 <= k <= |s|
      ensures !Hits(BracketTail, s, k) && !Hits(ParenTail, s, k)
    {
      if |s[k..]| >= 3 {
        assert s[k..][|s[k..]| - 1] == s[|s| - 1];
      }
    }
  }

  /** A label at the start of a single-line stripped string is found there,
      its group starting after the whitespace that follows the label. */
  lemma LabelHits(lit: string, s: string)
    requires CaselessAt(s, 0, lit) && |s| > |lit| && '\n' !in s && NoEdgeSpace(s)
    ensures Search(Label(lit), s) == Some(s[SpaceRunEnd(s, |lit|)..])
  {
    var e := SpaceRunEnd(s, |lit|);
    LineTailToEnd(s, |lit|);
    assert Label(lit)(s) == Some((e, |s|));
    assert s[0..] == s;
    SearchAtStart(Label(lit), s);
    assert s[e..|s|] == s[e..];
  }

  /** In a single-line string that does not end in whitespace, the rest of
      the line after index `p` is found after the whitespace there. */
  lemma LineTailToEnd(s: string, p: nat)
    requires p < |s| && '\n' !in s && NoEdgeSpace(s)
    ensures LineTail(s, p) == Some(SpaceRunEnd(s, p))
  {
    var e := SpaceRunEnd(s, p);
    SpaceRunStopsBeforeLast(s, p);
    assert forall k :: 0 <= k < |s| ==> s[k] != '\n';
  }

  /** The default addendum matchers, by position. */
  lemma AddendumMatchersListed()
    ensures AddendumMatchers[0] == BracketTail && AddendumMatchers[1] == ParenTail
    ensures AddendumMatchers[2] == Label("source:") && AddendumMatchers[3] == Label("history:")
    ensures AddendumMatchers[4] == Label("effective date:") && AddendumMatchers[5] == Laws("added by laws ")
    ensures AddendumMatchers[6] == Laws("amended by laws ")
  {
  }

  /** When the first two matchers find nothing and the third finds something,
      that is what the list finds. */
  lemma ThirdSearchHits(ms: seq<Anchored>, s: string, g: string)
    requires |ms| >= 3 && Search(ms[0], s).None? && Search(ms[1], s).None? && Search(ms[2], s) == Some(g)
    ensures FirstMatch(Searchers(ms), s) == Some(g)
  {
    SearchersApply(ms, 0, s);
    SearchersApply(ms, 1, s);
    SearchersApply(ms, 2, s);
    var ps := Searchers(ms);
    assert ps[1..][0] == ps[1] && ps[1..][1..][0] == ps[2];
    assert FirstMatch(ps[1..][1..], s) == Some(g);
    assert FirstMatch(ps[1..], s) == Some(g);
  }

  /** Stripping the part of a stripped string from `i` on drops the run of
      whitespace at `i`. */
  lemma LStripOfSpaced(s: string, i: nat)
    requires i < |s| && NoEdgeSpace(s)
    ensures Strip(s[i..]) == Strip(s[SpaceRunEnd(s, i)..])
  {
    var e := SpaceRunEnd(s, i);
    var t := s[i..];
    assert SpaceRunEnd(t, 0) == e - i by {
      SpaceRunEndShift(s, i, 0);
    }
    assert t[e - i..] == s[e..];
    assert !IsSpace(s[|s| - 1]);
    StripIdentity(s[e..]);
    StripFromRunEnd(t);
  }

  /** The whitespace run of a suffix is the run of the whole string. */
  lemma {:induction false} SpaceRunEndShift(s: string, i: nat, j: nat)
    requires i + j <= |s|
    ensures SpaceRunEnd(s[i..], j) == SpaceRunEnd(s, i + j) - i
    decreases |s| - i - j
  {
    if i + j < |s| && IsSpace(s[i + j]) {
      assert s[i..][j] == s[i + j];
      SpaceRunEndShift(s, i, j + 1);
    }
  }

  // ---------------------------------------------------------------------------
  // The built-in citation patterns, searched in the original text

  /** `[\d-]` */
  predicate IsCiteChar(c: char) { IsDigit(c) || c == '-' }
  /** `[\d.-]` */
  predicate IsDottedCiteChar(c: char) { IsDigit(c) || c == '.' || c == '-' }
  /** `[a-z0-9]` under `re.IGNORECASE` */
  predicate IsAlnum(c: char) { IsDigit(c) || IsLetter(c) }

  /** `§\s*` followed by a non-empty run of `cite`-characters, starting exactly
      at `i`: the end of the run. */
  function SectionMark(t: string, i: nat, cite: char -> bool): (r: Option<nat>)
    requires i <= |t|
    ensures r.Some? ==> i < r.value <= |t| && t[i] == '§' && cite(t[r.value - 1])
  {
    if i == |t| || t[i] != '§' then None
    else
      var d := SpaceRunEnd(t, i + 1);
      var e := RunEnd(t, d, cite);
      if e == d then None else Some(e)
  }

  /** The literal (in lower case) that opens `t` among `first` and `second`,
      with the index after it. */
  function EitherAt(t: string, i: nat, first: string, second: string): (r: Option<nat>)
    ensures r.Some? ==> r.value <= |t|
    ensures r.Some? ==> (CaselessAt(t, i, first) && r.value == i + |first|) || (CaselessAt(t, i, second) && r.value == i + |second|)
  {
    if CaselessAt(t, i, first) then Some(i + |first|)
    else if CaselessAt(t, i, second) then Some(i + |second|)
    else None
  }

  /** `(?:A\.R\.S\.|ARS)\s*§\s*[\d-]+(?:\.[A-Z])?` */
  function ArizonaCite(t: string): (r: Option<(nat, nat)>)
    ensures r.Some? ==> r.value.0 == 0 < r.value.1 <= |t|
    ensures r.Some? ==> CaselessAt(t, 0, "a.r.s.") || CaselessAt(t, 0, "ars")
    ensures r.Some? ==> t != [] && ToLowerChar(t[0]) == 'a'
  {
    match EitherAt(t, 0, "a.r.s.", "ars")
    case None => None
    case Some(p) =>
      match SectionMark(t, SpaceRunEnd(t, p), IsCiteChar)
      case None => None
      case Some(e) =>
        if e + 1 < |t| && t[e] == '.' && IsLetter(t[e + 1]) then Some((0, e + 2)) else Some((0, e))
  }

  /** `(?:Cal\.|California)\s*(?:Code|Gov\.)\s*§\s*[\d-]+` */
  function CaliforniaCite(t: string): (r: Option<(nat, nat)>)
    ensures r.Some? ==> r.value.0 == 0 < r.value.1 <= |t|
    ensures r.Some? ==> CaselessAt(t, 0, "cal.") || CaselessAt(t, 0, "california")
  {
    match EitherAt(t, 0, "cal.", "california")
    case None => None
    case Some(p) =>
      match EitherAt(t, SpaceRunEnd(t, p), "code", "gov.")
      case None => None
      case Some(q) =>
        match SectionMark(t, SpaceRunEnd(t, q), IsCiteChar)
        case None => None
        case Some(e) => Some((0, e))
  }

  /** `\d+\s+U\.S\.C\.\s*§\s*[\d-]+` */
  function CodeCite(t: string): (r: Option<(nat, nat)>)
    ensures r.Some? ==> r.value.0 == 0 < r.value.1 <= |t| && IsDigit(t[0])
  {
    var d := DigitRunEnd(t, 0);
    var sp := SpaceRunEnd(t, d);
    if d == 0 || sp == d || !CaselessAt(t, sp, "u.s.c.") then None
    else
      match SectionMark(t, SpaceRunEnd(t, sp + 6), IsCiteChar)
      case None => None
      case Some(e) => Some((0, e))
  }

  /** `C\.F\.R\.\s*§\s*[\d.-]+` */
  function RegulationCite(t: string): (r: Option<(nat, nat)>)
    ensures r.Some? ==> r.value.0 == 0 < r.value.1 <= |t| && CaselessAt(t, 0, "c.f.r.")
  {
    if !CaselessAt(t, 0, "c.f.r.") then None
    else
      match SectionMark(t, SpaceRunEnd(t, 6), IsDottedCiteChar)
      case None => None
      case Some(e) => Some((0, e))
  }

  /** `(?:\([a-z0-9]+\))*` from `i`: as many parenthesised runs as follow. */
  function ParenGroupsEnd(t: string, i: nat): (e: nat)
    requires i <= |t|
    ensures i <= e <= |t|
    decreases |t| - i
  {
    if i < |t| && t[i] == '(' then
      var a := RunEnd(t, i + 1, IsAlnum);
      if a > i + 1 && a < |t| && t[a] == ')' then ParenGroupsEnd(t, a + 1) else i
    else i
  }

  /** `§\s*[\d.-]+(?:\([a-z0-9]+\))*` */
  function SectionCite(t: string): (r: Option<(nat, nat)>)
    ensures r.Some? ==> r.value.0 == 0 < r.value.1 <= |t| && t[0] == '§'
  {
    match SectionMark(t, 0, IsDottedCiteChar)
    case None => None
    case Some(e) => Some((0, ParenGroupsEnd(t, e)))
  }

  /** The five built-in citation patterns, in order. */
  const CitationMatchers: seq<Anchored> :=
    [ArizonaCite, CaliforniaCite, CodeCite, RegulationCite, SectionCite]
  const DefaultCitationPatterns: seq<Pattern> := Searchers(CitationMatchers)

  /** `extract_citation`: nothing for empty text; otherwise the whole match of
      the first pattern that `re.search` finds in the text, stripped. The
      caller's patterns, per jurisdiction and in the order the dictionary lists
      them, come after the five built-in ones. */
  function ExtractCitation(text: string, custom: seq<seq<Pattern>>): (r: Option<string>)
    ensures r.Some? ==> text != "" && NoEdgeSpace(r.value)
  {
    if text == "" then None
    else
      match FirstMatch(DefaultCitationPatterns + Flatten(custom), text)
      case None => None
      case Some(g) => Some(Strip(g))
  }

  /** The caller's patterns are consulted only when no built-in pattern
      matches: a built-in match decides the citation whatever they are. */
  lemma CustomCitationsComeLast(text: string, custom: seq<seq<Pattern>>)
    requires text != ""
    ensures FirstMatch(DefaultCitationPatterns, text).Some? ==>
      ExtractCitation(text, custom) == Some(Strip(FirstMatch(DefaultCitationPatterns, text).value))
    ensures FirstMatch(DefaultCitationPatterns, text).None? ==>
      ExtractCitation(text, custom) == (match FirstMatch(Flatten(custom), text)
                                        case None => None
                                        case Some(g) => Some(Strip(g)))
  {
    FirstMatchAppend(DefaultCitationPatterns, Flatten(custom), text);
  }

  /** A citation found by a built-in pattern is a piece of the text. */
  lemma DefaultCitationOccurs(text: string, custom: seq<seq<Pattern>>)
    requires text != "" && FirstMatch(DefaultCitationPatterns, text).Some?
    ensures ExtractCitation(text, custom).Some? && Contains(text, ExtractCitation(text, custom).value)
  {
    var g := FirstMatch(DefaultCitationPatterns, text).value;
    var i :| 0 <= i < |CitationMatchers| && DefaultCitationPatterns[i](text) == Some(g);
    SearchersApply(CitationMatchers, i, text);
    SearchFindsPiece(CitationMatchers[i], text, g);
    var a: nat :| OccursAt(text, g, a);
    CustomCitationsComeLast(text, custom);
    StripOccurs(text, g, a);
  }

  /** The stripped form of a piece of a text is a piece of the text. */
  lemma StripOccurs(s: string, g: string, a: nat)
    requires OccursAt(s, g, a)
    ensures OccursAt(s, Strip(g), a + SpaceRunEnd(g, 0))
  {
    var i := SpaceRunEnd(g, 0);
    var j := StripEnd(g);
    assert Strip(g) == g[i..j];
    assert g == s[a..a + |g|];
    SliceWithin(s, a, a + |g|, i, j);
  }

  /** An Arizona citation `A.R.S. § <number>` closing a text is found, whatever
      the caller's patterns, when nothing before it can open one (no `a` in any
      case). */
  lemma ArizonaCitation(before: string, number: string, custom: seq<seq<Pattern>>)
    requires 'a' !in before && 'A' !in before
    requires number != "" && forall k :: 0 <= k < |number| ==> IsCiteChar(number[k])
    ensures ExtractCitation(before + "A.R.S. § " + number, custom) == Some("A.R.S. § " + number)
  {
    var text := before + "A.R.S. § " + number;
    var cite := "A.R.S. § " + number;
    ArizonaSearch(before, number);
    CitationMatchersListed();
    FirstSearchHits(CitationMatchers, text, cite);
    CustomCitationsComeLast(text, custom);
    assert cite[|cite| - 1] == number[|number| - 1];
    CiteCharNotSpace(number[|number| - 1]);
    StripIdentity(cite);
  }

  /** The Arizona matcher first succeeds where the citation starts. */
  lemma ArizonaSearch(before: string, number: string)
    requires 'a' !in before && 'A' !in before
    requires number != "" && forall k :: 0 <= k < |number| ==> IsCiteChar(number[k])
    ensures Search(ArizonaCite, before + "A.R.S. § " + number) == Some("A.R.S. § " + number)
  {
    var text := before + "A.R.S. § " + number;
    var cite := "A.R.S. § " + number;
    var k := |before|;
    assert text[k..] == cite;
    forall j | 0 <= j < k
      ensures !Hits(ArizonaCite, text, j)
    {
      assert text[j..][0] == before[j];
      assert ToLowerChar(before[j]) != 'a';
    }
    ArizonaMatch(number);
    assert Hits(ArizonaCite, text, k);
    SearchFindsFirst(ArizonaCite, text, k);
    assert Capture(ArizonaCite, text, k) == cite;
  }

  /** The default citation matchers, by position. */
  lemma CitationMatchersListed()
    ensures CitationMatchers[0] == ArizonaCite && CitationMatchers[1] == CaliforniaCite
    ensures CitationMatchers[2] == CodeCite && CitationMatchers[3] == RegulationCite
    ensures CitationMatchers[4] == SectionCite
  {
  }

  lemma CiteCharNotSpace(c: char)
    requires IsDottedCiteChar(c)
    ensures !IsSpace(c)
  {
  }

  /** The Arizona matcher takes all of `A.R.S. § <number>`. */
  lemma ArizonaMatch(number: string)
    requires number != "" && forall k :: 0 <= k < |number| ==> IsCiteChar(number[k])
    ensures ArizonaCite("A.R.S. § " + number) == Some((0, 9 + |number|))
  {
    var t := "A.R.S. § " + number;
    assert t[0..6] == "A.R.S.";
    assert CaselessAt(t, 0, "a.r.s.");
    assert t[6] == ' ' && t[7] == '§' && t[8] == ' ';
    assert SpaceRunEnd(t, 6) == 7;
    assert SpaceRunEnd(t, 8) == 9;
    assert forall k :: 9 <= k < |t| ==> t[k] == number[k - 9];
    assert RunEnd(t, 9, IsCiteChar) == |t|;
  }
}
