/** `NodeFactory` and `NodeBuilder` (src/utils/data/factories.py): how the
    scrapers build structure, content and corpus nodes, the keyword rule for the
    `reserved` status, number extraction from a heading and heading clean-up. */
module Factories {
  import opened Wrappers
  import opened Strings
  import opened Nodes
  import opened Matching
  import Config

  // ---------------------------------------------------------------------------
  // Status

  const Reserved := "reserved"

  /** `NodeFactory.DEFAULT_RESERVED_KEYWORDS`. */
  const DefaultReservedKeywords: seq<string> :=
    ["REPEALED", "RESERVED", "TRANSFERRED", "OMITTED", "DELETED", "EXPIRED", "SUPERSEDED"]

  /** `reserved_keywords or DEFAULT_RESERVED_KEYWORDS`: a missing or empty list
      falls back to the defaults. */
  function KeywordsFor(reserved: Option<seq<string>>): (k: seq<string>)
    ensures k != []
    ensures reserved.Some? && reserved.value != [] ==> k == reserved.value
    ensures reserved.None? || reserved.value == [] ==> k == DefaultReservedKeywords
  {
    if reserved.Some? && reserved.value != [] then reserved.value else DefaultReservedKeywords
  }

  /** Some keyword of the list, scanned in order, occurs in `text`. */
  predicate MatchesAnyKeyword(text: string, keywords: seq<string>)
    decreases |keywords|
  {
    keywords != [] && (Contains(text, keywords[0]) || MatchesAnyKeyword(text, keywords[1..]))
  }

  lemma {:induction false} MatchesAnyKeywordExists(text: string, keywords: seq<string>)
    ensures MatchesAnyKeyword(text, keywords) <==> exists i :: 0 <= i < |keywords| && Contains(text, keywords[i])
    decreases |keywords|
  {
    if keywords != [] {
      MatchesAnyKeywordExists(text, keywords[1..]);
      assert forall i :: 1 <= i < |keywords| ==> keywords[i] == keywords[1..][i - 1];
    }
  }

  /** The status `_determine_status` yields. */
  function StatusFor(name: string, explicit: Option<string>, reserved: Option<seq<string>>): Option<string> {
    if explicit.Some? && explicit.value != "" then explicit
    else if MatchesAnyKeyword(Upper(name), KeywordsFor(reserved)) then Some(Reserved)
    else None
  }

  /** A non-empty explicit status wins whatever the name; otherwise the status is
      `reserved` exactly when some keyword occurs in the upper-cased name, and
      absent when none does. */
  lemma StatusForMeaning(name: string, explicit: Option<string>, reserved: Option<seq<string>>)
    ensures explicit.Some? && explicit.value != "" ==> StatusFor(name, explicit, reserved) == explicit
    ensures explicit.None? || explicit.value == "" ==>
      (StatusFor(name, explicit, reserved) == Some(Reserved) <==>
        exists i :: 0 <= i < |KeywordsFor(reserved)| && Contains(Upper(name), KeywordsFor(reserved)[i]))
    ensures explicit.None? || explicit.value == "" ==>
      (StatusFor(name, explicit, reserved).None? <==>
        forall i :: 0 <= i < |KeywordsFor(reserved)| ==> !Contains(Upper(name), KeywordsFor(reserved)[i]))
  {
    MatchesAnyKeywordExists(Upper(name), KeywordsFor(reserved));
  }

  /** The status does not depend on the case of the name. */
  lemma StatusIgnoresNameCase(name: string, explicit: Option<string>, reserved: Option<seq<string>>)
    ensures StatusFor(Lower(name), explicit, reserved) == StatusFor(name, explicit, reserved)
    ensures StatusFor(Upper(name), explicit, reserved) == StatusFor(name, explicit, reserved)
  {
    CaseRoundTrips(name);
    assert Upper(Upper(name)) == Upper(name);
  }

  /** The name is upper-cased but the keywords are not: a keyword holding a
      lower-case letter never occurs in it. */
  lemma LowerCaseKeywordNeverMatches(name: string, keyword: string, j: nat)
    requires j < |keyword| && IsLowerLetter(keyword[j])
    ensures !Contains(Upper(name), keyword)
  {
    var u := Upper(name);
    forall k: nat | k <= |u|
      ensures !OccursAt(u, keyword, k)
    {
      if k + |keyword| <= |u| {
        assert u[k..k + |keyword|][j] == u[k + j];
      }
    }
  }

  /** `_determine_status`: an early-return scan over the keywords. */
  method DetermineStatus(name: string, explicit: Option<string>, reserved: Option<seq<string>>)
    returns (status: Option<string>)
    ensures status == StatusFor(name, explicit, reserved)
  {
    if explicit.Some? && explicit.value != "" {
      return explicit;
    }
    var keywords := KeywordsFor(reserved);
    var nameUpper := Upper(name);
    var i := 0;
    while i < |keywords|
      invariant 0 <= i <= |keywords|
      invariant MatchesAnyKeyword(nameUpper, keywords) == MatchesAnyKeyword(nameUpper, keywords[i..])
    {
      assert keywords[i..][1..] == keywords[i + 1..];
      if Contains(nameUpper, keywords[i]) {
        return Some(Reserved);
      }
      i := i + 1;
    }
    return None;
  }

  // ---------------------------------------------------------------------------
  // The node constructors

  /** `create_structure_node`. */
  function CreateStructureNode(addLevel: AddLevel, parentId: string, levelClassifier: string,
                               number: string, name: string, link: string, topLevelTitle: string,
                               status: Option<string>, citation: Option<string>,
                               reserved: Option<seq<string>>): (n: Node)
    ensures n.id == addLevel(parentId, Lower(levelClassifier), number) && n.parent == Some(parentId)
    ensures n.nodeType == StructureType && n.levelClassifier == Upper(levelClassifier)
    ensures n.status == StatusFor(name, status, reserved)
    ensures n.number == Some(number) && n.nodeName == name && n.link == Some(link)
    ensures n.topLevelTitle == Some(topLevelTitle) && n.citation == citation
    ensures n.nodeText.None? && n.addendum.None? && n.coreMetadata.None?
  {
    Node(addLevel(parentId, Lower(levelClassifier), number), citation, Some(link),
      StatusFor(name, status, reserved), StructureType, Some(topLevelTitle), Upper(levelClassifier),
      Some(number), name, Some(parentId), None, None, None)
  }

  const DefaultContentLevel := "section"

  /** `create_content_node`; `None` for the level is the default `"section"`. */
  function CreateContentNode(addLevel: AddLevel, parentId: string, number: string, name: string,
                             link: string, citation: string, topLevelTitle: string,
                             nodeText: Option<NodeText>, addendum: Option<Addendum>,
                             status: Option<string>, levelClassifier: Option<string>,
                             reserved: Option<seq<string>>): (n: Node)
    ensures n.id == addLevel(parentId, Lower(levelClassifier.GetOr(DefaultContentLevel)), number)
    ensures n.parent == Some(parentId)
    ensures n.nodeType == ContentType && n.levelClassifier == Upper(levelClassifier.GetOr(DefaultContentLevel))
    ensures n.citation == Some(citation) && n.nodeText == nodeText && n.addendum == addendum
    ensures n.status == StatusFor(name, status, reserved)
    ensures n.number == Some(number) && n.nodeName == name && n.link == Some(link)
    ensures n.topLevelTitle == Some(topLevelTitle) && n.coreMetadata.None?
  {
    var level := levelClassifier.GetOr(DefaultContentLevel);
    Node(addLevel(parentId, Lower(level), number), Some(citation), Some(link),
      StatusFor(name, status, reserved), ContentType, Some(topLevelTitle), Upper(level),
      Some(number), name, Some(parentId), nodeText, addendum, None)
  }

  /** The level is matched without regard to case: the same node comes out for
      any casing of the level word. */
  lemma LevelCaseInsensitive(addLevel: AddLevel, parentId: string, level: string, number: string,
                             name: string, link: string, title: string, citation: string,
                             status: Option<string>, reserved: Option<seq<string>>,
                             nodeText: Option<NodeText>, addendum: Option<Addendum>)
    ensures CreateStructureNode(addLevel, parentId, Upper(level), number, name, link, title, status, Some(citation), reserved)
         == CreateStructureNode(addLevel, parentId, level, number, name, link, title, status, Some(citation), reserved)
    ensures CreateStructureNode(addLevel, parentId, Lower(level), number, name, link, title, status, Some(citation), reserved)
         == CreateStructureNode(addLevel, parentId, level, number, name, link, title, status, Some(citation), reserved)
    ensures CreateContentNode(addLevel, parentId, number, name, link, citation, title, nodeText, addendum, status, Some(Upper(level)), reserved)
         == CreateContentNode(addLevel, parentId, number, name, link, citation, title, nodeText, addendum, status, Some(level), reserved)
  {
    CaseRoundTrips(level);
    assert Upper(Upper(level)) == Upper(level);
    assert Lower(Lower(level)) == Lower(level);
  }

  /** `create_jurisdiction_node`: the corpus node under `country/jurisdiction`. */
  function CreateJurisdictionNode(country: string, jurisdiction: string, corpus: string,
                                  baseUrl: Option<string>): (n: Node)
    ensures n.parent == Some(country + "/" + jurisdiction)
    ensures n.nodeType == StructureType && n.levelClassifier == "corpus" && n.link == baseUrl
    ensures n.id == country + "/" + jurisdiction + "/" + corpus
    ensures n.nodeName == Upper(jurisdiction) + " " + Title(corpus)
    ensures n.citation.None? && n.status.None? && n.topLevelTitle.None? && n.number.None?
    ensures n.nodeText.None? && n.addendum.None? && n.coreMetadata.None?
  {
    Node(country + "/" + jurisdiction + "/" + corpus, None, baseUrl, None, StructureType, None,
      "corpus", None, Upper(jurisdiction) + " " + Title(corpus), Some(country + "/" + jurisdiction),
      None, None, None)
  }

  /** The corpus node's id is its parent's id extended by one `/` segment, and
      for slash-free parts it splits back into the three parts. */
  lemma JurisdictionNodeIdExtendsParent(country: string, jurisdiction: string, corpus: string,
                                        baseUrl: Option<string>)
    ensures CreateJurisdictionNode(country, jurisdiction, corpus, baseUrl).id
         == CreateJurisdictionNode(country, jurisdiction, corpus, baseUrl).parent.value + "/" + corpus
    ensures '/' !in country && '/' !in jurisdiction && '/' !in corpus ==>
      Split(CreateJurisdictionNode(country, jurisdiction, corpus, baseUrl).id, '/') == [country, jurisdiction, corpus]
  {
    if '/' !in country && '/' !in jurisdiction && '/' !in corpus {
      var c := Config.ScraperConfig(country, jurisdiction, corpus, "", "", 0, [], 0.0, false, 1, 1);
      Config.CorpusIdSplits(c);
      assert Config.CorpusId(c) == CreateJurisdictionNode(country, jurisdiction, corpus, baseUrl).id;
    }
  }

  /** Built from a configuration, the corpus node carries the configuration's
      corpus id and display name. */
  lemma JurisdictionNodeMatchesConfig(c: Config.ScraperConfig)
    ensures CreateJurisdictionNode(c.country, c.jurisdiction, c.corpus, Some(c.baseUrl)).id == Config.CorpusId(c)
    ensures CreateJurisdictionNode(c.country, c.jurisdiction, c.corpus, Some(c.baseUrl)).nodeName == Config.DisplayName(c)
  {
  }

  // ---------------------------------------------------------------------------
  // Hand-written matchers for the fixed patterns (case-insensitive, ASCII)

  /** The start of the run of digits ending at `j`. */
  function DigitRunStart(s: string, j: nat): (i: nat)
    requires j <= |s|
    ensures i <= j && AllDigits(s[i..j]) && (i > 0 ==> !IsDigit(s[i - 1]))
    decreases j
  {
    if j > 0 && IsDigit(s[j - 1]) then
      var i := DigitRunStart(s, j - 1);
      assert s[i..j] == s[i..j - 1] + [s[j - 1]];
      i
    else j
  }

  /** `[A-Z]?` under `re.IGNORECASE`. */
  function OptLetterEnd(s: string, i: nat): (j: nat)
    requires i <= |s|
    ensures j == i || (i < |s| && j == i + 1 && IsLetter(s[i]))
    ensures j <= |s|
  {
    if i < |s| && IsLetter(s[i]) then i + 1 else i
  }

  /** The strings `[A-Z]?\d+[A-Z]?` matches in full (letters of either case). */
  predicate IsNumberToken(t: string) {
    var lead := if t != [] && IsLetter(t[0]) then 1 else 0;
    var trail := if |t| > lead && IsLetter(t[|t| - 1]) then 1 else 0;
    lead + trail < |t| && AllDigits(t[lead..|t| - trail])
  }

  /** The greedy match of `[A-Z]?\d+[A-Z]?` at `i`. Every tail of the patterns
      that use it either is optional or needs a character the token cannot
      end with, so backtracking never picks a shorter token. */
  function NumberTokenEnd(s: string, i: nat): (r: Option<nat>)
    requires i <= |s|
    ensures r.Some? ==> i < r.value <= |s| && IsNumberToken(s[i..r.value])
    ensures r.Some? ==> r.value < |s| ==> !IsDigit(s[r.value]) || IsLetter(s[r.value - 1])
  {
    if i < |s| && IsLetter(s[i]) then
      if i + 1 < |s| && IsDigit(s[i + 1]) then
        var d := DigitRunEnd(s, i + 1);
        var e := OptLetterEnd(s, d);
        TokenShape(s, i, 1, d, e);
        Some(e)
      else None
    else if i < |s| && IsDigit(s[i]) then
      var d := DigitRunEnd(s, i);
      var e := OptLetterEnd(s, d);
      TokenShape(s, i, 0, d, e);
      Some(e)
    else None
  }

  /** An optional letter, a run of digits and an optional letter make a
      number token. */
  lemma TokenShape(s: string, i: nat, lead: nat, d: nat, e: nat)
    requires lead <= 1 && i + lead < d <= e <= |s| && e <= d + 1
    requires lead == 1 <==> IsLetter(s[i])
    requires AllDigits(s[i + lead..d])
    requires e == d + 1 ==> IsLetter(s[d])
    ensures IsNumberToken(s[i..e])
  {
    var t := s[i..e];
    assert t[0] == s[i];
    assert t[|t| - 1] == s[e - 1];
    if e == d {
      assert s[i + lead..d][d - 1 - i - lead] == s[d - 1];
    }
    assert IsLetter(t[|t| - 1]) <==> e == d + 1;
    SliceWithin(s, i, e, lead, d - i);
  }

  /** The lower-case level words of `(?:Title|Chapter|Article|Section|Part)`. */
  const LevelWords: seq<string> := ["title", "chapter", "article", "section", "part"]

  /** The end of the first level word that `s` starts with, ignoring case. */
  function LevelWordEnd(s: string, words: seq<string>): (r: Option<nat>)
    ensures r.Some? ==> r.value <= |s| && Lower(s[..r.value]) in words
    decreases |words|
  {
    if words == [] then None
    else if |words[0]| <= |s| && Lower(s[..|words[0]|]) == words[0] then Some(|words[0]|)
    else LevelWordEnd(s, words[1..])
  }

  /** `\s*[-.]?\s*` from `i`, greedily. */
  function SeparatorEnd(s: string, i: nat): (j: nat)
    requires i <= |s|
    ensures i <= j <= |s|
  {
    var a := SpaceRunEnd(s, i);
    var b := if a < |s| && (s[a] == '-' || s[a] == '.') then a + 1 else a;
    SpaceRunEnd(s, b)
  }

  /** `^(?:Title|Chapter|Article|Section|Part)\s+[A-Z]?\d+[A-Z]?\s*[-.]?\s*`: the
      length of the matched prefix. */
  function LevelPrefixEnd(s: string): (r: Option<nat>)
    ensures r.Some? ==> r.value <= |s|
  {
    match LevelWordEnd(s, LevelWords)
    case None => None
    case Some(w) =>
      var sp := SpaceRunEnd(s, w);
      if sp == w then None
      else
        match NumberTokenEnd(s, sp)
        case None => None
        case Some(t) => Some(SeparatorEnd(s, t))
  }

  /** `^[A-Z]?\d+[A-Z]?\s*[-.]?\s*`: the length of the matched prefix. */
  function NumberPrefixEnd(s: string): (r: Option<nat>)
    ensures r.Some? ==> 0 < r.value <= |s|
  {
    match NumberTokenEnd(s, 0)
    case None => None
    case Some(t) => Some(SeparatorEnd(s, t))
  }

  /** `re.sub(pattern, '', s)` for a pattern anchored at `^`: it can match only
      at the start, so at most one prefix goes. */
  function DropPrefix(s: string, m: Option<nat>): (r: string)
    requires m.Some? ==> m.value <= |s|
    ensures m.Some? ==> r == s[m.value..]
    ensures m.None? ==> r == s
  {
    if m.Some? then s[m.value..] else s
  }

  // ---------------------------------------------------------------------------
  // clean_node_name

  /** `clean_node_name`. */
  function CleanNodeName(name: string, removeNumber: bool): (r: string)
    ensures |r| <= |name|
  {
    var cleaned := CollapseSpaces(Strip(name));
    if removeNumber then
      var a := DropPrefix(cleaned, LevelPrefixEnd(cleaned));
      var b := DropPrefix(a, NumberPrefixEnd(a));
      Strip(b)
    else Strip(cleaned)
  }

  lemma SuffixKeepsSpacing(s: string, k: nat)
    requires k <= |s| && NoSpaceRun(s) && OnlyPlainSpaces(s)
    ensures NoSpaceRun(s[k..]) && OnlyPlainSpaces(s[k..])
  {
    assert forall i :: 0 <= i < |s| - k ==> s[k..][i] == s[k + i];
  }

  /** Dropping a prefix keeps single plain spaces. */
  lemma DropPrefixKeepsSpacing(s: string, m: Option<nat>)
    requires m.Some? ==> m.value <= |s|
    requires NoSpaceRun(s) && OnlyPlainSpaces(s)
    ensures NoSpaceRun(DropPrefix(s, m)) && OnlyPlainSpaces(DropPrefix(s, m))
  {
    if m.Some? {
      SuffixKeepsSpacing(s, m.value);
    }
  }

  /** A string of single plain spaces is normalised once stripped. */
  lemma StripSpacedNormalized(s: string)
    requires NoSpaceRun(s) && OnlyPlainSpaces(s)
    ensures Normalized(Strip(s))
  {
    StripKeepsNoSpaceRun(s);
    StripKeepsOnlyPlainSpaces(s);
  }

  /** A cleaned name has no whitespace at either end, every whitespace in it is a
      single plain space, and cleaning it again (without number removal)
      changes nothing. */
  lemma CleanNodeNameNormalized(name: string, removeNumber: bool)
    ensures Normalized(CleanNodeName(name, removeNumber))
    ensures CleanNodeName(CleanNodeName(name, removeNumber), false) == CleanNodeName(name, removeNumber)
  {
    var cleaned := CollapseSpaces(Strip(name));
    var r := CleanNodeName(name, removeNumber);
    if removeNumber {
      var a := DropPrefix(cleaned, LevelPrefixEnd(cleaned));
      DropPrefixKeepsSpacing(cleaned, LevelPrefixEnd(cleaned));
      var b := DropPrefix(a, NumberPrefixEnd(a));
      DropPrefixKeepsSpacing(a, NumberPrefixEnd(a));
      assert r == Strip(b);
      StripSpacedNormalized(b);
    } else {
      assert r == Strip(cleaned);
      StripSpacedNormalized(cleaned);
    }
    StripIdentity(r);
    NormalizedFixedPoint(r);
    assert CleanNodeName(r, false) == Strip(CollapseSpaces(Strip(r)));
  }

  // ---------------------------------------------------------------------------
  // extract_number_from_name

  /** A number pattern as `re.search(pattern, s, re.IGNORECASE)` followed by
      `match.group(1)`: the captured text when the pattern matches. */
  /** `^(?:Title|Chapter|Article|Section|Part)\s+([A-Z]?\d+[A-Z]?)`. */
  function TitleNumber(s: string): (r: Option<string>)
    ensures r.Some? ==> IsNumberToken(r.value)
  {
    match LevelWordEnd(s, LevelWords)
    case None => None
    case Some(w) =>
      var sp := SpaceRunEnd(s, w);
      if sp == w then None
      else
        match NumberTokenEnd(s, sp)
        case None => None
        case Some(t) => Some(s[sp..t])
  }

  /** `^([A-Z]?\d+[A-Z]?)\s*[-.]`. */
  function LeadingNumberWithSeparator(s: string): (r: Option<string>)
    ensures r.Some? ==> IsNumberToken(r.value)
  {
    match NumberTokenEnd(s, 0)
    case None => None
    case Some(t) =>
      var a := SpaceRunEnd(s, t);
      if a < |s| && (s[a] == '-' || s[a] == '.') then Some(s[..t]) else None
  }

  /** `^(\d+[A-Z]?)\.`. */
  function LeadingNumberWithDot(s: string): (r: Option<string>)
    ensures r.Some? ==> |r.value| > 0 && IsDigit(r.value[0]) && IsNumberToken(r.value)
  {
    if s != [] && IsDigit(s[0]) then
      var d := DigitRunEnd(s, 0);
      var e := OptLetterEnd(s, d);
      if e < |s| && s[e] == '.' then
        assert s[..e][0..e - (e - d)] == s[..d];
        Some(s[..e])
      else None
    else None
  }

  /** `(\d+[A-Z]?)$` searched from the left: the leftmost start is the start of
      the digit run that ends the string, or ends it but for one letter. The
      strings searched are stripped, so `$` can only match at the very end. */
  function TrailingNumber(s: string): (r: Option<string>)
    ensures r.Some? ==> IsNumberToken(r.value)
    ensures r.Some? ==> |r.value| <= |s| && r.value == s[|s| - |r.value|..]
  {
    var core := if s != [] && IsLetter(s[|s| - 1]) then |s| - 1 else |s|;
    var k := DigitRunStart(s, core);
    if k < core then
      assert s[k..][0..|s[k..]| - (|s| - core)] == s[k..core];
      Some(s[k..])
    else None
  }

  /** The four default patterns, in order. */
  const DefaultPatterns: seq<Pattern> :=
    [TitleNumber, LeadingNumberWithSeparator, LeadingNumberWithDot, TrailingNumber]

  /** Whatever the default patterns extract is a number token. */
  lemma DefaultNumberIsToken(s: string)
    ensures FirstMatch(DefaultPatterns, s).Some? ==> IsNumberToken(FirstMatch(DefaultPatterns, s).value)
  {
    var r := FirstMatch(DefaultPatterns, s);
    if r.Some? {
      var i :| 0 <= i < 4 && DefaultPatterns[i](s) == r;
      assert i == 0 || i == 1 || i == 2 || i == 3;
    }
  }

  /** The third default pattern never decides the result: whenever it matches,
      the second one matches first with the same capture. */
  lemma DotPatternShadowed(s: string)
    requires LeadingNumberWithDot(s).Some?
    ensures LeadingNumberWithSeparator(s) == LeadingNumberWithDot(s)
  {
    var d := DigitRunEnd(s, 0);
    var e := OptLetterEnd(s, d);
    assert NumberTokenEnd(s, 0) == Some(e);
    assert SpaceRunEnd(s, e) == e;
  }

  /** The first example of the `extract_number_from_name` documentation. */
  lemma ExtractNumberTitleExample()
    ensures FirstMatch(DefaultPatterns, "Title 1 - General") == Some("1")
  {
    var s := "Title 1 - General";
    assert Lower(s[..5]) == "title";
    assert LevelWordEnd(s, LevelWords) == Some(5);
    assert SpaceRunEnd(s, 5) == 6 && DigitRunEnd(s, 6) == 7;
    assert NumberTokenEnd(s, 6) == Some(7);
    assert s[6..7] == "1";
    assert DefaultPatterns[0](s) == Some("1");
  }

  /** The second example of the `extract_number_from_name` documentation. */
  lemma ExtractNumberChapterExample()
    ensures FirstMatch(DefaultPatterns, "Chapter 2A") == Some("2A")
  {
    var t := "Chapter 2A";
    assert Lower(t[..5])[0] == 'c';
    assert Lower(t[..5]) != "title";
    assert Lower(t[..7]) == "chapter";
    assert LevelWordEnd(t, LevelWords) == Some(7);
    assert SpaceRunEnd(t, 7) == 8 && DigitRunEnd(t, 8) == 9 && OptLetterEnd(t, 9) == 10;
    assert NumberTokenEnd(t, 8) == Some(10);
    assert t[8..10] == "2A";
    assert DefaultPatterns[0](t) == Some("2A");
  }

  /** `extract_number_from_name`: `None` for the patterns means the four
      defaults; each pattern is searched for in the stripped name, in order. */
  method ExtractNumberFromName(name: string, patterns: Option<seq<Pattern>>) returns (r: Option<string>)
    ensures r == FirstMatch(patterns.GetOr(DefaultPatterns), Strip(name))
  {
    var ps := patterns.GetOr(DefaultPatterns);
    var stripped := Strip(name);
    var i := 0;
    while i < |ps|
      invariant 0 <= i <= |ps|
      invariant FirstMatch(ps, stripped) == FirstMatch(ps[i..], stripped)
    {
      assert ps[i..][1..] == ps[i + 1..];
      var m := ps[i](stripped);
      if m.Some? {
        return m;
      }
      i := i + 1;
    }
    return None;
  }

  // ---------------------------------------------------------------------------
  // NodeBuilder

  /** A value stored in the builder's dictionary. */
  datatype Field = Text(text: string) | Body(body: NodeText) | Notes(notes: Addendum)

  /** The keys `build` insists on, in the order it reports them. */
  const Required: seq<string> := ["parent", "level_classifier", "number", "node_name", "node_type"]

  /** `[field for field in fields if field not in data]`. */
  function MissingFields(data: map<string, Field>, fields: seq<string>): (r: seq<string>)
    ensures forall f :: f in r <==> f in fields && f !in data
    ensures |r| <= |fields|
    decreases |fields|
  {
    if fields == [] then []
    else (if fields[0] in data then [] else [fields[0]]) + MissingFields(data, fields[1..])
  }

  function TextField(data: map<string, Field>, key: string): Option<string> {
    if key in data && data[key].Text? then Some(data[key].text) else None
  }

  /** `Node(**node_data)` with `id` set from the parent, the lower-cased level
      and the number; keys the builder never set are absent. */
  function NodeFrom(data: map<string, Field>, addLevel: AddLevel): Node {
    var parent := TextField(data, "parent").GetOr("");
    var level := TextField(data, "level_classifier").GetOr("");
    var number := TextField(data, "number").GetOr("");
    Node(addLevel(parent, Lower(level), number),
      TextField(data, "citation"), TextField(data, "link"), TextField(data, "status"),
      TextField(data, "node_type").GetOr(""), TextField(data, "top_level_title"), level,
      TextField(data, "number"), TextField(data, "node_name").GetOr(""), TextField(data, "parent"),
      if "node_text" in data && data["node_text"].Body? then Some(data["node_text"].body) else None,
      if "addendum" in data && data["addendum"].Notes? then Some(data["addendum"].notes) else None,
      None)
  }

  /** `NodeBuilder`: fluent setters over a dictionary. The setters return the
      builder itself in the source; here they return nothing. */
  class NodeBuilder {
    var data: map<string, Field>

    constructor()
      ensures data == map[]
    {
      data := map[];
    }

    method SetParent(parentId: string)
      modifies this
      ensures data == old(data)["parent" := Text(parentId)]
    {
      data := data["parent" := Text(parentId)];
    }

    /** `level`: the classifier is stored upper-cased. */
    method SetLevel(classifier: string, number: string)
      modifies this
      ensures data == old(data)["level_classifier" := Text(Upper(classifier))]["number" := Text(number)]
    {
      data := data["level_classifier" := Text(Upper(classifier))];
      data := data["number" := Text(number)];
    }

    method SetName(name: string)
      modifies this
      ensures data == old(data)["node_name" := Text(name)]
    {
      data := data["node_name" := Text(name)];
    }

    method SetLink(url: string)
      modifies this
      ensures data == old(data)["link" := Text(url)]
    {
      data := data["link" := Text(url)];
    }

    /** `type`: anything but `structure` or `content` is refused (a `ValueError`
        in the source) and leaves the builder as it was. */
    method SetType(nodeType: string) returns (accepted: bool)
      modifies this
      ensures accepted <==> nodeType == StructureType || nodeType == ContentType
      ensures accepted ==> data == old(data)["node_type" := Text(nodeType)]
      ensures !accepted ==> data == old(data)
    {
      if nodeType != StructureType && nodeType != ContentType {
        return false;
      }
      data := data["node_type" := Text(nodeType)];
      return true;
    }

    method SetTitle(topLevelTitle: string)
      modifies this
      ensures data == old(data)["top_level_title" := Text(topLevelTitle)]
    {
      data := data["top_level_title" := Text(topLevelTitle)];
    }

    method SetStatus(status: string)
      modifies this
      ensures data == old(data)["status" := Text(status)]
    {
      data := data["status" := Text(status)];
    }

    method SetCitation(citation: string)
      modifies this
      ensures data == old(data)["citation" := Text(citation)]
    {
      data := data["citation" := Text(citation)];
    }

    method SetText(nodeText: NodeText)
      modifies this
      ensures data == old(data)["node_text" := Body(nodeText)]
    {
      data := data["node_text" := Body(nodeText)];
    }

    method SetAddendum(addendum: Addendum)
      modifies this
      ensures data == old(data)["addendum" := Notes(addendum)]
    {
      data := data["addendum" := Notes(addendum)];
    }

    /** `build`: fails, listing the missing keys in order, exactly when one of
        the five required keys was never set. */
    method Build(addLevel: AddLevel) returns (r: Result<Node, seq<string>>)
      ensures r.Failure? <==> exists f :: f in Required && f !in data
      ensures r.Failure? ==> r.error == MissingFields(data, Required)
      ensures r.Success? ==> r.value == NodeFrom(data, addLevel)
    {
      var missing := MissingFields(data, Required);
      if missing != [] {
        return Failure(missing);
      }
      return Success(NodeFrom(data, addLevel));
    }
  }

  /** What the setters leave behind for a structure node: the parent, the level
      and number, the name, the link, the type, the title and a status. */
  function StructureBuilderData(parentId: string, level: string, number: string, name: string,
                                link: string, title: string, status: string): map<string, Field> {
    map[]["parent" := Text(parentId)]["level_classifier" := Text(Upper(level))]["number" := Text(number)]
      ["node_name" := Text(name)]["link" := Text(link)]["node_type" := Text(StructureType)]
      ["top_level_title" := Text(title)]["status" := Text(status)]
  }

  /** Built from those setters, a structure node equals the one the factory
      builds from the same arguments and a non-empty explicit status. */
  lemma BuilderMatchesStructureFactory(addLevel: AddLevel, parentId: string, level: string, number: string,
                                       name: string, link: string, title: string, status: string)
    requires status != ""
    ensures MissingFields(StructureBuilderData(parentId, level, number, name, link, title, status), Required) == []
    ensures NodeFrom(StructureBuilderData(parentId, level, number, name, link, title, status), addLevel)
         == CreateStructureNode(addLevel, parentId, level, number, name, link, title, Some(status), None, None)
  {
    CaseRoundTrips(level);
    var d := StructureBuilderData(parentId, level, number, name, link, title, status);
    assert TextField(d, "parent") == Some(parentId);
    assert TextField(d, "level_classifier") == Some(Upper(level));
    assert TextField(d, "number") == Some(number);
    assert TextField(d, "node_name") == Some(name);
    assert TextField(d, "link") == Some(link);
    assert TextField(d, "node_type") == Some(StructureType);
    assert TextField(d, "top_level_title") == Some(title);
    assert TextField(d, "status") == Some(status);
    assert TextField(d, "citation") == None;
    assert "node_text" !in d && "addendum" !in d;
    assert forall f :: f in Required ==> f in d;
  }
}
