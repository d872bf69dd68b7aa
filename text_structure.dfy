/** The structural helpers of `TextProcessor` (src/utils/processing/text.py):
    `_classify_paragraph`, `extract_node_text` and `split_into_sections`. */
module TextStructure {
  import opened Wrappers
  import opened Strings
  import opened Nodes
  import opened Matching
  import opened TextCleaning

  // ---------------------------------------------------------------------------
  // _classify_paragraph

  /** A caller's regular expression applied with `re.match`: whether it matches
      at the start of its argument. */
  type StartTest = string -> bool

  /** `^In this [a-z]+,`: the run of lower-case letters is taken whole, so the
      comma must follow it directly. */
  predicate InThisStart(t: string) {
    OccursAt(t, "In this ", 0) &&
    var e := RunEnd(t, 8, IsLowerLetter);
    e > 8 && e < |t| && t[e] == ','
  }

  /** The `definition` patterns (case-sensitive). */
  predicate DefinitionStart(t: string) {
    OccursAt(t, "As used in this", 0) || OccursAt(t, "For purposes of this", 0) || InThisStart(t)
  }

  /** The `subsection` patterns: `(a)` with one lower-case letter, or a
      parenthesised run of digits. */
  predicate SubsectionStart(t: string) {
    || (|t| >= 3 && t[0] == '(' && IsLowerLetter(t[1]) && t[2] == ')')
    || (|t| >= 1 && t[0] == '(' && var e := DigitRunEnd(t, 1); e > 1 && e < |t| && t[e] == ')')
  }

  /** The `numbered` patterns: digits followed by a dot or by whitespace. */
  predicate NumberedStart(t: string) {
    |t| >= 1 && IsDigit(t[0]) &&
    var e := DigitRunEnd(t, 0);
    e < |t| && (t[e] == '.' || IsSpace(t[e]))
  }

  /** The `lettered` patterns: one ASCII letter and a dot. */
  predicate LetteredStart(t: string) {
    |t| >= 2 && IsLetter(t[0]) && t[1] == '.'
  }

  /** The `custom` group: present only for a non-empty list, and matching when
      one of its tests does. */
  predicate CustomStart(custom: Option<seq<StartTest>>, t: string) {
    custom.Some? && custom.value != [] && exists i :: 0 <= i < |custom.value| && custom.value[i](t)
  }

  /** The group of a stripped text: the first, in the order definition,
      subsection, numbered, lettered, custom, with a pattern matching it. */
  function ClassifyStripped(t: string, custom: Option<seq<StartTest>>): Option<Classification> {
    if DefinitionStart(t) then Some(Definition)
    else if SubsectionStart(t) then Some(Subsection)
    else if NumberedStart(t) then Some(Numbered)
    else if LetteredStart(t) then Some(Lettered)
    else if CustomStart(custom, t) then Some(Custom)
    else None
  }

  /** `_classify_paragraph`: nothing for empty text, otherwise the group of the
      stripped text. */
  function ClassifyParagraph(text: string, custom: Option<seq<StartTest>>): Option<Classification> {
    if text == "" then None else ClassifyStripped(Strip(text), custom)
  }

  /** Every definition opener starts with a capital letter followed by a
      lower-case one. */
  lemma DefinitionShape(t: string)
    requires DefinitionStart(t)
    ensures |t| >= 2 && IsUpperLetter(t[0]) && IsLowerLetter(t[1])
  {
    if OccursAt(t, "As used in this", 0) {
      assert t[..15][0] == t[0] && t[..15][1] == t[1];
    } else if OccursAt(t, "For purposes of this", 0) {
      assert t[..20][0] == t[0] && t[..20][1] == t[1];
    } else {
      assert t[..8][0] == t[0] && t[..8][1] == t[1];
    }
  }

  /** The four built-in groups never overlap: at most one of them applies to
      any text, so their order matters only for the custom group. */
  lemma BuiltinGroupsExclusive(t: string)
    ensures !(DefinitionStart(t) && SubsectionStart(t))
    ensures !(DefinitionStart(t) && NumberedStart(t))
    ensures !(DefinitionStart(t) && LetteredStart(t))
    ensures !(SubsectionStart(t) && NumberedStart(t))
    ensures !(SubsectionStart(t) && LetteredStart(t))
    ensures !(NumberedStart(t) && LetteredStart(t))
  {
    if DefinitionStart(t) {
      DefinitionShape(t);
    }
  }

  /** What each classification means: a built-in group is reported exactly when
      its own pattern matches the stripped text; `custom` exactly when no
      built-in one does and a custom test does; nothing exactly for empty text
      or when no pattern matches. */
  lemma ClassifyParagraphMeaning(text: string, custom: Option<seq<StartTest>>)
    ensures ClassifyParagraph(text, custom) == Some(Definition) <==> text != "" && DefinitionStart(Strip(text))
    ensures ClassifyParagraph(text, custom) == Some(Subsection) <==> text != "" && SubsectionStart(Strip(text))
    ensures ClassifyParagraph(text, custom) == Some(Numbered) <==> text != "" && NumberedStart(Strip(text))
    ensures ClassifyParagraph(text, custom) == Some(Lettered) <==> text != "" && LetteredStart(Strip(text))
    ensures ClassifyParagraph(text, custom) == Some(Custom) <==>
      text != "" && CustomStart(custom, Strip(text)) &&
      !DefinitionStart(Strip(text)) && !SubsectionStart(Strip(text)) &&
      !NumberedStart(Strip(text)) && !LetteredStart(Strip(text))
    ensures ClassifyParagraph(text, custom).None? <==>
      text == "" ||
      (!DefinitionStart(Strip(text)) && !SubsectionStart(Strip(text)) && !NumberedStart(Strip(text)) &&
       !LetteredStart(Strip(text)) && !CustomStart(custom, Strip(text)))
  {
    BuiltinGroupsExclusive(Strip(text));
  }

  /** Surrounding whitespace does not change the classification of a text that
      is not blank. */
  lemma ClassifyIgnoresEdgeSpace(text: string, custom: Option<seq<StartTest>>)
    requires Strip(text) != ""
    ensures ClassifyParagraph(Strip(text), custom) == ClassifyParagraph(text, custom)
  {
    StripIdentity(Strip(text));
  }

  // ---------------------------------------------------------------------------
  // extract_node_text

  /** `clean_text(element)` with its defaults, on the text of an element. */
  function ParagraphClean(quotes: Replacements): string -> string {
    e => CleanedText(Some(e), quotes, true, true, None)
  }

  /** A cleaned paragraph text is trimmed, its whitespace is single plain spaces
      and `<[^>]+>` matches nowhere in it. */
  lemma ParagraphCleanIsClean(quotes: Replacements)
    ensures forall e :: Normalized(ParagraphClean(quotes)(e)) && NoTagMatch(ParagraphClean(quotes)(e))
  {
    forall e
      ensures Normalized(ParagraphClean(quotes)(e)) && NoTagMatch(ParagraphClean(quotes)(e))
    {
      CleanedTextNormalized(Some(e), quotes, true, None);
      CleanedTextHasNoTag(Some(e), quotes, true, None);
    }
  }

  /** The texts of `elements` that become paragraphs, in order: each cleaned
      with `clean`, the empty ones dropped when `skipEmpty`. */
  function KeptTexts(elements: seq<string>, skipEmpty: bool, clean: string -> string): seq<string>
    decreases |elements|
  {
    if elements == [] then []
    else
      var kept := KeptTexts(elements[..|elements| - 1], skipEmpty, clean);
      var text := clean(elements[|elements| - 1]);
      if skipEmpty && text == "" then kept else kept + [text]
  }

  /** `f"#p-{n}"`. */
  function ParagraphId(n: nat): string {
    "#p-" + NatToString(n)
  }

  /** `_classify_paragraph` with the caller's custom patterns, as a function of
      the text. */
  function Classifier(custom: Option<seq<StartTest>>): string -> Option<Classification> {
    t => ClassifyParagraph(t, custom)
  }

  /** `ps` holds one paragraph per text of `texts`, in order, numbered from 0,
      each with the classification `classify` gives its text. */
  predicate ParagraphsOf(ps: seq<Paragraph>, texts: seq<string>, classify: string -> Option<Classification>) {
    |ps| == |texts| &&
    forall k :: 0 <= k < |ps| ==> ps[k] == Paragraph(texts[k], ParagraphId(k), classify(texts[k]))
  }

  /** The paragraphs built from `texts`, one after another: the next identifier
      is the number of paragraphs so far. */
  function ParagraphsFor(texts: seq<string>, classify: string -> Option<Classification>): (ps: seq<Paragraph>)
    ensures |ps| == |texts|
    decreases |texts|
  {
    if texts == [] then []
    else
      var init := texts[..|texts| - 1];
      var text := texts[|texts| - 1];
      ParagraphsFor(init, classify) + [Paragraph(text, ParagraphId(|init|), classify(text))]
  }

  /** Paragraph `k` holds text `k`, has identifier `#p-k` and the classification
      of its text. */
  lemma {:induction false} ParagraphsForNumbered(texts: seq<string>, classify: string -> Option<Classification>)
    ensures ParagraphsOf(ParagraphsFor(texts, classify), texts, classify)
    decreases |texts|
  {
    if texts != [] {
      var init := texts[..|texts| - 1];
      ParagraphsForNumbered(init, classify);
      var ps := ParagraphsFor(texts, classify);
      forall k | 0 <= k < |init|
        ensures ps[k] == Paragraph(texts[k], ParagraphId(k), classify(texts[k]))
      {
        assert ps[k] == ParagraphsFor(init, classify)[k];
        assert init[k] == texts[k];
      }
    }
  }

  /** `for tag in tag_filter: elements.extend(container.find_all(tag))`. */
  method GatherElements<T>(found: seq<seq<T>>) returns (elements: seq<T>)
    ensures elements == Flatten(found)
  {
    elements := [];
    var t := 0;
    while t < |found|
      invariant 0 <= t <= |found|
      invariant elements == Flatten(found[..t])
    {
      assert found[..t + 1][..t] == found[..t];
      elements := elements + found[t];
      t := t + 1;
    }
    assert found[..t] == found;
  }

  /** The paragraph loop of `extract_node_text`, over any cleaning and
      classifying functions: each element is cleaned, an empty text is skipped
      when `skipEmpty`, and every other text becomes the next paragraph, with
      the identifier `#p-<number of paragraphs so far>`. */
  method BuildParagraphs(elements: seq<string>, skipEmpty: bool, clean: string -> string,
                         classify: string -> Option<Classification>) returns (nodeText: NodeText)
    ensures nodeText.paragraphs == ParagraphsFor(KeptTexts(elements, skipEmpty, clean), classify)
  {
    nodeText := NodeText([]);
    var i := 0;
    while i < |elements|
      invariant 0 <= i <= |elements|
      invariant nodeText.paragraphs == ParagraphsFor(KeptTexts(elements[..i], skipEmpty, clean), classify)
    {
      ghost var before := KeptTexts(elements[..i], skipEmpty, clean);
      KeptTextsStep(elements, i, skipEmpty, clean);
      var text := clean(elements[i]);
      if !(skipEmpty && text == "") {
        var paragraphId := "#p-" + NatToString(|nodeText.paragraphs|);
        var classification := classify(text);
        assert (before + [text])[..|before|] == before;
        nodeText := AddParagraph(nodeText, Paragraph(text, paragraphId, classification));
      }
      i := i + 1;
    }
    assert elements[..i] == elements;
  }

  /** `extract_node_text`: `found[t]` is the text (`get_text()`) of each element
      `find_all` returns for tag `t` of the filter, in document order. The
      elements of all tags are gathered tag by tag, then cleaned with
      `clean_text` and classified with `_classify_paragraph` one by one. */
  method ExtractNodeText(found: seq<seq<string>>, skipEmpty: bool, custom: Option<seq<StartTest>>,
                         quotes: Replacements) returns (nodeText: NodeText)
    ensures nodeText.paragraphs == ParagraphsFor(KeptTexts(Flatten(found), skipEmpty, ParagraphClean(quotes)), Classifier(custom))
  {
    var elements := GatherElements(found);
    nodeText := BuildParagraphs(elements, skipEmpty, ParagraphClean(quotes), Classifier(custom));
  }

  /** Keeping is a filter: the texts kept from two runs of elements are those
      kept from each, in order. */
  lemma {:induction false} KeptTextsAppend(a: seq<string>, b: seq<string>, skipEmpty: bool, clean: string -> string)
    ensures KeptTexts(a + b, skipEmpty, clean) == KeptTexts(a, skipEmpty, clean) + KeptTexts(b, skipEmpty, clean)
    decreases |b|
  {
    if b == [] {
      assert a + b == a;
    } else {
      assert (a + b)[..|a + b| - 1] == a + b[..|b| - 1];
      KeptTextsAppend(a, b[..|b| - 1], skipEmpty, clean);
    }
  }

  /** One more element: its cleaned text is kept unless it is empty and empty
      texts are skipped. */
  lemma KeptTextsStep(elements: seq<string>, i: nat, skipEmpty: bool, clean: string -> string)
    requires i < |elements|
    ensures KeptTexts(elements[..i + 1], skipEmpty, clean) ==
      if skipEmpty && clean(elements[i]) == "" then KeptTexts(elements[..i], skipEmpty, clean)
      else KeptTexts(elements[..i], skipEmpty, clean) + [clean(elements[i])]
  {
    assert elements[..i + 1][..i] == elements[..i];
  }

  /** Every kept text is the cleaned text of an element, and not empty when
      empty texts are skipped. */
  lemma {:induction false} KeptTextsAreCleaned(elements: seq<string>, skipEmpty: bool, clean: string -> string)
    ensures forall k :: 0 <= k < |KeptTexts(elements, skipEmpty, clean)| ==>
      exists m :: 0 <= m < |elements| && KeptTexts(elements, skipEmpty, clean)[k] == clean(elements[m])
    ensures skipEmpty ==> forall k :: 0 <= k < |KeptTexts(elements, skipEmpty, clean)| ==>
      KeptTexts(elements, skipEmpty, clean)[k] != ""
    decreases |elements|
  {
    if elements != [] {
      var n := |elements| - 1;
      var init := elements[..n];
      KeptTextsAreCleaned(init, skipEmpty, clean);
      var r := KeptTexts(elements, skipEmpty, clean);
      var r0 := KeptTexts(init, skipEmpty, clean);
      var text := clean(elements[n]);
      assert r == if skipEmpty && text == "" then r0 else r0 + [text];
      forall k | 0 <= k < |r|
        ensures exists m :: 0 <= m < |elements| && r[k] == clean(elements[m])
        ensures skipEmpty ==> r[k] != ""
      {
        if k < |r0| {
          assert r[k] == r0[k];
          var m :| 0 <= m < |init| && r0[k] == clean(init[m]);
          assert init[m] == elements[m];
        } else {
          assert r[k] == text;
        }
      }
    } else {
      assert KeptTexts(elements, skipEmpty, clean) == [];
    }
  }

  /** Without `skipEmpty` every element gives a paragraph, in order. */
  lemma {:induction false} KeptTextsKeepAll(elements: seq<string>, clean: string -> string)
    ensures |KeptTexts(elements, false, clean)| == |elements|
    ensures forall k :: 0 <= k < |elements| ==> KeptTexts(elements, false, clean)[k] == clean(elements[k])
    decreases |elements|
  {
    if elements != [] {
      var init := elements[..|elements| - 1];
      KeptTextsKeepAll(init, clean);
      assert KeptTexts(elements, false, clean) == KeptTexts(init, false, clean) + [clean(elements[|elements| - 1])];
      forall k | 0 <= k < |init|
        ensures KeptTexts(elements, false, clean)[k] == clean(elements[k])
      {
        assert init[k] == elements[k];
      }
    }
  }

  /** The paragraphs `extract_node_text` builds are cleaned text: trimmed, with
      single plain spaces and no tag left, and not empty under `skipEmpty`. */
  lemma ParagraphTextsClean(found: seq<seq<string>>, skipEmpty: bool, quotes: Replacements)
    ensures forall k :: 0 <= k < |KeptTexts(Flatten(found), skipEmpty, ParagraphClean(quotes))| ==>
      var text := KeptTexts(Flatten(found), skipEmpty, ParagraphClean(quotes))[k];
      Normalized(text) && NoTagMatch(text) && (skipEmpty ==> text != "")
  {
    KeptTextsAreCleaned(Flatten(found), skipEmpty, ParagraphClean(quotes));
    ParagraphCleanIsClean(quotes);
  }

  /** The paragraph identifiers are pairwise distinct. */
  lemma ParagraphIdsDistinct(ps: seq<Paragraph>, texts: seq<string>, classify: string -> Option<Classification>)
    requires ParagraphsOf(ps, texts, classify)
    ensures forall j, k :: 0 <= j < k < |ps| ==> ps[j].paragraphId != ps[k].paragraphId
  {
    forall j, k | 0 <= j < k < |ps|
      ensures ps[j].paragraphId != ps[k].paragraphId
    {
      if ps[j].paragraphId == ps[k].paragraphId {
        assert ParagraphId(j)[3..] == NatToString(j);
        assert ParagraphId(k)[3..] == NatToString(k);
        NatToStringInjective(j, k);
      }
    }
  }

  // ---------------------------------------------------------------------------
  // split_into_sections

  datatype SectionType = Full | Header | Content

  /** One entry of the result: `{"text": ..., "type": ...}`. */
  datatype Section = Section(text: string, sectionType: SectionType)

  /** A section pattern: its source text, whose truthiness the loop tests, and
      `re.match(pattern, line, re.IGNORECASE)` as a test. */
  datatype SectionPattern = SectionPattern(source: string, matches: string -> bool)

  /** The index of the first pattern matching `line`. */
  function FirstMatching(ps: seq<SectionPattern>, line: string, from: nat): (r: Option<nat>)
    requires from <= |ps|
    ensures r.Some? ==> from <= r.value < |ps| && ps[r.value].matches(line)
    ensures r.Some? ==> forall k :: from <= k < r.value ==> !ps[k].matches(line)
    ensures r.None? ==> forall k :: from <= k < |ps| ==> !ps[k].matches(line)
    decreases |ps| - from
  {
    if from == |ps| then None
    else if ps[from].matches(line) then Some(from)
    else FirstMatching(ps, line, from + 1)
  }

  /** `line` opens a new section: the first matching pattern has a non-empty
      source (the loop stops at the first match, and an empty pattern, which
      matches everything, is falsy). */
  predicate StartsSection(ps: seq<SectionPattern>, line: string) {
    var m := FirstMatching(ps, line, 0);
    m.Some? && ps[m.value].source != ""
  }

  /** With no empty pattern source, a line opens a section exactly when some
      pattern matches it. */
  lemma StartsSectionMeaning(ps: seq<SectionPattern>, line: string)
    requires forall k :: 0 <= k < |ps| ==> ps[k].source != ""
    ensures StartsSection(ps, line) <==> exists k :: 0 <= k < |ps| && ps[k].matches(line)
  {
  }

  /** The lines trimmed by `trim` (`str.strip` in `split_into_sections`),
      blank ones dropped. */
  function KeptLines(lines: seq<string>, trim: string -> string): (r: seq<string>)
    ensures forall k :: 0 <= k < |r| ==> r[k] != ""
    decreases |lines|
  {
    if lines == [] then []
    else
      var kept := KeptLines(lines[..|lines| - 1], trim);
      var line := trim(lines[|lines| - 1]);
      if line == "" then kept else kept + [line]
  }

  /** One more line: its trimmed form is kept unless it is blank. */
  lemma KeptLinesStep(lines: seq<string>, i: nat, trim: string -> string)
    requires i < |lines|
    ensures KeptLines(lines[..i + 1], trim) ==
      if trim(lines[i]) == "" then KeptLines(lines[..i], trim) else KeptLines(lines[..i], trim) + [trim(lines[i])]
  {
    assert lines[..i + 1][..i] == lines[..i];
  }

  /** A trimming that leaves no edge whitespace keeps lines without any. */
  lemma {:induction false} KeptLinesTrimmed(lines: seq<string>, trim: string -> string)
    requires forall s :: NoEdgeSpace(trim(s))
    ensures forall k :: 0 <= k < |KeptLines(lines, trim)| ==> NoEdgeSpace(KeptLines(lines, trim)[k])
    decreases |lines|
  {
    if lines != [] {
      KeptLinesTrimmed(lines[..|lines| - 1], trim);
    }
  }

  /** A character that occurs in no line occurs in no stripped kept line. */
  lemma {:induction false} KeptLinesAvoid(lines: seq<string>, c: char)
    requires forall m :: 0 <= m < |lines| ==> c !in lines[m]
    ensures forall k :: 0 <= k < |KeptLines(lines, Strip)| ==> c !in KeptLines(lines, Strip)[k]
    decreases |lines|
  {
    if lines != [] {
      var init := lines[..|lines| - 1];
      KeptLinesAvoid(init, c);
      StripChars(lines[|lines| - 1]);
    }
  }

  /** `groups` cuts `lines` into non-empty runs such that every run after the
      first opens with a section line and no run has a section line after its
      first line. */
  predicate IsSectionPartition(groups: seq<seq<string>>, lines: seq<string>, ps: seq<SectionPattern>) {
    && (forall i :: 0 <= i < |groups| ==> groups[i] != [])
    && Flatten(groups) == lines
    && (forall i :: 1 <= i < |groups| ==> StartsSection(ps, groups[i][0]))
    && (forall i, j :: 0 <= i < |groups| && 1 <= j < |groups[i]| ==> !StartsSection(ps, groups[i][j]))
  }

  /** A line that opens a section, or comes first, starts a new group. */
  lemma PartitionNewGroup(g: seq<seq<string>>, lines: seq<string>, line: string, ps: seq<SectionPattern>)
    requires IsSectionPartition(g, lines, ps)
    requires g == [] || StartsSection(ps, line)
    ensures IsSectionPartition(g + [[line]], lines + [line], ps)
  {
    var h := g + [[line]];
    assert h[..|g|] == g;
    forall i | 1 <= i < |h|
      ensures StartsSection(ps, h[i][0])
    {
      if i < |g| {
        assert h[i] == g[i];
      }
    }
    forall i, j | 0 <= i < |h| && 1 <= j < |h[i]|
      ensures !StartsSection(ps, h[i][j])
    {
      assert h[i] == g[i];
    }
  }

  /** Any other line joins the last group. */
  lemma PartitionExtendGroup(g: seq<seq<string>>, lines: seq<string>, line: string, ps: seq<SectionPattern>)
    requires IsSectionPartition(g, lines, ps)
    requires g != [] && !StartsSection(ps, line)
    ensures IsSectionPartition(g[..|g| - 1] + [g[|g| - 1] + [line]], lines + [line], ps)
  {
    var n := |g|;
    var h := g[..n - 1] + [g[n - 1] + [line]];
    assert h[..n - 1] == g[..n - 1];
    ButLastAndLast(g);
    assert Flatten(g) == Flatten(g[..n - 1]) + g[n - 1];
    forall i | 1 <= i < |h|
      ensures StartsSection(ps, h[i][0])
    {
      if i < n - 1 {
        assert h[i] == g[i];
      } else {
        assert h[i][0] == g[i][0];
      }
    }
    forall i, j | 0 <= i < |h| && 1 <= j < |h[i]|
      ensures !StartsSection(ps, h[i][j])
    {
      if i < n - 1 {
        assert h[i] == g[i];
      } else if j < |g[n - 1]| {
        assert h[i][j] == g[i][j];
      }
    }
  }

  /** The lines of a group are lines of the concatenation. */
  lemma GroupLinesFrom(g: seq<seq<string>>, i: nat)
    requires i < |g|
    ensures forall k :: 0 <= k < |g[i]| ==> g[i][k] in Flatten(g)
  {
    forall k | 0 <= k < |g[i]|
      ensures g[i][k] in Flatten(g)
    {
      FlattenMember(g, i, k);
    }
  }

  /** The line groups the loop builds: a section line, or the first line, starts
      a group; any other line joins the last one. */
  function Groups(lines: seq<string>, ps: seq<SectionPattern>): (g: seq<seq<string>>)
    ensures IsSectionPartition(g, lines, ps)
    decreases |lines|
  {
    if lines == [] then []
    else
      var init := lines[..|lines| - 1];
      var g := Groups(init, ps);
      var line := lines[|lines| - 1];
      ButLastAndLast(lines);
      if g == [] || StartsSection(ps, line) then
        PartitionNewGroup(g, init, line, ps);
        g + [[line]]
      else
        PartitionExtendGroup(g, init, line, ps);
        g[..|g| - 1] + [g[|g| - 1] + [line]]
  }

  /** Dropping the last group of a partition leaves a partition of the lines
      before that group. */
  lemma PartitionDropLast(h: seq<seq<string>>, lines: seq<string>, ps: seq<SectionPattern>)
    requires h != [] && IsSectionPartition(h, lines, ps)
    ensures IsSectionPartition(h[..|h| - 1], Flatten(h[..|h| - 1]), ps)
  {
  }

  /** Dropping the last line of a partition's last group, when that group has
      another line, leaves a partition of the lines before it. */
  lemma PartitionDropLastLine(h: seq<seq<string>>, lines: seq<string>, ps: seq<SectionPattern>)
    requires h != [] && |h[|h| - 1]| > 1 && IsSectionPartition(h, lines, ps)
    ensures var last := h[|h| - 1];
      IsSectionPartition(h[..|h| - 1] + [last[..|last| - 1]], Flatten(h[..|h| - 1]) + last[..|last| - 1], ps)
  {
    var n := |h|;
    var last := h[n - 1];
    var h' := h[..n - 1] + [last[..|last| - 1]];
    assert h'[..n - 1] == h[..n - 1];
    forall i, j | 0 <= i < |h'| && 1 <= j < |h'[i]|
      ensures !StartsSection(ps, h'[i][j])
    {
      assert h'[i][j] == h[i][j];
    }
    forall i | 1 <= i < |h'|
      ensures StartsSection(ps, h'[i][0])
    {
      assert h'[i][0] == h[i][0];
    }
  }

  /** One more line: `Groups` either opens a new group with it or appends it to
      the last group. */
  lemma GroupsStep(init: seq<string>, line: string, ps: seq<SectionPattern>)
    ensures var g := Groups(init, ps);
      Groups(init + [line], ps) ==
        if g == [] || StartsSection(ps, line) then g + [[line]]
        else g[..|g| - 1] + [g[|g| - 1] + [line]]
  {
    assert (init + [line])[..|init|] == init;
  }

  /** The partition is unique: any cutting of the lines with the properties of
      `IsSectionPartition` is the one `Groups` builds. */
  lemma {:induction false} GroupsUnique(h: seq<seq<string>>, lines: seq<string>, ps: seq<SectionPattern>)
    requires IsSectionPartition(h, lines, ps)
    ensures h == Groups(lines, ps)
    decreases |lines|
  {
    if h == [] {
      assert lines == [];
    } else {
      var n := |h|;
      var last := h[n - 1];
      var prefix := h[..n - 1];
      var lastInit := last[..|last| - 1];
      var line := last[|last| - 1];
      ButLastAndLast(h);
      ButLastAndLast(last);
      assert lines == Flatten(prefix) + last;
      if |last| == 1 {
        PartitionDropLast(h, lines, ps);
        GroupsUnique(prefix, Flatten(prefix), ps);
        GroupsStep(Flatten(prefix), line, ps);
        if prefix != [] {
          assert StartsSection(ps, h[n - 1][0]);
        }
        assert lastInit == [];
      } else {
        var h' := prefix + [lastInit];
        PartitionDropLastLine(h, lines, ps);
        GroupsUnique(h', Flatten(prefix) + lastInit, ps);
        GroupsStep(Flatten(prefix) + lastInit, line, ps);
        assert !StartsSection(ps, h[n - 1][|last| - 1]);
        assert h'[..n - 1] == prefix && h'[n - 1] == lastInit;
      }
    }
  }

  /** A group of lines becomes a header when it is one section line alone. */
  function KindOf(group: seq<string>, ps: seq<SectionPattern>): SectionType
    requires group != []
  {
    if |group| == 1 && StartsSection(ps, group[0]) then Header else Content
  }

  /** One section per group: its lines joined with newlines, and its kind. */
  function SectionsOf(groups: seq<seq<string>>, ps: seq<SectionPattern>): (r: seq<Section>)
    requires forall i :: 0 <= i < |groups| ==> groups[i] != []
    ensures |r| == |groups|
  {
    seq(|groups|, i requires 0 <= i < |groups| => Section(Join(groups[i], "\n"), KindOf(groups[i], ps)))
  }

  /** What `split_into_sections` returns: the whole text as one `full` section
      for empty text or no patterns; otherwise the sections of the line groups
      of the stripped non-blank lines. */
  function SplitSections(text: string, patterns: Option<seq<SectionPattern>>): seq<Section> {
    if text == "" || patterns.None? || patterns.value == [] then [Section(text, Full)]
    else SectionsOf(Groups(KeptLines(Split(text, '\n'), Strip), patterns.value), patterns.value)
  }

  /** A newline-joined group of non-empty lines without edge whitespace is
      itself non-empty and without edge whitespace. */
  lemma {:induction false} JoinedLinesTrimmed(g: seq<string>)
    requires g != [] && forall k :: 0 <= k < |g| ==> g[k] != "" && NoEdgeSpace(g[k])
    ensures Join(g, "\n") != "" && NoEdgeSpace(Join(g, "\n"))
    decreases |g|
  {
    if |g| > 1 {
      JoinedLinesTrimmed(g[1..]);
      var rest := Join(g[1..], "\n");
      assert Join(g, "\n") == g[0] + "\n" + rest;
      assert Join(g, "\n")[0] == g[0][0];
      assert Join(g, "\n")[|Join(g, "\n")| - 1] == rest[|rest| - 1];
    }
  }

  /** The state of the `split_into_sections` loop after some of the lines:
      the finished sections are those of all groups but the last, and
      `current` and `currentType` hold the last group, joined, and its kind. */
  predicate SplitState(sections: seq<Section>, current: string, currentType: SectionType,
                       g: seq<seq<string>>, ps: seq<SectionPattern>)
    requires forall i :: 0 <= i < |g| ==> g[i] != []
  {
    && (g == [] ==> current == "" && sections == [])
    && (g != [] ==>
         && sections == SectionsOf(g[..|g| - 1], ps)
         && current == Join(g[|g| - 1], "\n")
         && currentType == KindOf(g[|g| - 1], ps))
  }

  /** The text held in `current` has no edge whitespace, and it is empty
      only before the first group. */
  lemma CurrentTrimmed(sections: seq<Section>, current: string, currentType: SectionType,
                       kept: seq<string>, ps: seq<SectionPattern>)
    requires forall k :: 0 <= k < |kept| ==> kept[k] != "" && NoEdgeSpace(kept[k])
    requires SplitState(sections, current, currentType, Groups(kept, ps), ps)
    ensures NoEdgeSpace(current)
    ensures current == "" <==> Groups(kept, ps) == []
  {
    var g := Groups(kept, ps);
    if g != [] {
      GroupLinesFrom(g, |g| - 1);
      JoinedLinesTrimmed(g[|g| - 1]);
    }
  }

  /** The sections of a run of groups are those of all groups but the last,
      then the last one's. */
  lemma SectionsOfSnoc(g: seq<seq<string>>, ps: seq<SectionPattern>)
    requires g != [] && forall i :: 0 <= i < |g| ==> g[i] != []
    ensures SectionsOf(g, ps) ==
      SectionsOf(g[..|g| - 1], ps) + [Section(Join(g[|g| - 1], "\n"), KindOf(g[|g| - 1], ps))]
  {
  }

  /** A section line closes the current section, if any, and opens a header. */
  lemma SplitStateOpen(sections: seq<Section>, current: string, currentType: SectionType,
                       kept: seq<string>, line: string, ps: seq<SectionPattern>)
    requires forall k :: 0 <= k < |kept| ==> kept[k] != "" && NoEdgeSpace(kept[k])
    requires SplitState(sections, current, currentType, Groups(kept, ps), ps)
    requires StartsSection(ps, line)
    ensures var closed := if current != "" then sections + [Section(current, currentType)] else sections;
      SplitState(closed, line, Header, Groups(kept + [line], ps), ps)
  {
    var g := Groups(kept, ps);
    CurrentTrimmed(sections, current, currentType, kept, ps);
    GroupsStep(kept, line, ps);
    var h := g + [[line]];
    assert h[..|h| - 1] == g && h[|h| - 1] == [line];
    var closed := if current != "" then sections + [Section(current, currentType)] else sections;
    if g != [] {
      SectionsOfSnoc(g, ps);
    }
    assert closed == SectionsOf(g, ps);
    assert Join([line], "\n") == line;
    assert KindOf([line], ps) == Header;
  }

  /** Any other line joins the current section, which becomes content. */
  lemma SplitStateExtend(sections: seq<Section>, current: string, currentType: SectionType,
                         kept: seq<string>, line: string, ps: seq<SectionPattern>)
    requires forall k :: 0 <= k < |kept| ==> kept[k] != "" && NoEdgeSpace(kept[k])
    requires SplitState(sections, current, currentType, Groups(kept, ps), ps)
    requires !StartsSection(ps, line)
    ensures SplitState(sections, if current != "" then current + "\n" + line else line, Content,
                       Groups(kept + [line], ps), ps)
  {
    var g := Groups(kept, ps);
    CurrentTrimmed(sections, current, currentType, kept, ps);
    GroupsStep(kept, line, ps);
    if g != [] {
      var h := g[..|g| - 1] + [g[|g| - 1] + [line]];
      assert h[..|g| - 1] == g[..|g| - 1];
      JoinAppend(g[|g| - 1], [line], "\n");
    }
  }

  /** After the last line the current section, if any, is closed. */
  lemma SplitStateFinish(sections: seq<Section>, current: string, currentType: SectionType,
                         kept: seq<string>, ps: seq<SectionPattern>)
    requires forall k :: 0 <= k < |kept| ==> kept[k] != "" && NoEdgeSpace(kept[k])
    requires SplitState(sections, current, currentType, Groups(kept, ps), ps)
    ensures (if current != "" then sections + [Section(current, currentType)] else sections)
      == SectionsOf(Groups(kept, ps), ps)
  {
    var g := Groups(kept, ps);
    CurrentTrimmed(sections, current, currentType, kept, ps);
    if g != [] {
      SectionsOfSnoc(g, ps);
    }
  }

  /** The inner loop of `split_into_sections`: the patterns are tried in
      order and the loop breaks at the first that matches `line`. */
  method MatchingPattern(ps: seq<SectionPattern>, line: string) returns (matched: Option<nat>)
    ensures matched == FirstMatching(ps, line, 0)
  {
    var j := 0;
    matched := None;
    while j < |ps| && matched.None?
      invariant 0 <= j <= |ps|
      invariant matched.None? ==> forall k :: 0 <= k < j ==> !ps[k].matches(line)
      invariant matched.Some? ==> matched == FirstMatching(ps, line, 0)
    {
      if ps[j].matches(line) {
        matched := Some(j);
      }
      j := j + 1;
    }
  }

  /** `trim` behaves as `str.strip` does: it leaves no edge whitespace and
      keeps a string that has none. */
  ghost predicate Trims(trim: string -> string) {
    && (forall s :: NoEdgeSpace(trim(s)))
    && (forall s :: NoEdgeSpace(s) ==> trim(s) == s)
  }

  /** The state of the loop after the lines `lines`: that of the groups of
      their trimmed non-blank lines. */
  ghost predicate LinesState(sections: seq<Section>, current: string, currentType: SectionType,
                             lines: seq<string>, trim: string -> string, ps: seq<SectionPattern>) {
    SplitState(sections, current, currentType, Groups(KeptLines(lines, trim), ps), ps)
  }

  /** The loop step for a section line. */
  lemma LineOpens(sections: seq<Section>, current: string, currentType: SectionType,
                  lines: seq<string>, i: nat, trim: string -> string, ps: seq<SectionPattern>)
    requires Trims(trim) && i < |lines|
    requires LinesState(sections, current, currentType, lines[..i], trim, ps)
    requires trim(lines[i]) != "" && StartsSection(ps, trim(lines[i]))
    ensures var closed := if trim(current) != "" then sections + [Section(trim(current), currentType)] else sections;
      LinesState(closed, trim(lines[i]), Header, lines[..i + 1], trim, ps)
  {
    var kept := KeptLines(lines[..i], trim);
    KeptLinesTrimmed(lines[..i], trim);
    KeptLinesStep(lines, i, trim);
    CurrentTrimmed(sections, current, currentType, kept, ps);
    SplitStateOpen(sections, current, currentType, kept, trim(lines[i]), ps);
  }

  /** The loop step for any other non-blank line. */
  lemma LineJoins(sections: seq<Section>, current: string, currentType: SectionType,
                  lines: seq<string>, i: nat, trim: string -> string, ps: seq<SectionPattern>)
    requires Trims(trim) && i < |lines|
    requires LinesState(sections, current, currentType, lines[..i], trim, ps)
    requires trim(lines[i]) != "" && !StartsSection(ps, trim(lines[i]))
    ensures var line := trim(lines[i]);
      LinesState(sections, if current != "" then current + "\n" + line else line, Content,
                 lines[..i + 1], trim, ps)
  {
    var kept := KeptLines(lines[..i], trim);
    KeptLinesTrimmed(lines[..i], trim);
    KeptLinesStep(lines, i, trim);
    SplitStateExtend(sections, current, currentType, kept, trim(lines[i]), ps);
  }

  /** The loop step for a blank line, which is skipped. */
  lemma LineSkipped(sections: seq<Section>, current: string, currentType: SectionType,
                    lines: seq<string>, i: nat, trim: string -> string, ps: seq<SectionPattern>)
    requires i < |lines|
    requires LinesState(sections, current, currentType, lines[..i], trim, ps)
    requires trim(lines[i]) == ""
    ensures LinesState(sections, current, currentType, lines[..i + 1], trim, ps)
  {
    KeptLinesStep(lines, i, trim);
  }

  /** After the last line, closing the current section gives the sections of
      all groups. */
  lemma LinesDone(sections: seq<Section>, current: string, currentType: SectionType,
                  lines: seq<string>, trim: string -> string, ps: seq<SectionPattern>)
    requires Trims(trim)
    requires LinesState(sections, current, currentType, lines, trim, ps)
    ensures (if trim(current) != "" then sections + [Section(trim(current), currentType)] else sections)
      == SectionsOf(Groups(KeptLines(lines, trim), ps), ps)
  {
    var kept := KeptLines(lines, trim);
    KeptLinesTrimmed(lines, trim);
    CurrentTrimmed(sections, current, currentType, kept, ps);
    SplitStateFinish(sections, current, currentType, kept, ps);
  }

  /** The loop of `split_into_sections` over the lines of the text, with the
      trimming `trim` (`str.strip`) it applies to each line and to `current`. */
  method SectionsOfLines(lines: seq<string>, ps: seq<SectionPattern>, trim: string -> string)
    returns (sections: seq<Section>)
    requires Trims(trim)
    ensures sections == SectionsOf(Groups(KeptLines(lines, trim), ps), ps)
  {
    sections := [];
    var current := "";
    var currentType := Content;
    var i := 0;
    while i < |lines|
      invariant 0 <= i <= |lines|
      invariant LinesState(sections, current, currentType, lines[..i], trim, ps)
    {
      var line := trim(lines[i]);
      if line != "" {
        var matched := MatchingPattern(ps, line);
        if matched.Some? && ps[matched.value].source != "" {
          LineOpens(sections, current, currentType, lines, i, trim, ps);
          var closing := trim(current);
          if closing != "" {
            sections := sections + [Section(closing, currentType)];
          }
          current := line;
          currentType := Header;
        } else {
          LineJoins(sections, current, currentType, lines, i, trim, ps);
          if current != "" {
            current := current + "\n" + line;
          } else {
            current := line;
          }
          currentType := Content;
        }
      } else {
        LineSkipped(sections, current, currentType, lines, i, trim, ps);
      }
      i := i + 1;
    }
    assert lines[..i] == lines;
    LinesDone(sections, current, currentType, lines, trim, ps);
    var closing := trim(current);
    if closing != "" {
      sections := sections + [Section(closing, currentType)];
    }
  }

  /** `split_into_sections`. */
  method SplitIntoSections(text: string, patterns: Option<seq<SectionPattern>>) returns (sections: seq<Section>)
    ensures sections == SplitSections(text, patterns)
  {
    if text == "" || patterns.None? || patterns.value == [] {
      return [Section(text, Full)];
    }
    forall s | NoEdgeSpace(s)
      ensures Strip(s) == s
    {
      StripIdentity(s);
    }
    sections := SectionsOfLines(Split(text, '\n'), patterns.value, Strip);
  }

  /** The kept lines of a text contain no newline. */
  lemma KeptLinesOfSplit(text: string)
    ensures forall k :: 0 <= k < |KeptLines(Split(text, '\n'), Strip)| ==> '\n' !in KeptLines(Split(text, '\n'), Strip)[k]
  {
    KeptLinesAvoid(Split(text, '\n'), '\n');
  }

  /** A group of non-empty, trimmed, single lines joined by newlines: the
      lines can be read back, the text is trimmed, and the group's kind is
      a header exactly when the text is one section line. */
  lemma GroupSection(group: seq<string>, ps: seq<SectionPattern>)
    requires group != []
    requires forall k :: 0 <= k < |group| ==> group[k] != "" && NoEdgeSpace(group[k]) && '\n' !in group[k]
    ensures var t := Join(group, "\n");
      && Split(t, '\n') == group
      && t != "" && NoEdgeSpace(t)
      && (KindOf(group, ps) == Header <==> '\n' !in t && StartsSection(ps, t))
  {
    SplitJoin(group, '\n');
    JoinedLinesTrimmed(group);
    if |group| > 1 {
      assert Join(group, "\n") == group[0] + "\n" + Join(group[1..], "\n");
      assert Join(group, "\n")[|group[0]|] == '\n';
    }
  }

  /** The sections of a partition of non-empty, trimmed, single lines. */
  lemma SectionsOfPartition(g: seq<seq<string>>, lines: seq<string>, ps: seq<SectionPattern>)
    requires IsSectionPartition(g, lines, ps)
    requires forall k :: 0 <= k < |lines| ==> lines[k] != "" && NoEdgeSpace(lines[k]) && '\n' !in lines[k]
    ensures var r := SectionsOf(g, ps);
      && (forall i :: 0 <= i < |r| ==> r[i].text != "" && NoEdgeSpace(r[i].text) && r[i].sectionType != Full)
      && Flatten(seq(|r|, i requires 0 <= i < |r| => Split(r[i].text, '\n'))) == lines
      && (forall i :: 1 <= i < |r| ==> StartsSection(ps, Split(r[i].text, '\n')[0]))
      && (forall i, j :: 0 <= i < |r| && 1 <= j < |Split(r[i].text, '\n')| ==>
            !StartsSection(ps, Split(r[i].text, '\n')[j]))
      && (forall i :: 0 <= i < |r| ==>
            (r[i].sectionType == Header <==> '\n' !in r[i].text && StartsSection(ps, r[i].text)))
  {
    var r := SectionsOf(g, ps);
    var parts := seq(|r|, i requires 0 <= i < |r| => Split(r[i].text, '\n'));
    forall i | 0 <= i < |g|
      ensures parts[i] == g[i]
      ensures r[i].text != "" && NoEdgeSpace(r[i].text)
      ensures r[i].sectionType == Header <==> '\n' !in r[i].text && StartsSection(ps, r[i].text)
    {
      GroupLinesFrom(g, i);
      GroupSection(g[i], ps);
    }
    assert parts == g;
  }

  /** What the sections of a text are, when there are patterns: each is
      non-empty, trimmed and a header or content; their lines, read in order,
      are exactly the stripped non-blank lines of the text; every section after
      the first opens with a section line and none has a section line further
      down; and a section is a header exactly when it is one section line. */
  lemma SplitSectionsMeaning(text: string, ps: seq<SectionPattern>)
    requires text != "" && ps != []
    ensures var r := SplitSections(text, Some(ps));
      && (forall i :: 0 <= i < |r| ==> r[i].text != "" && NoEdgeSpace(r[i].text) && r[i].sectionType != Full)
      && Flatten(seq(|r|, i requires 0 <= i < |r| => Split(r[i].text, '\n'))) == KeptLines(Split(text, '\n'), Strip)
      && (forall i :: 1 <= i < |r| ==> StartsSection(ps, Split(r[i].text, '\n')[0]))
      && (forall i, j :: 0 <= i < |r| && 1 <= j < |Split(r[i].text, '\n')| ==>
            !StartsSection(ps, Split(r[i].text, '\n')[j]))
      && (forall i :: 0 <= i < |r| ==>
            (r[i].sectionType == Header <==> '\n' !in r[i].text && StartsSection(ps, r[i].text)))
  {
    var kept := KeptLines(Split(text, '\n'), Strip);
    KeptLinesOfSplit(text);
    KeptLinesTrimmed(Split(text, '\n'), Strip);
    SectionsOfPartition(Groups(kept, ps), kept, ps);
  }
}
