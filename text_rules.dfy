/** `TextProcessor.clean_jurisdiction_specific` (src/utils/processing/text.py):
    the built-in replacement and removal rules of three jurisdictions, then the
    caller's rules, then `clean_text` with its defaults. */
module TextRules {
  import opened Wrappers
  import opened Strings
  import opened Matching
  import opened TextCleaning

  /** `re.sub(pattern, '', text, flags=re.IGNORECASE)` for one pattern. The
      caller's patterns stay opaque functions of this type. */
  type Remover = string -> string

  /** A rule set: the `"replacements"` entry (in dictionary order) and the
      `"patterns_to_remove"` entry, each possibly absent. */
  datatype Rules = Rules(replacements: Option<Replacements>, patternsToRemove: Option<seq<Remover>>)

  // ---------------------------------------------------------------------------
  // The built-in removal patterns

  /** `<opening>\d+.*?<close>` (or `<opening>.*?<close>` without `digits`),
      with `opening` in lower case: the opening text, then (when asked) a run of
      digits, then everything up to and including the first `close`, on the
      same line. The whole match is reported. */
  function NoteAt(opening: string, digits: bool, close: char, t: string): (r: Option<(nat, nat)>)
    ensures r.Some? ==> CaselessAt(t, 0, opening) && r.value.0 == 0 < r.value.1 <= |t| && t[r.value.1 - 1] == close
  {
    if !CaselessAt(t, 0, opening) then None
    else
      var d := if digits then DigitRunEnd(t, |opening|) else |opening|;
      if digits && d == |opening| then None
      else
        match LazyClose(t, d, close)
        case None => None
        case Some(e) => Some((0, e))
  }

  function Note(opening: string, digits: bool, close: char): Anchored {
    t => NoteAt(opening, digits, close, t)
  }

  /** Every match of a matcher removed. */
  function Remove(m: Anchored): Remover {
    s => RemoveMatches(m, s)
  }

  /** `\[Added by Laws \d+.*?\]` */
  const ArizonaNote := Note("[added by laws ", true, ']')
  /** `\(Added by Stats\. \d+.*?\)` */
  const CaliforniaNote := Note("(added by stats. ", true, ')')
  /** `\[Source:.*?\]` */
  const FederalNote := Note("[source:", false, ']')

  /** The rule sets of the three known jurisdictions. */
  function JurisdictionRules(jurisdiction: string): (r: Option<Rules>)
    ensures r.Some? <==> jurisdiction == "az" || jurisdiction == "ca" || jurisdiction == "federal"
  {
    if jurisdiction == "az" then
      Some(Rules(Some([("A.R.S.", "Arizona Revised Statutes"), ("Ch.", "Chapter")]), Some([Remove(ArizonaNote)])))
    else if jurisdiction == "ca" then
      Some(Rules(Some([("Cal.", "California"), ("Gov. Code", "Government Code")]), Some([Remove(CaliforniaNote)])))
    else if jurisdiction == "federal" then
      Some(Rules(Some([("U.S.C.", "United States Code"), ("C.F.R.", "Code of Federal Regulations")]),
                 Some([Remove(FederalNote)])))
    else None
  }

  // ---------------------------------------------------------------------------
  // Applying rules

  /** Each removal applied in order. */
  function RemoveAll(s: string, removers: seq<Remover>): string
    decreases |removers|
  {
    if removers == [] then s else RemoveAll(removers[0](s), removers[1..])
  }

  /** A rule set: its replacements in order, then its removals in order. */
  function AppliedRules(text: string, rules: Rules): string {
    var replaced := if rules.replacements.Some? then ApplyAll(text, rules.replacements.value) else text;
    if rules.patternsToRemove.Some? then RemoveAll(replaced, rules.patternsToRemove.value) else replaced
  }

  /** What `clean_jurisdiction_specific` returns: `""` for empty text;
      otherwise the jurisdiction's rules (if it is known), then the caller's
      rules (if any), then `clean_text` with whitespace normalisation and tag
      removal and no custom replacements. `None` stands for a missing or empty
      dictionary of the caller's, which the source skips alike. */
  function CleanedForJurisdiction(text: string, jurisdiction: string, custom: Option<Rules>,
                                  quotes: Replacements): string
  {
    if text == "" then ""
    else
      var known := if JurisdictionRules(jurisdiction).Some? then AppliedRules(text, JurisdictionRules(jurisdiction).value) else text;
      var customized := if custom.Some? then AppliedRules(known, custom.value) else known;
      CleanedText(Some(customized), quotes, true, true, None)
  }

  /** The removal loop. */
  method RemovePatterns(text: string, removers: seq<Remover>) returns (r: string)
    ensures r == RemoveAll(text, removers)
  {
    r := text;
    var i := 0;
    assert removers[0..] == removers;
    while i < |removers|
      invariant 0 <= i <= |removers|
      invariant RemoveAll(text, removers) == RemoveAll(r, removers[i..])
    {
      assert removers[i..][0] == removers[i] && removers[i..][1..] == removers[i + 1..];
      r := removers[i](r);
      i := i + 1;
    }
    assert removers[i..] == [];
  }

  /** One rule set, as the two loops of the source apply it. */
  method ApplyRules(text: string, rules: Rules) returns (r: string)
    ensures r == AppliedRules(text, rules)
  {
    r := text;
    if rules.replacements.Some? {
      r := ApplyReplacements(r, rules.replacements.value);
    }
    if rules.patternsToRemove.Some? {
      r := RemovePatterns(r, rules.patternsToRemove.value);
    }
  }

  /** `clean_jurisdiction_specific`: the text as `CleanedForJurisdiction`
      describes it, which is trimmed, has single plain spaces and holds no
      `<[^>]+>` match. */
  method CleanJurisdictionSpecific(text: string, jurisdiction: string, custom: Option<Rules>,
                                   quotes: Replacements) returns (r: string)
    ensures r == CleanedForJurisdiction(text, jurisdiction, custom, quotes)
    ensures text == "" ==> r == ""
    ensures Normalized(r) && NoTagMatch(r)
  {
    if text == "" {
      return "";
    }
    var t := text;
    var rules := JurisdictionRules(jurisdiction);
    if rules.Some? {
      t := ApplyRules(t, rules.value);
    }
    if custom.Some? {
      t := ApplyRules(t, custom.value);
    }
    r := CleanText(Some(t), quotes, true, true, None);
  }

  // ---------------------------------------------------------------------------
  // Properties

  /** Whatever the rules, the result is trimmed, its whitespace is single
      plain spaces and no tag pattern matches in it. */
  lemma CleanedForJurisdictionNormalized(text: string, jurisdiction: string, custom: Option<Rules>,
                                         quotes: Replacements)
    ensures Normalized(CleanedForJurisdiction(text, jurisdiction, custom, quotes))
    ensures NoTagMatch(CleanedForJurisdiction(text, jurisdiction, custom, quotes))
  {
    if text != "" {
      var known := if JurisdictionRules(jurisdiction).Some? then AppliedRules(text, JurisdictionRules(jurisdiction).value) else text;
      var customized := if custom.Some? then AppliedRules(known, custom.value) else known;
      CleanedTextNormalized(Some(customized), quotes, true, None);
      CleanedTextHasNoTag(Some(customized), quotes, true, None);
    }
  }

  /** For a jurisdiction without built-in rules and no rules of the caller's,
      the result is `clean_text` of the text. */
  lemma UnknownJurisdictionIsCleanText(text: string, jurisdiction: string, quotes: Replacements)
    requires text != ""
    requires jurisdiction != "az" && jurisdiction != "ca" && jurisdiction != "federal"
    ensures CleanedForJurisdiction(text, jurisdiction, None, quotes) == CleanedText(Some(text), quotes, true, true, None)
  {
  }

  /** The caller's rules run after the built-in ones: with no built-in rules,
      they act on the text itself. */
  lemma CustomRulesAlone(text: string, jurisdiction: string, rules: Rules, quotes: Replacements)
    requires text != "" && JurisdictionRules(jurisdiction).None?
    ensures CleanedForJurisdiction(text, jurisdiction, Some(rules), quotes)
         == CleanedText(Some(AppliedRules(text, rules)), quotes, true, true, None)
  {
  }

  /** A position where nothing non-empty is matched keeps its character. */
  lemma RemoveKeepsFirst(m: Anchored, s: string)
    requires s != [] && (!Hits(m, s, 0) || m(s[0..]).value.1 == 0)
    ensures RemoveMatches(m, s) == [s[0]] + RemoveMatches(m, s[1..])
  {
    assert s[0..] == s;
  }

  /** `m` matches nowhere in `a`, followed by `b` (or only with empty spans). */
  ghost predicate NoneStartIn(m: Anchored, a: string, b: string) {
    forall k :: 0 <= k < |a| ==> !Hits(m, a + b, k) || m((a + b)[k..]).value.1 == 0
  }

  lemma NoneStartInTail(m: Anchored, a: string, b: string)
    requires a != [] && NoneStartIn(m, a, b)
    ensures NoneStartIn(m, a[1..], b)
    ensures !Hits(m, a + b, 0) || m((a + b)[0..]).value.1 == 0
  {
    var s := a + b;
    forall k | 0 <= k < |a[1..]|
      ensures !Hits(m, a[1..] + b, k) || m((a[1..] + b)[k..]).value.1 == 0
    {
      assert (a[1..] + b)[k..] == s[k + 1..];
    }
  }

  /** Where a matcher can start nowhere in `a` (with a non-empty match), the
      removal keeps `a` and carries on after it. */
  lemma {:induction false} RemoveKeepsPrefix(m: Anchored, a: string, b: string)
    requires NoneStartIn(m, a, b)
    ensures RemoveMatches(m, a + b) == a + RemoveMatches(m, b)
    decreases |a|
  {
    if a != [] {
      TailOfAppend(a, b);
      NoneStartInTail(m, a, b);
      calc {
        RemoveMatches(m, a + b);
        == { RemoveKeepsFirst(m, a + b); }
        [a[0]] + RemoveMatches(m, a[1..] + b);
        == { RemoveKeepsPrefix(m, a[1..], b); }
        [a[0]] + (a[1..] + RemoveMatches(m, b));
      }
    }
  }

  /** A note closing the text is removed and what comes before it is kept,
      when nothing before it opens a note. */
  lemma TrailingNoteRemoved(opening: string, digits: bool, close: char, before: string, note: string)
    requires opening != [] && forall k :: 0 <= k < |before| ==> ToLowerChar(before[k]) != opening[0]
    requires NoteAt(opening, digits, close, note) == Some((0, |note|))
    ensures RemoveMatches(Note(opening, digits, close), before + note) == before
  {
    var m := Note(opening, digits, close);
    var s := before + note;
    forall k | 0 <= k < |before|
      ensures !Hits(m, s, k)
    {
      var t := s[k..];
      if |opening| <= |t| {
        assert t[0] == before[k];
        assert Lower(t[0..|opening|])[0] == ToLowerChar(before[k]);
      }
      assert !CaselessAt(t, 0, opening);
    }
    RemoveKeepsPrefix(m, before, note);
    assert note[0..] == note && note[|note|..] == [];
    assert RemoveMatches(m, note) == RemoveMatches(m, []);
  }
}
