/** `TextProcessor.clean_text` (src/utils/processing/text.py) on string input:
    the replacement dictionary applied item by item, `<[^>]+>` removal,
    whitespace collapse and a final strip. */
module TextCleaning {
  import opened Wrappers
  import opened Strings
  import opened Matching

  // ---------------------------------------------------------------------------
  // Replacement dictionaries

  /** A replacement dictionary: its `(old, new)` items in insertion order. */
  type Replacements = seq<(string, string)>

  /** `d.get(k)`. */
  function Lookup(d: Replacements, k: string): Option<string>
    decreases |d|
  {
    if d == [] then None
    else if d[0].0 == k then Some(d[0].1)
    else Lookup(d[1..], k)
  }

  /** `d[k] = v`: a key already present keeps its position and takes the new
      value; a new key goes at the end. */
  function Set(d: Replacements, k: string, v: string): (r: Replacements)
    ensures Lookup(r, k) == Some(v)
    ensures forall k' :: k' != k ==> Lookup(r, k') == Lookup(d, k')
    ensures |d| <= |r| && forall i :: 0 <= i < |d| ==> r[i].0 == d[i].0
    ensures forall i :: 0 <= i < |r| ==> r[i] == (k, v) || r[i] in d
    decreases |d|
  {
    if d == [] then [(k, v)]
    else if d[0].0 == k then [(k, v)] + d[1..]
    else [d[0]] + Set(d[1..], k, v)
  }

  /** `d.update(e)`, and also the value of a dictionary literal: the items of
      `e` set one after another. */
  function Update(d: Replacements, e: Replacements): (r: Replacements)
    ensures |d| <= |r| && forall i :: 0 <= i < |d| ==> r[i].0 == d[i].0
    ensures forall i :: 0 <= i < |r| ==> r[i] in d || r[i] in e
    decreases |e|
  {
    if e == [] then d
    else
      var d' := Set(d, e[0].0, e[0].1);
      var r := Update(d', e[1..]);
      assert forall i :: 0 <= i < |r| ==> r[i] in d || r[i] in e by {
        forall i | 0 <= i < |r|
          ensures r[i] in d || r[i] in e
        {
          if r[i] !in e[1..] {
            assert r[i] in d';
            assert e[0] in e;
          }
        }
      }
      r
  }

  /** The keys of `d`, in order, are distinct. */
  predicate UniqueKeys(d: Replacements) {
    forall i, j :: 0 <= i < j < |d| ==> d[i].0 != d[j].0
  }

  /** After an update, a key bound by `e` has the value `e` gives it last, and
      every other key keeps its value from `d`. */
  lemma {:induction false} UpdateLookup(d: Replacements, e: Replacements, k: string)
    ensures Lookup(Update(d, e), k) ==
      if Lookup(Update([], e), k).Some? then Lookup(Update([], e), k) else Lookup(d, k)
    decreases |e|
  {
    if e != [] {
      UpdateLookup(Set(d, e[0].0, e[0].1), e[1..], k);
      UpdateLookup(Set([], e[0].0, e[0].1), e[1..], k);
    }
  }

  /** No item of `d` has key `k`. */
  predicate FreshKey(d: Replacements, k: string) {
    forall x :: x in d ==> x.0 != k
  }

  /** Updating with items whose keys are distinct and new appends them. */
  lemma {:induction false} UpdateFresh(d: Replacements, e: Replacements)
    requires UniqueKeys(e)
    requires forall i :: 0 <= i < |e| ==> FreshKey(d, e[i].0)
    ensures Update(d, e) == d + e
    decreases |e|
  {
    if e != [] {
      SetFresh(d, e[0].0, e[0].1);
      FreshAfterFirst(d, e);
      UpdateFresh(d + [e[0]], e[1..]);
      AppendFirst(d, e);
    }
  }

  /** The conditions of `UpdateFresh` carry over to the remaining items once
      the first is appended. */
  lemma FreshAfterFirst(d: Replacements, e: Replacements)
    requires e != [] && UniqueKeys(e)
    requires forall i :: 0 <= i < |e| ==> FreshKey(d, e[i].0)
    ensures UniqueKeys(e[1..])
    ensures forall i :: 0 <= i < |e[1..]| ==> FreshKey(d + [e[0]], e[1..][i].0)
  {
    UniqueKeysTail(e);
    forall i | 0 <= i < |e[1..]|
      ensures FreshKey(d + [e[0]], e[1..][i].0)
    {
      assert e[1..][i] == e[i + 1];
      FreshKeyExtend(d, e[0], e[i + 1].0);
    }
  }

  lemma FreshKeyExtend(d: Replacements, p: (string, string), k: string)
    requires FreshKey(d, k) && p.0 != k
    ensures FreshKey(d + [p], k)
  {
  }

  lemma UniqueKeysTail(e: Replacements)
    requires e != [] && UniqueKeys(e)
    ensures UniqueKeys(e[1..])
  {
    forall i, j | 0 <= i < j < |e[1..]|
      ensures e[1..][i].0 != e[1..][j].0
    {
      assert e[1..][i] == e[i + 1] && e[1..][j] == e[j + 1];
    }
  }

  lemma {:induction false} SetFresh(d: Replacements, k: string, v: string)
    requires FreshKey(d, k)
    ensures Set(d, k, v) == d + [(k, v)]
    decreases |d|
  {
    if d != [] {
      assert d[0] in d;
      assert FreshKey(d[1..], k) by {
        forall x | x in d[1..] ensures x.0 != k { assert x in d; }
      }
      SetFresh(d[1..], k, v);
      assert [d[0]] + (d[1..] + [(k, v)]) == d + [(k, v)];
    }
  }

  /** Updating with the concatenation of two item lists is updating twice. */
  lemma {:induction false} UpdateAppend(d: Replacements, e1: Replacements, e2: Replacements)
    ensures Update(d, e1 + e2) == Update(Update(d, e1), e2)
    decreases |e1|
  {
    if e1 == [] {
      assert e1 + e2 == e2;
    } else {
      assert (e1 + e2)[0] == e1[0] && (e1 + e2)[1..] == e1[1..] + e2;
      UpdateAppend(Set(d, e1[0].0, e1[0].1), e1[1..], e2);
    }
  }

  // ---------------------------------------------------------------------------
  // The replacement table of clean_text

  /** The entries of `DEFAULT_REPLACEMENTS` whose characters are known: no-break
      space, carriage return, newline and tab become a space, em and en dash a
      hyphen. */
  const KnownDefaults: Replacements := [
    ("\U{A0}", " "), ("\r", " "), ("\n", " "), ("\t", " "), ("\U{2014}", "-"), ("\U{2013}", "-")]

  /** The single characters those entries remove, in the same order. */
  const KnownChars: seq<char> := ['\U{A0}', '\r', '\n', '\t', '\U{2014}', '\U{2013}']

  /** `DEFAULT_REPLACEMENTS`: the known entries followed by the quotation-mark
      entries, which are a parameter of the model. */
  function DefaultTable(quotes: Replacements): Replacements {
    Update(KnownDefaults, quotes)
  }

  /** `DefaultTable` is the value of the dictionary literal: the known entries
      have distinct keys, so setting them into the empty dictionary lists them
      in order. */
  lemma DefaultTableIsLiteral(quotes: Replacements)
    ensures Update([], KnownDefaults + quotes) == DefaultTable(quotes)
  {
    KnownKeysDistinct();
    UpdateAppend([], KnownDefaults, quotes);
    UpdateFresh([], KnownDefaults);
    assert [] + KnownDefaults == KnownDefaults;
  }

  lemma KnownKeysDistinct()
    ensures UniqueKeys(KnownDefaults)
    ensures forall i :: 0 <= i < |KnownDefaults| ==> FreshKey([], KnownDefaults[i].0)
  {
  }

  /** `replacements = DEFAULT_REPLACEMENTS.copy()`, then
      `replacements.update(custom_replacements)` when that is non-empty. */
  function ReplacementTable(quotes: Replacements, custom: Option<Replacements>): Replacements {
    if custom.Some? && custom.value != [] then Update(DefaultTable(quotes), custom.value)
    else DefaultTable(quotes)
  }

  /** A custom entry overrides the default for the same key; every other key
      keeps its default; and the default keys keep their places in the order
      the replacements run. */
  lemma CustomOverridesDefault(quotes: Replacements, custom: Replacements, k: string)
    requires UniqueKeys(custom)
    ensures Lookup(ReplacementTable(quotes, Some(custom)), k) ==
      if Lookup(custom, k).Some? then Lookup(custom, k) else Lookup(DefaultTable(quotes), k)
    ensures var t := ReplacementTable(quotes, Some(custom));
      |DefaultTable(quotes)| <= |t| && forall i :: 0 <= i < |DefaultTable(quotes)| ==> t[i].0 == DefaultTable(quotes)[i].0
  {
    UpdateFresh([], custom);
    assert [] + custom == custom;
    UpdateLookup(DefaultTable(quotes), custom, k);
  }

  // ---------------------------------------------------------------------------
  // The replacement loop

  /** Every item applied in order with `str.replace`. */
  function ApplyAll(s: string, d: Replacements): string
    decreases |d|
  {
    if d == [] then s else ApplyAll(ReplaceAll(s, d[0].0, d[0].1), d[1..])
  }

  /** A character that is absent, and that no replacement brings in, stays absent. */
  lemma {:induction false} ApplyKeepsAbsent(s: string, d: Replacements, c: char)
    requires c !in s
    requires forall i :: 0 <= i < |d| ==> c !in d[i].1
    ensures c !in ApplyAll(s, d)
    decreases |d|
  {
    if d != [] {
      ApplyKeepsAbsent(ReplaceAll(s, d[0].0, d[0].1), d[1..], c);
    }
  }

  /** A character that is a key of the table, where no replacement brings it
      in, does not survive the loop. */
  lemma {:induction false} ApplyRemoves(s: string, d: Replacements, c: char, j: nat)
    requires j < |d| && d[j].0 == [c]
    requires forall i :: 0 <= i < |d| ==> c !in d[i].1
    ensures c !in ApplyAll(s, d)
    decreases |d|
  {
    if j == 0 {
      ReplaceCharRemoves(s, c, d[0].1);
      ApplyKeepsAbsent(ReplaceAll(s, [c], d[0].1), d[1..], c);
    } else {
      ApplyRemoves(ReplaceAll(s, d[0].0, d[0].1), d[1..], c, j - 1);
    }
  }

  /** `for old_char, new_char in replacements.items(): text = text.replace(...)`. */
  method ApplyReplacements(text: string, d: Replacements) returns (r: string)
    ensures r == ApplyAll(text, d)
  {
    r := text;
    var i := 0;
    assert d[0..] == d;
    while i < |d|
      invariant 0 <= i <= |d|
      invariant ApplyAll(text, d) == ApplyAll(r, d[i..])
    {
      assert d[i..][0] == d[i] && d[i..][1..] == d[i + 1..];
      r := ReplaceAll(r, d[i].0, d[i].1);
      i := i + 1;
    }
    assert d[i..] == [];
  }

  // ---------------------------------------------------------------------------
  // re.sub(r'<[^>]+>', '', text)

  /** `<[^>]+>` matches at index `i`: a `<`, then a character other than `>`,
      then a `>` somewhere after it. */
  predicate TagAt(s: string, i: nat) {
    i + 1 < |s| && s[i] == '<' && s[i + 1] != '>' && exists q :: i + 2 <= q < |s| && s[q] == '>'
  }

  /** The pattern `<[^>]+>` matches nowhere in `s`. */
  predicate NoTagMatch(s: string) {
    forall i :: 0 <= i < |s| ==> !TagAt(s, i)
  }

  /** The substitution, left to right: a match runs from its `<` to the first
      `>` after it (the greedy `[^>]+` cannot pass a `>`) and is dropped;
      elsewhere the character is kept. */
  function StripTags(s: string): (r: string)
    ensures forall c :: c in r ==> c in s
    decreases |s|
  {
    if s == [] then []
    else if TagAt(s, 0) then
      var q := IndexOfFrom(s, '>', 2);
      assert q.Some?;
      StripTags(s[q.value + 1..])
    else [s[0]] + StripTags(s[1..])
  }

  lemma TagAtShift(c: char, t: string, i: nat)
    ensures TagAt([c] + t, i + 1) <==> TagAt(t, i)
  {
    var r := [c] + t;
    assert forall q :: 0 <= q < |t| ==> r[q + 1] == t[q];
    if TagAt(t, i) {
      var q :| i + 2 <= q < |t| && t[q] == '>';
      assert r[q + 1] == '>';
    }
    if TagAt(r, i + 1) {
      var q :| i + 3 <= q < |r| && r[q] == '>';
      assert t[q - 1] == '>';
    }
  }

  /** A match inside a slice is a match of the whole string. */
  lemma NoTagMatchSlice(s: string, a: nat, b: nat)
    requires a <= b <= |s| && NoTagMatch(s)
    ensures NoTagMatch(s[a..b])
  {
    var p := s[a..b];
    forall i | 0 <= i < |p|
      ensures TagAt(p, i) ==> TagAt(s, a + i)
    {
      if TagAt(p, i) {
        var q :| i + 2 <= q < |p| && p[q] == '>';
        assert s[a + q] == '>';
      }
    }
  }

  /** Whatever follows `<` in the result of a scan that kept it: when the
      source has a `>` right after it, so does the result; when the source has
      no `>` after it at all, neither has the result. */
  lemma KeptOpenIsNoTag(s: string, t: string)
    requires |s| >= 1 && s[0] == '<' && !TagAt(s, 0)
    requires forall c :: c in t ==> c in s[1..] || c == ' '
    requires |s| >= 2 && s[1] == '>' ==> |t| >= 1 && t[0] == '>'
    requires |s| < 2 ==> t == []
    ensures !TagAt([s[0]] + t, 0)
  {
    var r := [s[0]] + t;
    if |s| >= 2 && s[1] != '>' {
      assert forall k :: 2 <= k < |s| ==> s[k] != '>';
      assert '>' !in s[1..];
      assert forall q :: 1 <= q < |r| ==> r[q] == t[q - 1] && t[q - 1] in t;
    }
  }

  /** Removal leaves no match behind: nothing the scan keeps starts a tag. */
  lemma {:induction false} StripTagsLeavesNoTag(s: string)
    ensures NoTagMatch(StripTags(s))
    decreases |s|
  {
    if s != [] {
      if TagAt(s, 0) {
        var q := IndexOfFrom(s, '>', 2);
        StripTagsLeavesNoTag(s[q.value + 1..]);
      } else {
        var t := StripTags(s[1..]);
        StripTagsLeavesNoTag(s[1..]);
        var r := [s[0]] + t;
        assert r == StripTags(s);
        forall i | 0 <= i < |r|
          ensures !TagAt(r, i)
        {
          if i == 0 {
            if s[0] == '<' {
              if |s| >= 2 && s[1] == '>' {
                assert !TagAt(s[1..], 0);
                assert s[1..][0] == '>';
              }
              KeptOpenIsNoTag(s, t);
            }
          } else {
            TagAtShift(s[0], t, i - 1);
          }
        }
      }
    }
  }

  /** Collapsing whitespace creates no match: `<` and `>` are not whitespace. */
  lemma {:induction false} CollapseKeepsNoTag(s: string)
    requires NoTagMatch(s)
    ensures NoTagMatch(CollapseSpaces(s))
    decreases |s|
  {
    if s != [] {
      var r := CollapseSpaces(s);
      if IsSpace(s[0]) {
        var l := LStrip(s);
        NoTagMatchSlice(s, |s| - |l|, |s|);
        assert s[|s| - |l|..|s|] == l;
        CollapseKeepsNoTag(l);
        var t := CollapseSpaces(l);
        assert r == [' '] + t;
        forall i | 1 <= i < |r|
          ensures !TagAt(r, i)
        {
          TagAtShift(' ', t, i - 1);
        }
      } else {
        NoTagMatchSlice(s, 1, |s|);
        assert s[1..|s|] == s[1..];
        CollapseKeepsNoTag(s[1..]);
        var t := CollapseSpaces(s[1..]);
        assert r == [s[0]] + t;
        forall i | 0 <= i < |r|
          ensures !TagAt(r, i)
        {
          if i == 0 {
            if s[0] == '<' {
              if |s| >= 2 && s[1] == '>' {
                assert s[1..][0] == '>' && !IsSpace('>');
              }
              KeptOpenIsNoTag(s, t);
            }
          } else {
            TagAtShift(s[0], t, i - 1);
          }
        }
      }
    }
  }

  /** Stripping creates no match: it keeps a slice. */
  lemma StripKeepsNoTag(s: string)
    requires NoTagMatch(s)
    ensures NoTagMatch(Strip(s))
  {
    NoTagMatchSlice(s, SpaceRunEnd(s, 0), StripEnd(s));
  }

  // ---------------------------------------------------------------------------
  // clean_text

  /** What `clean_text` returns: `""` for `None`; otherwise the replacement
      loop, then (when asked) tag removal and whitespace collapse, then `strip`. */
  function CleanedText(element: Option<string>, quotes: Replacements, normalizeWhitespace: bool,
                       removeHtml: bool, custom: Option<Replacements>): string
  {
    if element.None? then ""
    else
      var replaced := ApplyAll(element.value, ReplacementTable(quotes, custom));
      var untagged := if removeHtml then StripTags(replaced) else replaced;
      var spaced := if normalizeWhitespace then CollapseSpaces(untagged) else untagged;
      Strip(spaced)
  }

  /** `clean_text` on a string (or `None`). */
  method CleanText(element: Option<string>, quotes: Replacements, normalizeWhitespace: bool,
                   removeHtml: bool, custom: Option<Replacements>) returns (r: string)
    ensures r == CleanedText(element, quotes, normalizeWhitespace, removeHtml, custom)
    ensures element.None? ==> r == ""
    ensures normalizeWhitespace ==> Normalized(r)
    ensures removeHtml ==> NoTagMatch(r)
  {
    if element.None? {
      return "";
    }
    var text := ApplyReplacements(element.value, ReplacementTable(quotes, custom));
    if removeHtml {
      text := StripTags(text);
    }
    if normalizeWhitespace {
      text := CollapseSpaces(text);
    }
    r := Strip(text);
    if normalizeWhitespace {
      CleanedTextNormalized(element, quotes, removeHtml, custom);
    }
    if removeHtml {
      CleanedTextHasNoTag(element, quotes, normalizeWhitespace, custom);
    }
  }

  /** With whitespace normalization the result is trimmed and its whitespace is
      single plain spaces. */
  lemma CleanedTextNormalized(element: Option<string>, quotes: Replacements, removeHtml: bool,
                              custom: Option<Replacements>)
    ensures Normalized(CleanedText(element, quotes, true, removeHtml, custom))
  {
    if element.Some? {
      var replaced := ApplyAll(element.value, ReplacementTable(quotes, custom));
      var untagged := if removeHtml then StripTags(replaced) else replaced;
      CollapseThenStripNormalized(untagged);
    }
  }

  /** With tag removal, `<[^>]+>` matches nowhere in the result. */
  lemma CleanedTextHasNoTag(element: Option<string>, quotes: Replacements, normalizeWhitespace: bool,
                            custom: Option<Replacements>)
    ensures NoTagMatch(CleanedText(element, quotes, normalizeWhitespace, true, custom))
  {
    if element.Some? {
      var untagged := StripTags(ApplyAll(element.value, ReplacementTable(quotes, custom)));
      StripTagsLeavesNoTag(ApplyAll(element.value, ReplacementTable(quotes, custom)));
      if normalizeWhitespace {
        CollapseKeepsNoTag(untagged);
        StripKeepsNoTag(CollapseSpaces(untagged));
      } else {
        StripKeepsNoTag(untagged);
      }
    }
  }

  /** No value of `d` contains `c`. */
  predicate ValuesAvoid(d: Replacements, c: char) {
    forall x :: x in d ==> c !in x.1
  }

  /** When neither the quotation-mark entries nor the custom ones contain `c`
      in a value, no value of the table does. */
  lemma TableValuesAvoid(quotes: Replacements, custom: Option<Replacements>, j: nat)
    requires j < |KnownChars|
    requires ValuesAvoid(quotes, KnownChars[j])
    requires custom.Some? ==> ValuesAvoid(custom.value, KnownChars[j])
    ensures ValuesAvoid(ReplacementTable(quotes, custom), KnownChars[j])
  {
    assert ValuesAvoid(KnownDefaults, KnownChars[j]);
  }

  /** The known characters are the keys of the known entries. */
  lemma KnownKeys(quotes: Replacements, custom: Option<Replacements>, j: nat)
    requires j < |KnownChars|
    ensures j < |ReplacementTable(quotes, custom)| && ReplacementTable(quotes, custom)[j].0 == [KnownChars[j]]
  {
    assert KnownDefaults[j].0 == [KnownChars[j]];
  }

  /** None of no-break space, carriage return, newline, tab, em dash and en
      dash survives, provided no quotation-mark or custom replacement brings it
      back (with no custom replacements only the first condition remains). */
  lemma CleanedTextDropsKnown(element: Option<string>, quotes: Replacements, normalizeWhitespace: bool,
                              removeHtml: bool, custom: Option<Replacements>, j: nat)
    requires j < |KnownChars|
    requires ValuesAvoid(quotes, KnownChars[j])
    requires custom.Some? ==> ValuesAvoid(custom.value, KnownChars[j])
    ensures KnownChars[j] !in CleanedText(element, quotes, normalizeWhitespace, removeHtml, custom)
  {
    if element.Some? {
      ReplacedDropsKnown(element.value, quotes, custom, j);
      KnownCharNotSpace(j);
      LaterStagesKeepOut(ApplyAll(element.value, ReplacementTable(quotes, custom)), normalizeWhitespace, removeHtml, KnownChars[j]);
      CleanedTextStages(element.value, quotes, normalizeWhitespace, removeHtml, custom);
    }
  }

  lemma KnownCharNotSpace(j: nat)
    requires j < |KnownChars|
    ensures KnownChars[j] != ' '
  {
  }

  /** `CleanedText` of a string is its three later stages applied to the
      replaced text. */
  lemma CleanedTextStages(s: string, quotes: Replacements, normalizeWhitespace: bool,
                          removeHtml: bool, custom: Option<Replacements>)
    ensures var replaced := ApplyAll(s, ReplacementTable(quotes, custom));
      var untagged := if removeHtml then StripTags(replaced) else replaced;
      var spaced := if normalizeWhitespace then CollapseSpaces(untagged) else untagged;
      CleanedText(Some(s), quotes, normalizeWhitespace, removeHtml, custom) == Strip(spaced)
  {
  }

  /** Tag removal, whitespace collapse and the strip bring in no character
      other than a space. */
  lemma LaterStagesKeepOut(replaced: string, normalizeWhitespace: bool, removeHtml: bool, c: char)
    requires c !in replaced && c != ' '
    ensures var untagged := if removeHtml then StripTags(replaced) else replaced;
      var spaced := if normalizeWhitespace then CollapseSpaces(untagged) else untagged;
      c !in Strip(spaced)
  {
    var untagged := if removeHtml then StripTags(replaced) else replaced;
    var spaced := if normalizeWhitespace then CollapseSpaces(untagged) else untagged;
    StripChars(spaced);
  }

  /** After the replacement step a known character is gone. */
  lemma ReplacedDropsKnown(s: string, quotes: Replacements, custom: Option<Replacements>, j: nat)
    requires j < |KnownChars|
    requires ValuesAvoid(quotes, KnownChars[j])
    requires custom.Some? ==> ValuesAvoid(custom.value, KnownChars[j])
    ensures KnownChars[j] !in ApplyAll(s, ReplacementTable(quotes, custom))
  {
    var c := KnownChars[j];
    var table := ReplacementTable(quotes, custom);
    TableValuesAvoid(quotes, custom, j);
    KnownKeys(quotes, custom, j);
    assert forall i :: 0 <= i < |table| ==> c !in table[i].1 by {
      assert forall i :: 0 <= i < |table| ==> table[i] in table;
    }
    ApplyRemoves(s, table, c, j);
  }

}
