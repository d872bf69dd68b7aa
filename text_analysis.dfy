/** `TextAnalyzer.detect_content_type` (src/utils/processing/text.py): the
    first family of key phrases found in the lower-cased text names its kind. */
module TextAnalysis {
  import opened Wrappers
  import opened Strings

  /** The kinds `detect_content_type` returns, as the strings `"definition"`,
      `"penalty"`, `"procedure"`, `"exception"`, `"general"` and `"unknown"`. */
  datatype ContentType = Definition | Penalty | Procedure | Exception | General | Unknown

  const DefinitionPhrases: seq<string> := ["as used in", "means", "for purposes of"]
  const PenaltyPhrases: seq<string> := ["fine", "imprisonment", "penalty", "violation"]
  const ProcedurePhrases: seq<string> := ["shall", "must", "required to", "procedure"]
  const ExceptionPhrases: seq<string> := ["except", "unless", "provided that"]

  /** The families in the order they are tried. */
  const Families: seq<(seq<string>, ContentType)> := [
    (DefinitionPhrases, Definition), (PenaltyPhrases, Penalty),
    (ProcedurePhrases, Procedure), (ExceptionPhrases, Exception)
  ]

  /** Some phrase of `phrases` occurs in `s`. */
  ghost predicate SomeOccurs(s: string, phrases: seq<string>) {
    exists i :: 0 <= i < |phrases| && Contains(s, phrases[i])
  }

  /** `any(phrase in s for phrase in phrases)`. */
  function AnyIn(s: string, phrases: seq<string>): (b: bool)
    ensures b <==> SomeOccurs(s, phrases)
    decreases |phrases|
  {
    if phrases == [] then false
    else if Find(s, phrases[0]).Some? then true
    else
      var b := AnyIn(s, phrases[1..]);
      assert SomeOccurs(s, phrases[1..]) ==> SomeOccurs(s, phrases) by {
        if SomeOccurs(s, phrases[1..]) {
          var i :| 0 <= i < |phrases[1..]| && Contains(s, phrases[1..][i]);
          assert phrases[1..][i] == phrases[i + 1];
        }
      }
      assert SomeOccurs(s, phrases) ==> SomeOccurs(s, phrases[1..]) by {
        if SomeOccurs(s, phrases) {
          var i :| 0 <= i < |phrases| && Contains(s, phrases[i]);
          assert i != 0;
          assert phrases[1..][i - 1] == phrases[i];
        }
      }
      b
  }

  /** The kind of the first family with a phrase in `s`. */
  function FirstFamily(s: string, families: seq<(seq<string>, ContentType)>): (r: Option<ContentType>)
    ensures r.Some? <==> exists i :: 0 <= i < |families| && SomeOccurs(s, families[i].0)
    ensures r.Some? ==> exists i :: (0 <= i < |families| && SomeOccurs(s, families[i].0) && r.value == families[i].1
                                    && forall j :: 0 <= j < i ==> !SomeOccurs(s, families[j].0))
    decreases |families|
  {
    if families == [] then None
    else if AnyIn(s, families[0].0) then Some(families[0].1)
    else
      var r := FirstFamily(s, families[1..]);
      assert forall i :: 1 <= i < |families| ==> families[1..][i - 1] == families[i];
      r
  }

  /** `detect_content_type`. */
  function DetectContentType(text: string): (r: ContentType)
    ensures r == Unknown <==> text == ""
  {
    if text == "" then Unknown
    else
      match FirstFamily(Lower(text), Families)
      case Some(kind) => kind
      case None => General
  }

  // ---------------------------------------------------------------------------
  // Properties

  /** The families, by position. */
  lemma FamiliesListed()
    ensures |Families| == 4
    ensures Families[0] == (DefinitionPhrases, Definition) && Families[1] == (PenaltyPhrases, Penalty)
    ensures Families[2] == (ProcedurePhrases, Procedure) && Families[3] == (ExceptionPhrases, Exception)
  {
  }

  /** With four families of distinct kinds, the first family with a hit is
      found, and its kind means that no earlier family has one. */
  lemma {:induction false} FirstOfFour(s: string, fs: seq<(seq<string>, ContentType)>)
    requires |fs| == 4
    requires fs[0].1 == Definition && fs[1].1 == Penalty && fs[2].1 == Procedure && fs[3].1 == Exception
    ensures FirstFamily(s, fs) == Some(Definition) <==> SomeOccurs(s, fs[0].0)
    ensures FirstFamily(s, fs) == Some(Penalty) <==> !SomeOccurs(s, fs[0].0) && SomeOccurs(s, fs[1].0)
    ensures FirstFamily(s, fs) == Some(Procedure) <==>
      !SomeOccurs(s, fs[0].0) && !SomeOccurs(s, fs[1].0) && SomeOccurs(s, fs[2].0)
    ensures FirstFamily(s, fs) == Some(Exception) <==>
      !SomeOccurs(s, fs[0].0) && !SomeOccurs(s, fs[1].0) && !SomeOccurs(s, fs[2].0) && SomeOccurs(s, fs[3].0)
    ensures FirstFamily(s, fs).None? <==>
      !SomeOccurs(s, fs[0].0) && !SomeOccurs(s, fs[1].0) && !SomeOccurs(s, fs[2].0) && !SomeOccurs(s, fs[3].0)
  {
    var r := FirstFamily(s, fs);
    if r.Some? {
      var i :| 0 <= i < |fs| && SomeOccurs(s, fs[i].0) && r.value == fs[i].1
        && forall j :: 0 <= j < i ==> !SomeOccurs(s, fs[j].0);
    } else {
      assert forall i :: 0 <= i < 4 ==> !SomeOccurs(s, fs[i].0);
    }
  }

  /** What each answer means: `"unknown"` exactly for empty text, otherwise the
      first of the families (definition, penalty, procedure, exception) with a
      phrase in the lower-cased text, and `"general"` when none has one. */
  lemma DetectContentTypeMeaning(text: string)
    ensures DetectContentType(text) == Unknown <==> text == ""
    ensures DetectContentType(text) == Definition <==>
      text != "" && SomeOccurs(Lower(text), DefinitionPhrases)
    ensures DetectContentType(text) == Penalty <==>
      text != "" && !SomeOccurs(Lower(text), DefinitionPhrases) && SomeOccurs(Lower(text), PenaltyPhrases)
    ensures DetectContentType(text) == Procedure <==>
      text != "" && !SomeOccurs(Lower(text), DefinitionPhrases) && !SomeOccurs(Lower(text), PenaltyPhrases)
      && SomeOccurs(Lower(text), ProcedurePhrases)
    ensures DetectContentType(text) == Exception <==>
      text != "" && !SomeOccurs(Lower(text), DefinitionPhrases) && !SomeOccurs(Lower(text), PenaltyPhrases)
      && !SomeOccurs(Lower(text), ProcedurePhrases) && SomeOccurs(Lower(text), ExceptionPhrases)
    ensures DetectContentType(text) == General <==>
      text != "" && !SomeOccurs(Lower(text), DefinitionPhrases) && !SomeOccurs(Lower(text), PenaltyPhrases)
      && !SomeOccurs(Lower(text), ProcedurePhrases) && !SomeOccurs(Lower(text), ExceptionPhrases)
  {
    FamiliesListed();
    FirstOfFour(Lower(text), Families);
  }

  /** The phrases are matched without regard to ASCII case: upper-casing or
      lower-casing the text does not change its kind. */
  lemma DetectIgnoresCase(text: string)
    ensures DetectContentType(Upper(text)) == DetectContentType(text)
    ensures DetectContentType(Lower(text)) == DetectContentType(text)
  {
    CaseRoundTrips(text);
    LowerIdempotent(text);
  }

  /** Lower-casing twice is lower-casing once. */
  lemma LowerIdempotent(s: string)
    ensures Lower(Lower(s)) == Lower(s)
  {
    forall i | 0 <= i < |s|
      ensures Lower(Lower(s))[i] == Lower(s)[i]
    {
    }
  }
}
