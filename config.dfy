/** `ScraperConfig` and `ConfigManager.create_custom_config`
    (src/utils/base/config.py): the per-scraper settings, the names derived from
    them and the list-of-errors validator. */
module Config {
  import opened Wrappers
  import opened Strings

  /** The dataclass. `delay_seconds` is a Python float; it is a `real` here. */
  datatype ScraperConfig = ScraperConfig(
    country: string,
    jurisdiction: string,
    corpus: string,
    baseUrl: string,
    tocUrl: string,
    skipTitle: int,
    reservedKeywords: seq<string>,
    delaySeconds: real,
    debugMode: bool,
    maxRetries: int,
    timeoutSeconds: int)

  /** `table_name`: the three path parts joined with underscores. */
  function TableName(c: ScraperConfig): string {
    c.country + "_" + c.jurisdiction + "_" + c.corpus
  }

  /** `corpus_id`: the identifier of the corpus node. */
  function CorpusId(c: ScraperConfig): string {
    c.country + "/" + c.jurisdiction + "/" + c.corpus
  }

  /** `display_name`: the jurisdiction in upper case, a space, and the corpus in
      title case; case aside, both keep their letters. */
  function DisplayName(c: ScraperConfig): (r: string)
    ensures |r| == |c.jurisdiction| + 1 + |c.corpus| && r[|c.jurisdiction|] == ' '
    ensures var j := r[..|c.jurisdiction|]; IsUpperCased(j) && Lower(j) == Lower(c.jurisdiction)
    ensures Lower(r[|c.jurisdiction| + 1..]) == Lower(c.corpus)
  {
    CaseRoundTrips(c.jurisdiction);
    assert (Upper(c.jurisdiction) + " " + Title(c.corpus))[..|c.jurisdiction|] == Upper(c.jurisdiction);
    assert (Upper(c.jurisdiction) + " " + Title(c.corpus))[|c.jurisdiction| + 1..] == Title(c.corpus);
    Upper(c.jurisdiction) + " " + Title(c.corpus)
  }

  /** When no part contains an underscore, the table name splits back into the
      country, the jurisdiction and the corpus, in that order. */
  lemma TableNameSplits(c: ScraperConfig)
    requires '_' !in c.country && '_' !in c.jurisdiction && '_' !in c.corpus
    ensures Split(TableName(c), '_') == [c.country, c.jurisdiction, c.corpus]
  {
    SplitNoSeparator(c.corpus, '_');
    SplitAtSeparator(c.jurisdiction, '_', c.corpus);
    assert c.jurisdiction + "_" + c.corpus == c.jurisdiction + ['_'] + c.corpus;
    SplitAtSeparator(c.country, '_', c.jurisdiction + "_" + c.corpus);
    assert TableName(c) == c.country + ['_'] + (c.jurisdiction + "_" + c.corpus);
  }

  /** When no part contains a slash, the corpus identifier splits back into its
      three segments, in order. */
  lemma CorpusIdSplits(c: ScraperConfig)
    requires '/' !in c.country && '/' !in c.jurisdiction && '/' !in c.corpus
    ensures Split(CorpusId(c), '/') == [c.country, c.jurisdiction, c.corpus]
  {
    SplitNoSeparator(c.corpus, '/');
    SplitAtSeparator(c.jurisdiction, '/', c.corpus);
    assert c.jurisdiction + "/" + c.corpus == c.jurisdiction + ['/'] + c.corpus;
    SplitAtSeparator(c.country, '/', c.jurisdiction + "/" + c.corpus);
    assert CorpusId(c) == c.country + ['/'] + (c.jurisdiction + "/" + c.corpus);
  }

  // ---------------------------------------------------------------------------
  // validate()

  const CountryRequired := "Country is required"
  const JurisdictionRequired := "Jurisdiction is required"
  const CorpusRequired := "Corpus is required"
  const BaseUrlRequired := "Base URL is required"
  const TocUrlRequired := "Table of Contents URL is required"
  const DelayNegative := "Delay seconds must be non-negative"
  const RetriesTooFew := "Max retries must be at least 1"
  const TimeoutTooShort := "Timeout seconds must be at least 1"

  /** The eight messages in the order the checks run. */
  const Messages: seq<string> := [CountryRequired, JurisdictionRequired, CorpusRequired,
    BaseUrlRequired, TocUrlRequired, DelayNegative, RetriesTooFew, TimeoutTooShort]

  /** Check number `k` (in `Messages` order) fails for `c`. */
  predicate CheckFails(c: ScraperConfig, k: nat)
    requires k < 8
  {
    match k
    case 0 => c.country == ""
    case 1 => c.jurisdiction == ""
    case 2 => c.corpus == ""
    case 3 => c.baseUrl == ""
    case 4 => c.tocUrl == ""
    case 5 => c.delaySeconds < 0.0
    case 6 => c.maxRetries < 1
    case _ => c.timeoutSeconds < 1
  }

  /** The configuration passes every check. */
  predicate IsValid(c: ScraperConfig) {
    && c.country != "" && c.jurisdiction != "" && c.corpus != ""
    && c.baseUrl != "" && c.tocUrl != ""
    && c.delaySeconds >= 0.0 && c.maxRetries >= 1 && c.timeoutSeconds >= 1
  }

  /** The eight messages are distinct, so each failing check is recognisable
      in the list. */
  lemma MessagesDistinct()
    ensures forall i, j :: 0 <= i < j < 8 ==> Messages[i] != Messages[j]
  {
  }

  /** The failing checks among the first `n`, in check order. */
  ghost function FailingChecks(c: ScraperConfig, n: nat): seq<nat>
    requires n <= 8
  {
    if n == 0 then []
    else FailingChecks(c, n - 1) + (if CheckFails(c, n - 1) then [n - 1] else [])
  }

  /** The messages of the failing checks among the first `n`, in check order. */
  ghost function FailingMessages(c: ScraperConfig, n: nat): seq<string>
    requires n <= 8
  {
    if n == 0 then []
    else FailingMessages(c, n - 1) + (if CheckFails(c, n - 1) then [Messages[n - 1]] else [])
  }

  /** Message `i` belongs to failing check `i`. */
  lemma {:induction false} FailingMessagesMatch(c: ScraperConfig, n: nat)
    requires n <= 8
    ensures |FailingMessages(c, n)| == |FailingChecks(c, n)|
    ensures forall i :: 0 <= i < |FailingChecks(c, n)| ==>
      FailingChecks(c, n)[i] < 8 && FailingMessages(c, n)[i] == Messages[FailingChecks(c, n)[i]]
  {
    if n > 0 { FailingMessagesMatch(c, n - 1); }
  }

  /** The failing checks are listed once each, in increasing order, and are
      exactly the checks that fail. */
  lemma {:induction false} FailingChecksExact(c: ScraperConfig, n: nat)
    requires n <= 8
    ensures |FailingChecks(c, n)| <= n
    ensures forall i :: 0 <= i < |FailingChecks(c, n)| ==> FailingChecks(c, n)[i] < n
    ensures forall i, j :: 0 <= i < j < |FailingChecks(c, n)| ==> FailingChecks(c, n)[i] < FailingChecks(c, n)[j]
    ensures forall k: nat :: k < n ==> (k in FailingChecks(c, n) <==> CheckFails(c, k))
  {
    if n > 0 {
      FailingChecksExact(c, n - 1);
      var p := FailingChecks(c, n - 1);
      if CheckFails(c, n - 1) {
        assert FailingChecks(c, n) == p + [n - 1];
      } else {
        assert FailingChecks(c, n) == p;
      }
    }
  }

  /** The report of all eight checks: empty exactly for a valid configuration,
      and one message per failing check, in check order. */
  lemma FailingReportComplete(c: ScraperConfig)
    ensures FailingMessages(c, 8) == [] <==> IsValid(c)
    ensures |FailingChecks(c, 8)| == |FailingMessages(c, 8)| <= 8
    ensures forall i :: 0 <= i < |FailingMessages(c, 8)| ==>
      FailingChecks(c, 8)[i] < 8 && FailingMessages(c, 8)[i] == Messages[FailingChecks(c, 8)[i]]
    ensures forall i, j :: 0 <= i < j < |FailingChecks(c, 8)| ==> FailingChecks(c, 8)[i] < FailingChecks(c, 8)[j]
    ensures forall k: nat :: k < 8 ==> (k in FailingChecks(c, 8) <==> CheckFails(c, k))
  {
    FailingChecksExact(c, 8);
    FailingMessagesMatch(c, 8);
    var p := FailingChecks(c, 8);
    if p == [] {
      assert !CheckFails(c, 0) && !CheckFails(c, 1) && !CheckFails(c, 2) && !CheckFails(c, 3);
      assert !CheckFails(c, 4) && !CheckFails(c, 5) && !CheckFails(c, 6) && !CheckFails(c, 7);
    } else {
      assert p[0] in p;
      assert CheckFails(c, p[0]);
    }
  }

  /** `validate()`: the messages of the failing checks, in check order (so one
      per failing check, by `FailingReportComplete`), and none exactly when the
      configuration is valid. */
  method Validate(c: ScraperConfig) returns (errors: seq<string>)
    ensures errors == FailingMessages(c, 8)
    ensures errors == [] <==> IsValid(c)
  {
    errors := [];
    if c.country == "" {
      errors := errors + [CountryRequired];
    }
    assert errors == FailingMessages(c, 1);
    if c.jurisdiction == "" {
      errors := errors + [JurisdictionRequired];
    }
    assert errors == FailingMessages(c, 2);
    if c.corpus == "" {
      errors := errors + [CorpusRequired];
    }
    assert errors == FailingMessages(c, 3);
    if c.baseUrl == "" {
      errors := errors + [BaseUrlRequired];
    }
    assert errors == FailingMessages(c, 4);
    if c.tocUrl == "" {
      errors := errors + [TocUrlRequired];
    }
    assert errors == FailingMessages(c, 5);
    if c.delaySeconds < 0.0 {
      errors := errors + [DelayNegative];
    }
    assert errors == FailingMessages(c, 6);
    if c.maxRetries < 1 {
      errors := errors + [RetriesTooFew];
    }
    assert errors == FailingMessages(c, 7);
    if c.timeoutSeconds < 1 {
      errors := errors + [TimeoutTooShort];
    }
    assert errors == FailingMessages(c, 8);
    FailingReportComplete(c);
  }

  // ---------------------------------------------------------------------------
  // ConfigManager.create_custom_config

  /** The keyword arguments `create_custom_config` forwards; `None` keeps the
      dataclass default. */
  datatype ConfigOptions = ConfigOptions(
    skipTitle: Option<int>,
    reservedKeywords: Option<seq<string>>,
    delaySeconds: Option<real>,
    debugMode: Option<bool>,
    maxRetries: Option<int>,
    timeoutSeconds: Option<int>)

  const NoOptions := ConfigOptions(None, None, None, None, None, None)

  /** The dataclass defaults. */
  const DefaultSkipTitle := 0
  const DefaultReservedKeywords: seq<string> := ["REPEALED", "RESERVED"]
  const DefaultDelaySeconds := 1.0
  const DefaultMaxRetries := 3
  const DefaultTimeoutSeconds := 30

  /** `create_custom_config`: the five required arguments land in their fields
      unchanged; every other field is the forwarded keyword or the default. */
  function CreateCustomConfig(country: string, jurisdiction: string, corpus: string,
                              baseUrl: string, tocUrl: string, options: ConfigOptions): (c: ScraperConfig)
    ensures c.country == country && c.jurisdiction == jurisdiction && c.corpus == corpus
    ensures c.baseUrl == baseUrl && c.tocUrl == tocUrl
    ensures c.maxRetries == options.maxRetries.GetOr(DefaultMaxRetries)
    ensures c.timeoutSeconds == options.timeoutSeconds.GetOr(DefaultTimeoutSeconds)
    ensures c.delaySeconds == options.delaySeconds.GetOr(DefaultDelaySeconds)
    ensures c.skipTitle == options.skipTitle.GetOr(DefaultSkipTitle)
    ensures c.reservedKeywords == options.reservedKeywords.GetOr(DefaultReservedKeywords)
    ensures c.debugMode == options.debugMode.GetOr(false)
  {
    ScraperConfig(country, jurisdiction, corpus, baseUrl, tocUrl,
      options.skipTitle.GetOr(DefaultSkipTitle),
      options.reservedKeywords.GetOr(DefaultReservedKeywords),
      options.delaySeconds.GetOr(DefaultDelaySeconds),
      options.debugMode.GetOr(false),
      options.maxRetries.GetOr(DefaultMaxRetries),
      options.timeoutSeconds.GetOr(DefaultTimeoutSeconds))
  }

  /** With every option left at its default, a created configuration is valid
      exactly when the five required strings are non-empty. */
  lemma DefaultsAreValid(country: string, jurisdiction: string, corpus: string,
                         baseUrl: string, tocUrl: string)
    ensures IsValid(CreateCustomConfig(country, jurisdiction, corpus, baseUrl, tocUrl, NoOptions))
            <==> country != "" && jurisdiction != "" && corpus != "" && baseUrl != "" && tocUrl != ""
  {
  }
}
