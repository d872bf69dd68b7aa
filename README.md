# Standardized scraper utilities of open-source-legislation, modelled in Dafny

The repository scrapes statutes and regulations into one table per corpus. Each
row is a node in a forest of legislation (`us/az/statutes/title=1/...`). Four
shared modules hold the logic that every scraper reuses, and this project models
them.

- **`ScraperConfig` and `ConfigManager`** (`src/utils/base/config.py`). The
  table name and corpus id are built from country, jurisdiction and corpus.
  `validate` returns the error messages of the checks that fail, in check order.
  `create_custom_config` forwards its arguments into the dataclass.
  Module `Config`.
- **`NodeFactory` and `NodeBuilder`** (`src/utils/data/factories.py`), modules
  `Factories` and `Nodes`.
  - The structure, content and corpus node constructors.
  - Status detection from reserved keywords.
  - The four default number patterns of `extract_number_from_name`.
  - `clean_node_name`.
  - A builder class: a dictionary of fields that each setter updates in place
    and that `build` checks for required fields.
- **`DatabaseManager`** (`src/utils/processing/database.py`), module `Database`.
  - The table is a map from id to node, held in a field that the methods update.
  - `insert_node` covers three paths: a plain insert, ignoring a duplicate, and
    versioned retries `-v_2` … `-v_9` with the original id kept in the metadata.
  - `batch_insert` works in chunks. When a chunk fails it falls back to inserting
    that chunk's nodes one at a time.
  - It also models `node_exists`, `get_children` (sorted by id), `update_node`,
    `delete_node` and `get_stats`.
- **`TextProcessor` and `TextAnalyzer`** (`src/utils/processing/text.py`):
  - `clean_text`: the replacement table, then tag removal, whitespace collapse
    and strip. Module `TextCleaning`.
  - `extract_node_text` and `_classify_paragraph`. Module `TextStructure`.
  - `split_into_sections`. Module `TextStructure`.
  - `extract_addendum` and `extract_citation`, both first match wins over a
    pattern list. Module `TextPatterns`.
  - `clean_jurisdiction_specific`. Module `TextRules`.
  - `detect_content_type`. Module `TextAnalysis`.

Shared modules:

- `Strings`: Python's `strip`, `split`, `replace`, `upper`/`lower`/`title`,
  `\s+` collapse, `in` for substrings, and the lexicographic order of ids.
- `Matching`: `re.search` and `re.sub` over anchored matchers.
- `Wrappers`: `Option` and `Result`.

**How the model is built:**

- Regular expressions fixed in the source are written out as matchers, with their
  longest-or-lazy behaviour and their case-insensitivity.
- A pattern a caller passes in is an opaque function parameter.
- Imperative code keeps its form:
  - the loops of `clean_text`, `extract_node_text`, `split_into_sections`,
    `extract_number_from_name`, `_determine_status`,
    `clean_jurisdiction_specific` and `batch_insert` are `while` loops;
  - `validate` stays straight-line code that appends one message per
    failing check;
  - each loop is proved equal to a specification function;
  - the properties are proved about that function.
- Errors the source raises are values of `Result`:
  - `DatabaseError` after eight versions;
  - a rejected row;
  - an unknown node type in the builder;
  - missing builder fields;
  - `batch_size == 0`.

Some facts the proofs establish about the source:

- The third default number pattern, `^(\d+[A-Z]?)\.`, never decides a result,
  because the second pattern matches whenever it does.
- A reserved keyword that contains a lower-case letter can never match, because
  it is compared against the upper-cased name.
- `batch_insert` in chunks gives the same result and the same table as inserting
  the nodes one by one.
- With `ignore_duplicates` every node is either returned or skipped, never
  changed. Without it, a returned node is the node itself or a versioned copy.

## Model

| member | source | states |
|---|---|---|
| `Config.TableNameSplits` | src/utils/base/config.py:35-38 | when no part holds `_`, the table name splits back into country, jurisdiction and corpus |
| `Config.CorpusIdSplits` | src/utils/base/config.py:40-43 | when no part holds `/`, the corpus id splits back into its three parts |
| `Config.MessagesDistinct` | src/utils/base/config.py:59-82 | the eight validation messages are pairwise distinct, so each reported message identifies its check |
| `Config.FailingChecksExact` | src/utils/base/config.py:57-84 | the checks that fail are listed once each, in increasing check order, and a check is listed exactly when it fails |
| `Config.FailingReportComplete` | src/utils/base/config.py:50-84 | the report is empty exactly for a valid configuration; each message belongs to a failing check, in check order, with none missing |
| `Config.Validate` | src/utils/base/config.py:50-84 | the eight successive checks return the messages of the failing checks in check order, and returns none exactly when the configuration is valid |
| `Config.CreateCustomConfig` | src/utils/base/config.py:90-120 | the five required arguments land in their fields; each of the six keyword fields (`skip_title`, `reserved_keywords`, `delay_seconds`, `debug_mode`, `max_retries`, `timeout_seconds`) is the forwarded value when given and the dataclass default otherwise |
| `Config.DefaultsAreValid` | src/utils/base/config.py:23-84 | with every option at its default, a created configuration is valid exactly when its five strings are non-empty |
| `Database.InsertOne` | src/utils/processing/database.py:79-86 | inserting one row fails with a rejection for a row the table refuses, fails with a unique violation for a taken id, and otherwise adds the row |
| `Database.InsertRowsAdds` | src/utils/processing/database.py:167-173 | a successful batch insert had only fresh, accepted rows; it keeps every old row and adds only the batch's ids; keys stay equal to node ids |
| `Database.BaseIdHasNoTag` | src/utils/processing/database.py:118-121 | the base id, cut before the first `-v_`, contains no `-v_` |
| `Database.CandidateShape` | src/utils/processing/database.py:116-124 | the id tried for version `i` has exactly one `-v_` right after the base id, ends in the digit `i`, and has the same base id |
| `Database.Tagged` | src/utils/processing/database.py:110-114 | the copy's metadata maps `duplicated_from_node_id` to the original id; every other metadata entry is kept; nothing else changes |
| `Database.TryVersionsPicksLeastFree` | src/utils/processing/database.py:116-139 | the versioned insert succeeds with the least free version from 2 to 9 and adds exactly that row; it fails only when all eight are taken, leaving the table unchanged |
| `Database.TryVersionsStep` | src/utils/processing/database.py:116-136 | a taken candidate moves on to the next version; a free one is inserted and returned |
| `Database.InsertFresh` | src/utils/processing/database.py:79-86 | a fresh, accepted node is inserted as it is and returned |
| `Database.InsertOutcomeShape` | src/utils/processing/database.py:58-98 | on failure the table is unchanged; on success the result is the node or a versioned copy and at most that one row is added; with `ignore_duplicate` the node itself is returned |
| `Database.IgnoreIsIdempotent` | src/utils/processing/database.py:88-92 | inserting the same node twice while ignoring duplicates leaves the table as the first insert left it; a duplicate is returned unchanged and the table is untouched |
| `Database.RepeatedCollisionsVersion` | src/utils/processing/database.py:100-139 | inserting three equal but distinct node objects stores the node, then version 2, then version 3 |
| `Database.ChunkingIsSequential` | src/utils/processing/database.py:164-196 | inserting in chunks of any positive size gives the same result list and table as inserting the nodes one by one |
| `Database.InsertRowsIsSequential` | src/utils/processing/database.py:167-173 | a successful chunk insert equals inserting its nodes one at a time |
| `Database.SequentialIgnoring` | src/utils/processing/database.py:183-196 | with `ignore_duplicates` the one-by-one fallback always succeeds and returns a subsequence of the input nodes |
| `Database.SequentialStrict` | src/utils/processing/database.py:183-196 | without it, a successful fallback returns one node per input, each the node itself or a versioned copy |
| `Database.BatchOutcomeMeaning` | src/utils/processing/database.py:141-198 | an empty list returns `[]`; a zero batch size raises; a positive size is the one-by-one insert; with `ignore_duplicates` the result is a subsequence of the input |
| `Database.BatchKeepsKeys` | src/utils/processing/database.py:141-198 | `batch_insert` keeps every table key equal to its row's id |
| `Database.SortedIds` | src/utils/processing/database.py:255 | `ORDER BY id`: the ids of a set, each once, in strictly increasing order |
| `Database.ChildIdsSorted` | src/utils/processing/database.py:247-257 | the selected ids are exactly the rows with that parent (and that type, when given) |
| `Database.ChildRowsMeaning` | src/utils/processing/database.py:236-260 | the children are stored rows with that parent and optional type; none is missing; they are sorted by id |
| `Database.StatsMeaning` | src/utils/processing/database.py:303-336 | `total_nodes` counts the rows; `by_type` has a key for each type that occurs, whose count is the number of rows of that type, and the counts add up to `total_nodes`; `by_status` has a key for each status that is set, counting its rows, and those counts add up to the rows with a status; every count is between 1 and the total |
| `Database.GroupCountsSum` | src/utils/processing/database.py:317-329 | a `GROUP BY` over a non-null column has one key per value that occurs, counting the rows with that value (between 1 and all rows), and its counts add up to the rows where the column is not null |
| `Database.CountSumIsUnion` | src/utils/processing/database.py:317-329 | groups are disjoint, so the counts of any set of groups add up to the number of rows in those groups |
| `Database.TypeCounts` | src/utils/processing/database.py:317-322 | `by_type` counts the rows of each type, and its counts add up to all rows, since every row has a type |
| `Database.StatusCounts` | src/utils/processing/database.py:324-329 | `by_status` counts the rows of each set status, and its counts add up to the rows whose status is set |
| `Database.DatabaseManager.constructor` | src/utils/processing/database.py:39-56 | a manager over the given table name and initial rows |
| `Database.DatabaseManager.PydanticInsert` | src/utils/processing/database.py:85 | the all-or-nothing insert of rows: the new table on success, the error and the old table on failure |
| `Database.DatabaseManager.InsertNode` | src/utils/processing/database.py:58-98 | the result and the new table are those of `InsertOutcome` (see `InsertOutcomeShape`) |
| `Database.DatabaseManager.HandleDuplicateWithVersion` | src/utils/processing/database.py:100-139 | the loop over versions 2 to 9 has the result and table of the versioned insert (see `TryVersionsPicksLeastFree`) |
| `Database.DatabaseManager.InsertChunk` | src/utils/processing/database.py:164-196 | one chunk: the bulk insert, or the one-by-one fallback when the bulk insert fails |
| `Database.DatabaseManager.BatchInsert` | src/utils/processing/database.py:141-198 | the chunk loop has the result and table of `BatchOutcome` (see `BatchOutcomeMeaning`, `ChunkingIsSequential`) |
| `Database.DatabaseManager.NodeExists` | src/utils/processing/database.py:200-216 | true exactly when some stored row has that id |
| `Database.DatabaseManager.GetChildren` | src/utils/processing/database.py:236-260 | the intended query: the stored rows with that parent and optional type, each exactly once, in id order (see "Left out" for the parameters the source never passes) |
| `Database.DatabaseManager.GetStats` | src/utils/processing/database.py:303-336 | the statistics of the stored rows, whose meaning `StatsMeaning` states |
| `Database.DatabaseManager.UpdateNode` | src/utils/processing/database.py:262-277 | returns true exactly when the row is accepted; an accepted row replaces the stored row with its id; otherwise the table is unchanged |
| `Database.DatabaseManager.DeleteNode` | src/utils/processing/database.py:279-301 | returns true and removes the row with that id, if there is one |
| `Factories.KeywordsFor` | src/utils/data/factories.py:243-244 | the caller's keywords when the list is non-empty, otherwise the seven defaults |
| `Factories.MatchesAnyKeywordExists` | src/utils/data/factories.py:248-250 | the keyword loop finds a match exactly when some keyword occurs in the name |
| `Factories.StatusForMeaning` | src/utils/data/factories.py:240-252 | a non-empty explicit status wins; otherwise `reserved` exactly when some keyword occurs in the upper-cased name, and no status otherwise |
| `Factories.StatusIgnoresNameCase` | src/utils/data/factories.py:246 | upper-casing or lower-casing the name does not change the status |
| `Factories.LowerCaseKeywordNeverMatches` | src/utils/data/factories.py:246-250 | a keyword with a lower-case letter never occurs in the upper-cased name |
| `Factories.DetermineStatus` | src/utils/data/factories.py:221-252 | the loop returns the status `StatusForMeaning` describes |
| `Factories.CreateStructureNode` | src/utils/data/factories.py:58-121 | id from `add_level` with the lower-cased level, the parent, type `structure`, the upper-cased level classifier, the derived status, and the given fields |
| `Factories.CreateContentNode` | src/utils/data/factories.py:124-181 | the same for type `content` with the default level `section`, keeping text and addendum |
| `Factories.LevelCaseInsensitive` | src/utils/data/factories.py:100-121 | the case of the level classifier does not change the node built |
| `Factories.CreateJurisdictionNode` | src/utils/data/factories.py:184-218 | the corpus node: parent `country/jurisdiction`, type `structure`, level `corpus`, the given link |
| `Factories.JurisdictionNodeIdExtendsParent` | src/utils/data/factories.py:205-212 | the corpus id is the parent id plus `/corpus`, and splits back into its three parts |
| `Factories.JurisdictionNodeMatchesConfig` | src/utils/data/factories.py:205-217 | the corpus node's id and name agree with `ScraperConfig.corpus_id` and `display_name` |
| `Factories.TitleNumber` | src/utils/data/factories.py:279 | a match of `^(?:Title\|Chapter\|Article\|Section\|Part)\s+([A-Z]?\d+[A-Z]?)` is a number token (optional letter, digits, optional letter) |
| `Factories.LeadingNumberWithSeparator` | src/utils/data/factories.py:280 | a match of `^([A-Z]?\d+[A-Z]?)\s*[-.]` is a number token |
| `Factories.LeadingNumberWithDot` | src/utils/data/factories.py:281 | a match of `^(\d+[A-Z]?)\.` is a number token starting with a digit |
| `Factories.TrailingNumber` | src/utils/data/factories.py:282 | a match of `(\d+[A-Z]?)$` is a number token that ends the name |
| `Factories.DefaultNumberIsToken` | src/utils/data/factories.py:277-290 | whatever the default patterns extract is a number token |
| `Factories.DotPatternShadowed` | src/utils/data/factories.py:280-281 | whenever the third pattern matches, the second matches with the same group, so the third never decides |
| `Factories.ExtractNumberTitleExample` | src/utils/data/factories.py:270-271 | `"Title 1 - General"` gives `"1"` |
| `Factories.ExtractNumberChapterExample` | src/utils/data/factories.py:273-274 | `"Chapter 2A"` gives `"2A"` |
| `Factories.ExtractNumberFromName` | src/utils/data/factories.py:255-290 | the loop returns the first pattern's group on the stripped name, using the defaults when no list is given |
| `Factories.CleanNodeNameNormalized` | src/utils/data/factories.py:293-317 | the cleaned name is trimmed with single plain spaces, and cleaning it again without number removal changes nothing |
| `Factories.MissingFields` | src/utils/data/factories.py:395-396 | the required fields absent from the data, in required order |
| `Factories.NodeBuilder.constructor` | src/utils/data/factories.py:328-329 | an empty field dictionary |
| `Factories.NodeBuilder.SetParent` | src/utils/data/factories.py:331-334 | sets `parent` and nothing else |
| `Factories.NodeBuilder.SetLevel` | src/utils/data/factories.py:336-340 | sets the upper-cased `level_classifier` and `number` |
| `Factories.NodeBuilder.SetName` | src/utils/data/factories.py:342-345 | sets `node_name` |
| `Factories.NodeBuilder.SetLink` | src/utils/data/factories.py:347-350 | sets `link` |
| `Factories.NodeBuilder.SetType` | src/utils/data/factories.py:352-357 | accepts exactly `structure` and `content` and sets `node_type`; otherwise fails and changes nothing |
| `Factories.NodeBuilder.SetTitle` | src/utils/data/factories.py:359-362 | sets `top_level_title` |
| `Factories.NodeBuilder.SetStatus` | src/utils/data/factories.py:364-367 | sets `status` |
| `Factories.NodeBuilder.SetCitation` | src/utils/data/factories.py:369-372 | sets `citation` |
| `Factories.NodeBuilder.SetText` | src/utils/data/factories.py:374-377 | sets `node_text` |
| `Factories.NodeBuilder.SetAddendum` | src/utils/data/factories.py:379-382 | sets `addendum` |
| `Factories.NodeBuilder.Build` | src/utils/data/factories.py:384-412 | fails exactly when a required field is missing, reporting the missing fields in order; otherwise the node built from the data with its `add_level` id |
| `Factories.BuilderMatchesStructureFactory` | src/utils/data/factories.py:384-412 | setting a structure node's fields on a builder and building gives the node `create_structure_node` makes with that explicit status |
| `Nodes.AddParagraph` | src/utils/processing/text.py:203-207 | appends the paragraph at the end and keeps the earlier ones |
| `TextCleaning.Set` | src/utils/processing/text.py:115-117 | dictionary assignment: the key maps to the new value, every other key keeps its value, and existing keys keep their places |
| `TextCleaning.UpdateLookup` | src/utils/processing/text.py:116-117 | after `update`, a key from the update has the update's value and every other key has its old value |
| `TextCleaning.DefaultTableIsLiteral` | src/utils/processing/text.py:50-61 | the default table is the dictionary literal, with its entries in the order written |
| `TextCleaning.CustomOverridesDefault` | src/utils/processing/text.py:114-117 | a custom entry overrides the default for its key; other defaults stay; the default keys keep their order |
| `TextCleaning.ApplyRemoves` | src/utils/processing/text.py:119-120 | a single-character key is gone after the loop when no replacement value brings it back |
| `TextCleaning.ApplyReplacements` | src/utils/processing/text.py:119-120 | the replacement loop does each `str.replace` in table order |
| `TextCleaning.StripTagsLeavesNoTag` | src/utils/processing/text.py:123-124 | after `re.sub(r'<[^>]+>', '', text)` the pattern matches nowhere |
| `TextCleaning.CollapseKeepsNoTag` | src/utils/processing/text.py:127-128 | collapsing whitespace cannot create a tag match |
| `TextCleaning.CleanText` | src/utils/processing/text.py:64-130 | the pipeline on a string: `""` for `None`; the result has single plain spaces and no edge whitespace when whitespace is normalised, and no tag match when tags are removed |
| `TextCleaning.CleanedTextNormalized` | src/utils/processing/text.py:126-130 | with normalisation the result is trimmed with single plain spaces |
| `TextCleaning.CleanedTextHasNoTag` | src/utils/processing/text.py:122-130 | with tag removal no `<[^>]+>` match survives normalisation and stripping |
| `TextCleaning.CleanedTextDropsKnown` | src/utils/processing/text.py:114-130 | no-break space, CR, LF, tab and the two dashes never survive, unless a replacement value brings them back |
| `TextStructure.DefinitionShape` | src/utils/processing/text.py:228 | every definition opening starts with an upper-case letter followed by a lower-case letter |
| `TextStructure.BuiltinGroupsExclusive` | src/utils/processing/text.py:227-232 | no stripped text matches two of the built-in groups |
| `TextStructure.ClassifyParagraphMeaning` | src/utils/processing/text.py:212-243 | each classification holds exactly when its group matches the stripped text, tried in the order definition, subsection, numbered, lettered, custom; empty text gets none |
| `TextStructure.ClassifyIgnoresEdgeSpace` | src/utils/processing/text.py:240 | classifying the stripped text gives the same answer |
| `TextStructure.ParagraphCleanIsClean` | src/utils/processing/text.py:191 | each paragraph text is trimmed, single-spaced and tag-free |
| `TextStructure.ParagraphsForNumbered` | src/utils/processing/text.py:196-207 | paragraph `k` has id `#p-k`, the `k`-th kept text and its classification |
| `TextStructure.ParagraphIdsDistinct` | src/utils/processing/text.py:197 | the paragraph ids are pairwise distinct |
| `TextStructure.GatherElements` | src/utils/processing/text.py:182-184 | the elements of each tag, one tag after another |
| `TextStructure.BuildParagraphs` | src/utils/processing/text.py:190-207 | the paragraph loop builds the paragraphs of the kept texts |
| `TextStructure.ExtractNodeText` | src/utils/processing/text.py:133-209 | the paragraphs of the cleaned element texts, empty ones skipped when asked, each classified |
| `TextStructure.KeptTextsAppend` | src/utils/processing/text.py:190-194 | the kept texts of two element lists are the kept texts of each, in order |
| `TextStructure.KeptTextsAreCleaned` | src/utils/processing/text.py:190-194 | every kept text is the cleaned text of some element, and is non-empty when skipping |
| `TextStructure.KeptTextsKeepAll` | src/utils/processing/text.py:193 | without skipping there is one cleaned text per element, in order |
| `TextStructure.ParagraphTextsClean` | src/utils/processing/text.py:190-194 | every paragraph text of `extract_node_text` is normalised and tag-free, and non-empty when skipping |
| `TextStructure.FirstMatching` | src/utils/processing/text.py:395-399 | the index of the first section pattern matching the line, or none when no pattern matches |
| `TextStructure.StartsSectionMeaning` | src/utils/processing/text.py:394-401 | with non-empty pattern strings, a line starts a section exactly when some pattern matches it |
| `TextStructure.KeptLinesTrimmed` | src/utils/processing/text.py:389-392 | the kept lines are non-empty and stripped |
| `TextStructure.Groups` | src/utils/processing/text.py:389-418 | the lines cut into groups: a group starts at a section line or at the first line, and every other line continues the group before it |
| `TextStructure.GroupsUnique` | src/utils/processing/text.py:401-418 | this grouping is the only one with those properties |
| `TextStructure.SectionsOfLines` | src/utils/processing/text.py:383-427 | the line loop returns one section per group, with its lines joined by newlines and its kind |
| `TextStructure.MatchingPattern` | src/utils/processing/text.py:395-399 | the inner loop finds the first matching pattern |
| `TextStructure.SplitIntoSections` | src/utils/processing/text.py:358-427 | the whole text as one `full` section for empty text or no patterns, otherwise the sections of the line loop |
| `TextStructure.GroupSection` | src/utils/processing/text.py:410-418 | a section splits back into its lines; it is `header` exactly when it is one line that starts a section |
| `TextStructure.SectionsOfPartition` | src/utils/processing/text.py:401-425 | sections are non-empty and stripped, never `full`; their lines in order are the kept lines; every section after the first starts with a section line |
| `TextStructure.SplitSectionsMeaning` | src/utils/processing/text.py:380-427 | the same for `split_into_sections` on non-empty text with patterns |
| `Matching.FirstMatch` | src/utils/processing/text.py:291-300 | first match wins: a result is some pattern's own result |
| `Matching.FirstMatchIsFirst` | src/utils/processing/text.py:291-302 | no result exactly when every pattern fails; otherwise the result of the first pattern that matches |
| `Matching.FirstMatchAppend` | src/utils/processing/text.py:345-353 | patterns appended at the end are tried only when all earlier ones fail |
| `Matching.Search` | src/utils/processing/text.py:292 | `re.search`: the group of the leftmost position where the matcher succeeds, or none when it succeeds nowhere |
| `Matching.SearchFindsFirst` | src/utils/processing/text.py:292 | a match at `k` with none before it is what the search reports |
| `Matching.RemoveNothing` | src/utils/processing/text.py:495 | `re.sub` with a pattern that matches nowhere returns the text unchanged |
| `Matching.LazyClose` | src/utils/processing/text.py:460 | `.*?` followed by a closing character: ends just after the first such character, with no newline before it |
| `TextPatterns.EnclosedTail` | src/utils/processing/text.py:282-283 | `\[([^\]]+)\]$` and `\(([^)]+)\)$` at a position: the rest is the opener, a non-empty run without the closer, then the closer at the very end; the group is that run |
| `TextPatterns.LabelTail` | src/utils/processing/text.py:284-286 | `SOURCE:\s*(.+)$` and siblings: the label in any case, with a group reaching the end |
| `TextPatterns.LawsTail` | src/utils/processing/text.py:287-288 | `Added by Laws (\d+),\s*(.+)$` and `Amended by …`: the phrase in any case, and a group of digits only |
| `TextPatterns.ExtractAddendum` | src/utils/processing/text.py:246-302 | a result has the requested type, keeps the original text as source, and strips its note |
| `TextPatterns.ExtractAddendumFirstMatch` | src/utils/processing/text.py:277-302 | there is a result exactly when the text is non-empty and some pattern matches the stripped text; the note is the stripped group of the first that does |
| `TextPatterns.BracketedNote` | src/utils/processing/text.py:265-282 | a stripped text ending in one bracketed note gives that note, stripped |
| `TextPatterns.SourceNote` | src/utils/processing/text.py:284 | a single-line text that starts with `SOURCE:` and ends in neither bracket nor parenthesis gives the rest after the label, stripped |
| `TextPatterns.ArizonaCite` | src/utils/processing/text.py:338 | `(?:A\.R\.S\.\|ARS)\s*§\s*[\d-]+(?:\.[A-Z])?`: a match starts with `A.R.S.` or `ARS` in any case |
| `TextPatterns.CaliforniaCite` | src/utils/processing/text.py:339 | `(?:Cal\.\|California)\s*(?:Code\|Gov\.)\s*§\s*[\d-]+`: a match starts with `Cal.` or `California` |
| `TextPatterns.CodeCite` | src/utils/processing/text.py:340 | `\d+\s+U\.S\.C\.\s*§\s*[\d-]+`: a match starts with a digit |
| `TextPatterns.RegulationCite` | src/utils/processing/text.py:341 | `C\.F\.R\.\s*§\s*[\d.-]+`: a match starts with `C.F.R.` |
| `TextPatterns.SectionCite` | src/utils/processing/text.py:342 | `§\s*[\d.-]+(?:\([a-z0-9]+\))*`: a match starts with `§` |
| `TextPatterns.SectionMark` | src/utils/processing/text.py:338-342 | `§\s*` followed by a non-empty run of citation characters |
| `TextPatterns.ExtractCitation` | src/utils/processing/text.py:305-355 | a citation comes only from non-empty text and has no edge whitespace |
| `TextPatterns.CustomCitationsComeLast` | src/utils/processing/text.py:345-353 | the caller's patterns are tried only when every default pattern fails |
| `TextPatterns.DefaultCitationOccurs` | src/utils/processing/text.py:350-353 | a citation that a default pattern finds is a substring of the text |
| `TextPatterns.ArizonaCitation` | src/utils/processing/text.py:319-323 | `A.R.S. § <number>` at the end of a text without other `A`s is extracted exactly, whatever the caller's patterns |
| `TextRules.NoteAt` | src/utils/processing/text.py:459-479 | the three removal patterns match from their opener in any case up to the first closer, which ends the match |
| `TextRules.JurisdictionRules` | src/utils/processing/text.py:453-481 | built-in rules exist exactly for `az`, `ca` and `federal` |
| `TextRules.RemovePatterns` | src/utils/processing/text.py:493-495 | the removal loop applies each pattern in order |
| `TextRules.ApplyRules` | src/utils/processing/text.py:487-505 | a rule set does its replacements in order, then its removals in order |
| `TextRules.CleanJurisdictionSpecific` | src/utils/processing/text.py:430-508 | `""` for empty text; otherwise built-in rules, then custom rules, then `clean_text`; the result is normalised and tag-free |
| `TextRules.CleanedForJurisdictionNormalized` | src/utils/processing/text.py:507-508 | whatever the rules, the result is trimmed, single-spaced and tag-free |
| `TextRules.UnknownJurisdictionIsCleanText` | src/utils/processing/text.py:483-508 | with an unknown jurisdiction and no custom rules, the result is `clean_text` of the text |
| `TextRules.CustomRulesAlone` | src/utils/processing/text.py:497-508 | without built-in rules, the custom rules act on the text itself |
| `TextRules.RemoveKeepsPrefix` | src/utils/processing/text.py:495 | `re.sub` keeps a prefix in which no match starts and carries on with the rest |
| `TextRules.TrailingNoteRemoved` | src/utils/processing/text.py:459-461 | a note at the very end is removed, and the text before it is kept when nothing there opens a note |
| `TextAnalysis.AnyIn` | src/utils/processing/text.py:534 | `any(phrase in text …)`: true exactly when some phrase occurs |
| `TextAnalysis.FirstFamily` | src/utils/processing/text.py:533-549 | the kind of the first family with a phrase in the text, with no earlier family matching; none when no family matches |
| `TextAnalysis.DetectContentType` | src/utils/processing/text.py:529-530 | `unknown` exactly for empty text |
| `TextAnalysis.FirstOfFour` | src/utils/processing/text.py:533-551 | for four families, each answer holds exactly when its family matches and no earlier one does |
| `TextAnalysis.DetectContentTypeMeaning` | src/utils/processing/text.py:520-551 | `unknown` for empty text; otherwise `definition`, `penalty`, `procedure`, `exception` exactly when that is the first family with a phrase in the lower-cased text, and `general` when none has one |
| `TextAnalysis.DetectIgnoresCase` | src/utils/processing/text.py:531 | upper-casing or lower-casing the text does not change its kind |
| `Config.TableName` | src/utils/base/config.py:35-38 | the specification of `table_name`; `TableNameSplits` states what it means |
| `Config.CorpusId` | src/utils/base/config.py:40-43 | the specification of `corpus_id`; `CorpusIdSplits` and `JurisdictionNodeMatchesConfig` state what it means |
| `Config.DisplayName` | src/utils/base/config.py:45-48 | the jurisdiction's letters with no lower case left, a space, then the corpus with the same letters ignoring case |
| `Database.InsertRows` | src/utils/processing/database.py:85 | the specification of `pydantic_insert`; `InsertOne`, `InsertRowsAdds` and `InsertRowsIsSequential` state what it means |
| `Database.BaseId` | src/utils/processing/database.py:118-121 | a prefix of the id; `BaseIdHasNoTag` and `CandidateShape` state that it ends before the first `-v_` |
| `Database.TryVersions` | src/utils/processing/database.py:116-139 | the versioned insert from version `i` on; `TryVersionsStep` and `TryVersionsPicksLeastFree` state what it means |
| `Database.VersionOutcome` | src/utils/processing/database.py:100-139 | the specification of `_handle_duplicate_with_version`, which `TryVersionsPicksLeastFree` characterises |
| `Database.InsertOutcome` | src/utils/processing/database.py:58-98 | the specification of `insert_node`, which `InsertFresh`, `InsertOutcomeShape` and `IgnoreIsIdempotent` characterise |
| `Database.Sequential` | src/utils/processing/database.py:183-196 | the one-by-one fallback, which `SequentialIgnoring` and `SequentialStrict` characterise |
| `Database.ChunkAttempt` | src/utils/processing/database.py:166-196 | one chunk, the bulk insert or the fallback, which `InsertRowsIsSequential` relates to the fallback |
| `Database.Chunked` | src/utils/processing/database.py:164-196 | the chunk loop, which `ChunkingIsSequential` proves equal to the one-by-one insert |
| `Database.BatchOutcome` | src/utils/processing/database.py:141-198 | the specification of `batch_insert`, which `BatchOutcomeMeaning` characterises |
| `Database.StatsOf` | src/utils/processing/database.py:303-336 | the specification of `get_stats`, which `StatsMeaning` characterises |
| `Factories.StatusFor` | src/utils/data/factories.py:221-252 | the specification of `_determine_status`, which `StatusForMeaning` characterises |
| `Factories.CleanNodeName` | src/utils/data/factories.py:293-317 | the cleaned name is never longer than the name; `CleanNodeNameNormalized` states its meaning |
| `Factories.NodeFrom` | src/utils/data/factories.py:400-412 | the node `build` makes from the data, which `BuilderMatchesStructureFactory` relates to the structure factory |
| `TextCleaning.ReplacementTable` | src/utils/processing/text.py:114-117 | the table `clean_text` uses, which `DefaultTableIsLiteral` and `CustomOverridesDefault` characterise |
| `TextCleaning.StripTags` | src/utils/processing/text.py:123-124 | tag removal introduces no new character; `StripTagsLeavesNoTag` states that no tag survives |
| `TextCleaning.CleanedText` | src/utils/processing/text.py:64-130 | the specification of `clean_text`, which `CleanedTextNormalized`, `CleanedTextHasNoTag` and `CleanedTextDropsKnown` characterise |
| `TextStructure.ClassifyParagraph` | src/utils/processing/text.py:212-243 | the specification of `_classify_paragraph`, which `ClassifyParagraphMeaning` characterises |
| `TextStructure.KeptTexts` | src/utils/processing/text.py:190-194 | the cleaned, kept element texts, which `KeptTextsAreCleaned`, `KeptTextsKeepAll` and `KeptTextsAppend` characterise |
| `TextStructure.ParagraphsFor` | src/utils/processing/text.py:196-207 | one paragraph per kept text; `ParagraphsForNumbered` states ids, texts and classes |
| `TextStructure.SplitSections` | src/utils/processing/text.py:358-427 | the specification of `split_into_sections`, which `SplitSectionsMeaning` characterises |
| `TextStructure.SectionsOf` | src/utils/processing/text.py:401-425 | the sections of the line groups; `SectionsOfPartition` and `GroupSection` state their meaning |
| `TextRules.CleanedForJurisdiction` | src/utils/processing/text.py:430-508 | the specification of `clean_jurisdiction_specific`, which `CleanedForJurisdictionNormalized`, `UnknownJurisdictionIsCleanText` and `CustomRulesAlone` characterise |
| `Matching.RemoveMatches` | src/utils/processing/text.py:495 | `re.sub` with `''` never lengthens the text or adds a character; `RemoveKeepsPrefix` and `TrailingNoteRemoved` state what is removed |
| `Strings.CollapseThenStripNormalized` | src/utils/processing/text.py:126-130 | `\s+` collapse followed by `strip` gives trimmed text with single plain spaces |
| `Strings.NormalizedFixedPoint` | src/utils/processing/text.py:126-130 | text already trimmed with single plain spaces is unchanged by collapse-then-strip |
| `Strings.CaseRoundTrips` | src/utils/data/factories.py:246 | `upper()` then `lower()` equals `lower()`, and the other way round; the results hold no letter of the other case |
| `Strings.NatToStringRoundTrip` | src/utils/processing/text.py:197 | reading the decimal rendering of a paragraph count back gives the count |
| `Config.FailingMessagesMatch` | src/utils/base/config.py:59-82 | the `k`-th reported message is the message of the `k`-th failing check |
| `Strings.SplitJoin` | src/utils/processing/text.py:387 | splitting newline-joined lines without newlines gives the lines back |
| `Strings.NatToStringInjective` | src/utils/processing/text.py:197 | distinct paragraph counts give distinct decimal strings |
| `Strings.LexLessTransitive` | src/utils/processing/database.py:255 | the id order is transitive, so sorted children stay sorted |

## Left out

- Database access is a map held in a field, with no SQL, connections, credentials
  or logging. `util.pydantic_insert` lives outside the core. It is modelled as an
  atomic insert that checks the rows one at a time, in order. Each row is first
  checked against an opaque acceptance predicate, which stands for column and
  validation constraints, and then for a duplicate id. The first row that fails
  decides the error, so `[colliding, rejected]` fails with a unique violation.
- Exceptions of other kinds (connection loss, timeouts) are not modelled. As a
  result, `node_exists`, `get_children`, `update_node`, `delete_node` and
  `get_stats` never reach their `except` paths.
- `Database.DatabaseManager.GetChildren` states the intended query: the rows
  with that parent (and that type, when given), in id order. As written, the
  source builds `params` but calls `util.pydantic_select(sql, Node)` without
  them, so the parent id and node type never reach the SQL. What
  `pydantic_select` then does lives outside the core and is not modelled.
- `Database.DatabaseManager.HandleDuplicateWithVersion`: the source updates the
  caller's node object in place. It sets `core_metadata` and sets `node.id` to
  each candidate id in turn. When `DatabaseError` is raised, the node keeps the
  id `base-v_9`. Here nodes are values: the versioned copy is a new value and
  the argument is unchanged. Results agree with the source only when no node
  object is submitted twice. For example, `batch_insert([n, n])` in the source
  returns the one object `n` twice, with id `base-v_2`, where the model returns
  `[n, VersionedCopy(n, 2)]`. A third insert of the same object stores a row
  tagged `duplicated_from_node_id = base-v_2`, not `base`, so
  `RepeatedCollisionsVersion` is about equal but distinct objects.
- `get_node` is not modelled. Its SQL passes no parameter, so its behaviour
  depends on the driver.
- `ORDER BY id` is modelled as code-point order. Database collations are left out.
- The `debug` flags only drive logging, which is not modelled.
- `delay_seconds` is a `real`. `float` rounding is not modelled.
- `display_name` and `str.title()`, like every case mapping here, are ASCII-only.
  Unicode case mappings and the non-ASCII digits of `\d` are not modelled.
- `NodeID.add_level` lives in a file outside the core. It is an opaque function
  parameter.
- The `Node`, `NodeText` and `Addendum` records are taken from the constructor
  calls in the factories. Their validators are not part of this model.
- `clean_text` on BeautifulSoup elements is not modelled. An element is modelled
  by the string its `get_text` returns.
- For `extract_node_text`:
  - `find_all` results are given as lists of strings, one list per tag;
  - sorting by document order with `preserve_structure` is left out, since it
    needs the parse tree;
  - `get_text_clean` is not modelled.
- The quotation-mark entries of `DEFAULT_REPLACEMENTS` are a parameter of the
  model. As written in the source text they are plain ASCII quotes, and the
  single-quote keys do not form valid Python, so their intended values cannot be
  read off.
- Patterns a caller passes in are opaque functions. This covers
  `custom_paragraph_patterns`, the `extract_addendum` and `extract_citation`
  lists, section patterns, `patterns_to_remove` and the number patterns of
  `extract_number_from_name`. Only the built-in patterns are written out.
- `Factories.ExtractNumberFromName` and `TextPatterns.ExtractAddendum`: a caller's
  pattern is a function that reports a group or nothing. Some patterns behave
  differently in the source, and the model cannot express them:
  - a pattern that matches but leaves group 1 unset makes
    `extract_number_from_name` return `None` at once, where the model moves on
    to the next pattern;
  - a pattern without a group 1 raises `IndexError` in both functions;
  - an unset group 1 makes `extract_addendum` raise on `.strip()`.
- For `extract_addendum` and `extract_citation`, a caller's pattern is a function
  from the text to the group it reports. This means
  `re.search(...).group(1)` and `.group(0)` are not distinguished.
- `$` before a final newline is not modelled. `extract_addendum` searches the
  stripped text, which never ends in a newline.
- `Factories.NodeBuilder.SetParent` and the other setters return nothing, where
  the source returns `self` for chaining. A sequence of setter calls has the
  same effect. `Factories.NodeBuilder.SetType` returns `false` and leaves the
  data unchanged where the source raises `ValueError`.
- `calculate_complexity_score` is not modelled, because it computes with floats.
- `TextAnalysis.DetectContentType`: its own contract states only the `unknown`
  case. The full meaning is stated and proved by `DetectContentTypeMeaning`.
- `TextPatterns.ExtractCitation`: its own contract states only the shape of a
  result. Which pattern decides is stated by `CustomCitationsComeLast`,
  `DefaultCitationOccurs` and `ArizonaCitation`.
- `TextPatterns.ArizonaCite`, `TextPatterns.CaliforniaCite`,
  `TextPatterns.CodeCite`, `TextPatterns.RegulationCite` and
  `TextPatterns.SectionCite`: their contracts state how a match begins, not the
  whole regular expression. The matchers' bodies spell out each expression.
- In `split_into_sections` (see `TextStructure.StartsSectionMeaning`), an empty
  pattern string counts as no match, because `if matched_pattern:` tests the
  string's truthiness.
- Scrapers, web fetching, Selenium, rate limiting and the credential manager
  are outside the modelled core.
