# Reconciliation engine of the production × repasse conference

This project is a Dafny model of the reconciliation engine of a clinic's
billing conference. The engine compares two ledgers:

- the **production** ledger lists the services the clinic rendered;
- the **repasse** ledger lists the payments an insurer (*convênio*) passed on.

The model covers the engine's six parts and the display helpers it feeds:

- **Normalizers** (`normalizers.dfy`) make patient names, payer names and
  dates comparable. They also build the pipe-joined matching key and run the
  word-overlap fuzzy name test.
- **Classifier** (`classifiers.dfy`) is a first-rule-wins keyword list. It maps
  procedure text to one of the thirteen procedure categories. It also splits a
  production `TIPO` field on `|` and decides billability and payer exclusion.
- **Matcher** (`matcher.dfy`, `matcher_props.dfy`) is the greedy three-strategy
  cascade: exact key, then fuzzy name, then fuzzy payer. It uses three
  indices and a per-call set of used repasse ids.
- **Divergence detector** (`divergence.dfy`) turns the matcher's output into
  typed, severity-tagged discrepancies.
- **Parsers** (`repasse_parser.dfy`, `production_parser.dfy`, `period.dfy`)
  handle the CSV line loop and the spreadsheet row loop. They count total and
  skipped rows, track the date period, and build each record through the
  normalizers and the classifier.
- **Formatting** (`formatting.dfy`) holds the `DD/MM/YYYY` date rewrite, the
  sign and colour of a difference, and the placeholders for missing numbers.

`text.dfy` defines the JavaScript string operations the source relies on:
`trim`, `\s`, `split`, `includes`, `<` on strings, and `toUpperCase` on
ASCII and Latin-1. `types.dfy` holds the enumerations of
`src/lib/types/database.ts`.

The source's loops are methods with loop invariants. Each is proved equal to
a specification function:

- `Matcher.RunMatching`, `Matcher.BuildIndex`, `Matcher.AppendExact` and
  `Matcher.FindFuzzyName`;
- `DivergenceDetector.DetectDivergences`;
- `RepasseParser.ReadLines` and `RepasseParser.BuildColumnMap`;
- `ProductionParser.FindHeader` and `ProductionParser.ReadRows`;
- `Classifiers.ExtractProductionProcedures`.

The properties are lemmas about those functions.

Notes on the code, which the model follows:

- The repasse parser keeps `service_date` as the trimmed raw cell. It does not
  normalise it to `YYYY-MM-DD`.
- The production parser's `totalRows` counts only the rows it keeps. The
  repasse parser's counts every data line.
- `formatPercent` renders one fraction digit, although its comment at
  `src/lib/utils/formatting.ts:13` says two.
- The serial-date branch of `normalizeDate` anchors at 1899-12-30, although its
  comment at `src/lib/etl/normalizers.ts:67` says 1900-01-01. The branch is
  left out; see below.

## Model

| member | source | states |
|---|---|---|
| Normalizers.NormalizeText | src/lib/etl/normalizers.ts:9-24 | the result is normalised: trimmed, single plain spaces between words, no accents, marks, no-break spaces or lower-case letters other than `ß`; blank or missing input gives `""`; its content is stated by `NormalizeTextWords` |
| Normalizers.NormalizeTextWords | src/lib/etl/normalizers.ts:7-24 | the result is the words of the input, each accent-stripped and upper-cased, joined by single spaces: every white-space run between words becomes one space and the runs at either end disappear |
| Normalizers.NormalizeWord | src/lib/etl/normalizers.ts:7-24 | text without white space normalises to its accent-stripped, upper-cased form |
| Normalizers.NormalizeAsciiWord | src/lib/etl/normalizers.ts:7-24 | a word of ASCII letters normalises to its upper-case form, so `consulta` gives `CONSULTA` |
| Normalizers.StripAccents | src/lib/etl/normalizers.ts:14 | NFD plus mark deletion leaves only decomposed characters, never lengthens the text, and leaves text with nothing to strip unchanged; its content is stated by `StripAccentsContent` |
| Normalizers.StripAccentsContent | src/lib/etl/normalizers.ts:14 | each character that is not a combining mark becomes its base letter, in order, and the marks are dropped |
| Normalizers.CollapseWs | src/lib/etl/normalizers.ts:18 | `\s+` to one space keeps emptiness and maps a leading white-space run to a space; `CollapseWords` states what it keeps |
| Normalizers.CollapseWords | src/lib/etl/normalizers.ts:18 | collapsing keeps the white-space separated words, and so every non-white-space character, in order |
| Normalizers.CollapseSingleSpaced | src/lib/etl/normalizers.ts:18 | after collapsing, no two spaces touch and every white-space character is a plain space |
| Normalizers.CollapseChars | src/lib/etl/normalizers.ts:18 | collapsing adds no character but the space |
| Normalizers.CollapseFixed | src/lib/etl/normalizers.ts:18 | single-spaced text is left alone by collapsing |
| Normalizers.ReplaceNbsp | src/lib/etl/normalizers.ts:21 | each no-break space becomes a space, every other character stays |
| Normalizers.FoldText | src/lib/etl/normalizers.ts:11-17 | trim, accent stripping, upper-casing and trim give trimmed text of folded characters, empty for blank input; `FoldTextWords` states its content |
| Normalizers.FoldTextWords | src/lib/etl/normalizers.ts:11-17 | the folded text has the same words as the whole input with accents stripped and letters upper-cased |
| Normalizers.NormalizedIsFixed | src/lib/etl/normalizers.ts:9-24 | normalised text is a fixed point of `normalizeText` |
| Normalizers.NormalizeTextIdempotent | src/lib/etl/normalizers.ts:9-24 | `normalizeText(normalizeText(x)) == normalizeText(x)` for every x |
| Normalizers.StripTitle | src/lib/etl/normalizers.ts:33 | a leading `DR.`/`DRA.`/`SR.`/`SRA.` is removed with the white space after it: text with a title always changes and loses exactly a title and white space, text without one is unchanged |
| Normalizers.StripTitleRemoves | src/lib/etl/normalizers.ts:33 | whatever the leftmost-alternative search removes is a title plus the white space after it |
| Normalizers.StripTitleNormalized | src/lib/etl/normalizers.ts:33 | removing the title from normalised text leaves normalised text |
| Normalizers.NormalizePatientName | src/lib/etl/normalizers.ts:30-35 | a patient name is normalised text, empty for blank input, and a suffix of `normalizeText(name)`: with its leading title and the white space after it removed when it has one, equal to it otherwise |
| Normalizers.DropLeadingPipe | src/lib/etl/normalizers.ts:44 | text led by a pipe loses the pipe and the white space after it, and nothing else; text not led by a pipe is unchanged |
| Normalizers.CutHospital | src/lib/etl/normalizers.ts:46 | the text is cut at the leftmost `\s*-\s*HOSPITAL\s+` match, and left whole when there is none |
| Normalizers.RemoveInativo | src/lib/etl/normalizers.ts:48 | the leftmost `(INATIVO)` marker and its surrounding white space are cut out, and nothing is when there is no marker |
| Normalizers.NormalizeConvenio | src/lib/etl/normalizers.ts:41-50 | a payer name is trimmed and no longer than its normalised text |
| Normalizers.PipedConvenio | src/lib/etl/normalizers.ts:41-50 | a payer name led by a pipe, with no `HOSPITAL` and no `(INATIVO)`, is its normalised text without the pipe and the white space after it |
| Normalizers.NoHospitalNoCut | src/lib/etl/normalizers.ts:46 | text without `HOSPITAL` keeps its tail |
| Normalizers.NoMarkerNoRemoval | src/lib/etl/normalizers.ts:48 | text without `(INATIVO)` is untouched by the marker removal |
| Normalizers.PlainConvenioUnchanged | src/lib/etl/normalizers.ts:41-50 | a payer name with no leading pipe, no `HOSPITAL` and no `(INATIVO)` is its `normalizeText` |
| Normalizers.NormalizeDate | src/lib/etl/normalizers.ts:56-88 | empty input gives `""`; a trimmed value with an ISO prefix gives its first ten characters, one with a `DD/MM/YYYY` prefix (time of day after it or not) gives year, month and day of that prefix as `YYYY-MM-DD`; any other string comes back trimmed, not emptied |
| Normalizers.BrRewrite | src/lib/etl/normalizers.ts:84-85 | the `DD/MM/YYYY` rewrite yields a `YYYY-MM-DD` date |
| Normalizers.BrIsNotIso | src/lib/etl/normalizers.ts:80-85 | a `DD/MM/YYYY` prefix never passes the ISO test, so the branch order does not matter |
| Normalizers.IsoDateFixed | src/lib/etl/normalizers.ts:80-81 | a bare `YYYY-MM-DD` date is returned unchanged |
| Normalizers.NormalizeDateIdempotent | src/lib/etl/normalizers.ts:56-88 | normalising a date twice gives what normalising once gives |
| Normalizers.CreateMatchingKey | src/lib/etl/normalizers.ts:94-100 | the key is as long as its three parts and two delimiters |
| Normalizers.MatchingKeySplits | src/lib/etl/normalizers.ts:94-100 | splitting a key of pipe-free parts on the pipe gives the three parts back |
| Normalizers.MatchingKeyInjective | src/lib/etl/normalizers.ts:94-100 | keys of pipe-free parts are equal only for equal parts |
| Normalizers.WordsMembers | src/lib/etl/normalizers.ts:110-111 | a name's word set is exactly its non-empty pieces when split on spaces |
| Normalizers.FuzzyMatchPatientName | src/lib/etl/normalizers.ts:107-122 | equal names match; different names that match share at least two words |
| Normalizers.FuzzyMatchIsRatioTest | src/lib/etl/normalizers.ts:107-122 | for different names, the match holds iff at least two common words cover at least 0.6 of the larger word set |
| Normalizers.RatioTest | src/lib/etl/normalizers.ts:118 | `c / t >= 0.6` is `5c >= 3t` |
| Normalizers.FuzzyMatchSymmetric | src/lib/etl/normalizers.ts:107-122 | the fuzzy test is symmetric |
| Normalizers.FuzzyMatchEmptyName | src/lib/etl/normalizers.ts:108-121 | an empty name matches no non-empty name |
| Normalizers.FuzzyMatchNeedsTwoCommonWords | src/lib/etl/normalizers.ts:116-121 | different names sharing fewer than two words never match |
| Normalizers.FuzzyMatchSameWords | src/lib/etl/normalizers.ts:110-119 | names made of the same two or more words match in any order |
| Classifiers.ContainsAnyIff | src/lib/etl/classifiers.ts:29-31 | the keyword loop fires iff some keyword of the list occurs in the text |
| Classifiers.ClassifyText | src/lib/etl/classifiers.ts:21-81 | empty text is `outro`; on other text the category is one whose rule fires while no rule before it does |
| Classifiers.ClassifyProcedure | src/lib/etl/classifiers.ts:19-82 | a blank procedure is `outro`; otherwise the category is the first rule to fire on the normalised text |
| Classifiers.ClassifyIsFirstFiring | src/lib/etl/classifiers.ts:19-82 | on non-empty text the category is `c` iff `c`'s rule is the first in source order to fire |
| Classifiers.FirstFiringUnique | src/lib/etl/classifiers.ts:19-82 | at most one category is the first to fire |
| Classifiers.BlankIsOutro | src/lib/etl/classifiers.ts:20-21 | text that normalises to nothing is `outro` |
| Classifiers.ClassifyNormalizedText | src/lib/etl/classifiers.ts:20 | classifying normalised text gives the same category as classifying the raw text |
| Classifiers.NoRepasseWins | src/lib/etl/classifiers.ts:24-26 | `RETORNO`, `PERDA` or a `CORTESIA` gives `sem_repasse` whatever else the text holds |
| Classifiers.SurgeryBeatsLaterRules | src/lib/etl/classifiers.ts:9-14 | any surgery keyword gives `cirurgia` unless the no-repasse rule fired |
| Classifiers.FeesBeatsVideo | src/lib/etl/classifiers.ts:34-36 | swallowing-evaluation keywords give `fees` even when video keywords are present |
| Classifiers.LaringoIsVideo | src/lib/etl/classifiers.ts:39-43 | text with `LARINGO` reaching the video rule is `video_naso` or `video_laringo` |
| Classifiers.KeptSegments | src/lib/etl/classifiers.ts:95-101 | the kept segments are trimmed, non-empty and not `-TIPO-`, and no more than the parts |
| Classifiers.KeptSegmentsComplete | src/lib/etl/classifiers.ts:95-101 | every trimmed part that names a procedure is kept |
| Classifiers.KeptSegmentsSound | src/lib/etl/classifiers.ts:95-101 | every kept segment is the trimmed form of some part |
| Classifiers.ExtractProductionProcedures | src/lib/etl/classifiers.ts:89-104 | the loop returns the categories of the field as `ProcedureCategories` defines them |
| Classifiers.ClassifyParts | src/lib/etl/classifiers.ts:95-101 | the push loop classifies each kept segment in order |
| Classifiers.ProcedureCategories | src/lib/etl/classifiers.ts:89-104 | the list is empty exactly for an empty field; otherwise it has one category per kept segment, and one when no segment is kept |
| Classifiers.ProcedureCategoriesShape | src/lib/etl/classifiers.ts:89-104 | empty input gives `[]` and only it does; otherwise one category per kept segment in order, or `[outro]` when none is kept |
| Classifiers.AllProceduresNonBillable | src/lib/etl/classifiers.ts:109-111 | true iff the list is non-empty and every category is `sem_repasse` |
| Classifiers.NonBillableField | src/lib/etl/classifiers.ts:89-111 | a `TIPO` field is non-billable iff it is non-empty, keeps some segment and every kept segment is `sem_repasse` |
| Classifiers.IsExcludedConvenio | src/lib/etl/classifiers.ts:116-119 | a blank payer is excluded; a payer is kept iff its normalised name is non-empty, is not `CORTESIA` and carries no `(INATIVO)` |
| Classifiers.BlankConvenioExcluded | src/lib/etl/classifiers.ts:116-119 | a blank payer name is excluded |
| Classifiers.ExclusionOfNormalized | src/lib/etl/classifiers.ts:116-119 | exclusion depends only on the normalised name |
| Matcher.KeyOf | src/lib/etl/matching/matcher.ts:69-93 | each key of pipe-free fields splits back into the fields its index compares |
| Matcher.RepasseKey | src/lib/etl/matching/matcher.ts:69-93 | the key a repasse entry is filed under splits back into its compared fields when they are pipe-free |
| Matcher.ProductionKey | src/lib/etl/matching/matcher.ts:97-141 | the key a production entry looks up is built the same way and splits back the same way |
| Matcher.Bucket | src/lib/etl/matching/matcher.ts:69-93 | an index bucket holds exactly the repasse entries filed under its key |
| Matcher.BuildIndex | src/lib/etl/matching/matcher.ts:69-93 | each indexing loop files every repasse entry, in order, under its key |
| Matcher.Available | src/lib/etl/matching/matcher.ts:100 | the available entries are exactly those whose id is not used, in order |
| Matcher.FirstFuzzyName | src/lib/etl/matching/matcher.ts:121-135 | the search returns the first unused candidate whose name passes the fuzzy test, and nothing only when there is none |
| Matcher.ExactLinks | src/lib/etl/matching/matcher.ts:102-110 | one `exact` match with confidence 1.0 per available entry, in order |
| Matcher.UnmatchedProduction | src/lib/etl/matching/matcher.ts:161-163 | the unmatched production ids are exactly the ids of entries not matched |
| Matcher.UnmatchedRepasse | src/lib/etl/matching/matcher.ts:165-167 | the unmatched repasse ids are exactly the ids of entries not used |
| Matcher.Step | src/lib/etl/matching/matcher.ts:96-157 | one cascade step only appends links, each one carrying this production entry and its id; it only grows the used and matched sets, adding at most this entry's id; no new link means nothing changed |
| Matcher.Run | src/lib/etl/matching/matcher.ts:95-158 | the main loop over no production entries leaves no links and empty used and matched sets; the invariant of longer runs is `MatcherProperties.RunConsistent` |
| Matcher.Matching | src/lib/etl/matching/matcher.ts:60-170 | every unmatched production id is a production entry's, every unmatched repasse id is a repasse line's, and there are no more unmatched repasse ids than repasse lines |
| Matcher.AppendExact | src/lib/etl/matching/matcher.ts:102-110 | the exact loop appends one exact match per available entry and marks them all used |
| Matcher.FindFuzzyName | src/lib/etl/matching/matcher.ts:119-136 | the candidate loop finds the first fuzzy candidate |
| Matcher.MatchEntry | src/lib/etl/matching/matcher.ts:96-157 | handling one production entry updates matches, used and matched ids as one cascade step does |
| Matcher.RunMatching | src/lib/etl/matching/matcher.ts:60-170 | `runMatching` returns the matches and unmatched lists of the specification function `Matching` |
| MatcherProperties.Free | src/lib/etl/matching/matcher.ts:98-100 | the free entries for a key are exactly the unused repasse entries whose key equals the production entry's |
| MatcherProperties.AvailableBucket | src/lib/etl/matching/matcher.ts:98-100 | filtering an index bucket by use is filtering the repasse list by key and use |
| MatcherProperties.FirstFuzzyNameIsFirstCandidate | src/lib/etl/matching/matcher.ts:116-137 | the fuzzy-name search over the date/payer bucket picks the first candidate in repasse order, and none iff there is none |
| MatcherProperties.StepIsCascade | src/lib/etl/matching/matcher.ts:95-158 | the indexed step equals the cascade: exact first, then fuzzy name, then fuzzy payer, else nothing |
| MatcherProperties.PatientAdded | src/lib/etl/matching/matcher.ts:139-157 | when the first two strategies fail, the first free same-date same-patient entry gets one `fuzzy_convenio` match with confidence 0.6 |
| MatcherProperties.NothingAdded | src/lib/etl/matching/matcher.ts:95-158 | a production entry that gets no match leaves the state unchanged |
| MatcherProperties.RunSnoc | src/lib/etl/matching/matcher.ts:95 | each production entry, in input order, takes one cascade step on the state its predecessors left |
| MatcherProperties.AddedShape | src/lib/etl/matching/matcher.ts:96-157 | the matches made for one entry are for that entry, to unused repasse entries, justified by their strategy; more than one only for `exact`; no repeated repasse id |
| MatcherProperties.ExactTakesAll | src/lib/etl/matching/matcher.ts:99-113 | when the exact strategy fires it takes every free entry with the exact key |
| MatcherProperties.CascadeConsistent | src/lib/etl/matching/matcher.ts:95-158 | one step keeps the invariant: links justified, used ids the linked repasse ids, matched ids the linked production ids |
| MatcherProperties.RunConsistent | src/lib/etl/matching/matcher.ts:60-158 | the main loop ends in a consistent state; with distinct repasse ids no id is linked twice |
| MatcherProperties.NoRepasseReuse | src/lib/etl/matching/matcher.ts:95-158 | with distinct repasse ids, no repasse id appears in two matches |
| MatcherProperties.UnmatchedRepasseCount | src/lib/etl/matching/matcher.ts:165-167 | the unused entries plus the used ids of the list count the list |
| MatcherProperties.MatchCount | src/lib/etl/matching/matcher.ts:161-169 | with distinct repasse ids, the matches and the unmatched repasse ids together number the repasse entries |
| MatcherProperties.ProductionPartition | src/lib/etl/matching/matcher.ts:161-163 | a production entry is listed as unmatched iff no match names it |
| MatcherProperties.RepassePartition | src/lib/etl/matching/matcher.ts:165-167 | a repasse entry is listed as unmatched iff no match names it |
| MatcherProperties.MatchesJustified | src/lib/etl/matching/matcher.ts:97-157 | every match joins input entries that meet its strategy's key condition, with the strategy's confidence |
| MatcherProperties.JustifiedFields | src/lib/etl/matching/matcher.ts:97-141 | for pipe-free fields, `exact` joins equal patient, date and payer; `fuzzy_name` equal date and payer; `fuzzy_convenio` equal date and patient |
| MatcherProperties.PairKeyInjective | src/lib/etl/matching/matcher.ts:78-93 | two-part index keys of pipe-free parts are equal only for equal parts |
| MatcherProperties.RunGroups | src/lib/etl/matching/matcher.ts:95-158 | handling entry `k` appends matches for that entry only, to repasse entries unused before it, more than one only for `exact` |
| MatcherProperties.RunPrefix | src/lib/etl/matching/matcher.ts:95-158 | what is decided after a prefix of the production list is never undone: its matches start the final list and the sets only grow |
| DivergenceDetector.LineDivergences | src/lib/etl/analysis/divergence-detector.ts:108-150 | a matched line yields at most two divergences, never `EXAME_NAO_PAGO`, each pointing at both records |
| DivergenceDetector.Detected | src/lib/etl/analysis/divergence-detector.ts:64-179 | the output opens with the unmatched production divergences in order, followed by the unmatched repasse ones in order |
| DivergenceDetector.DetectDivergences | src/lib/etl/analysis/divergence-detector.ts:59-180 | the three loops return the specification list `Detected`: unmatched production, then unmatched repasse, then the pairs in order |
| DivergenceDetector.AnalyzePair | src/lib/etl/analysis/divergence-detector.ts:105-177 | one pair yields its lines' checks in order, then the unpaid-exam check |
| DivergenceDetector.UnmatchedProductionFirst | src/lib/etl/analysis/divergence-detector.ts:67-83 | the output opens with one `PRODUZIDO_SEM_REPASSE`/`ALTA` per unmatched production entry, in order, with no repasse id and no amounts |
| DivergenceDetector.UnmatchedRepasseNext | src/lib/etl/analysis/divergence-detector.ts:86-102 | then one `REPASSE_SEM_PRODUCAO`/`BAIXA` per unmatched repasse line, in order, with no production id and the amount to pass on as received value |
| DivergenceDetector.LineRules | src/lib/etl/analysis/divergence-detector.ts:108-150 | a line yields `GLOSA_INESPERADA` iff glosa > 0, with its expected, received and difference; it yields `PERCENTUAL_INCORRETO` iff the rule and net are positive and the paid amount is more than 0.05 off the expected; glosa first; both carry the pair's ids |
| DivergenceDetector.LinesShape | src/lib/etl/analysis/divergence-detector.ts:108-150 | a pair's lines never yield `EXAME_NAO_PAGO`, and all carry the production id |
| DivergenceDetector.ExamTests | src/lib/etl/analysis/divergence-detector.ts:153-158 | the two `.some` exam tests, stated on elements |
| DivergenceDetector.ExamRule | src/lib/etl/analysis/divergence-detector.ts:152-176 | a pair yields `EXAME_NAO_PAGO`/`ALTA` iff it has a line, an exam category and no exam slug; it is then the pair's last divergence, unique, and points at the first line |
| DivergenceDetector.Count | src/lib/etl/analysis/divergence-detector.ts:108-150 | the number of lines meeting a test is at most the number of lines |
| DivergenceDetector.LinesLength | src/lib/etl/analysis/divergence-detector.ts:108-150 | a pair's lines yield one divergence per line with a glosa plus one per line failing the percentage test |
| DivergenceDetector.DetectedLength | src/lib/etl/analysis/divergence-detector.ts:64-179 | the output length is unmatched production plus unmatched repasse plus the per-pair rule counts, at most two per line and one per pair |
| DivergenceDetector.DetectedWellFormed | src/lib/etl/analysis/divergence-detector.ts:64-179 | every divergence has its kind's severity, is never `VALOR_DIVERGENTE`, and has difference = received − expected where all three are set |
| Periods.Observe | src/lib/etl/parsers/repasse-parser.ts:97-100 | one row's update of the running start and end is the period step `Track` |
| Periods.PeriodStart | src/lib/etl/parsers/production-parser.ts:112-115 | the start is absent iff every date is empty, else a non-empty date with none sorting before it |
| Periods.PeriodEnd | src/lib/etl/parsers/production-parser.ts:112-115 | the end is absent iff every date is empty, else a non-empty date with none sorting after it |
| Periods.PeriodOrdered | src/lib/etl/parsers/repasse-parser.ts:97-100 | start and end are set together and the start never sorts after the end |
| Periods.PeriodSpans | src/lib/etl/parsers/repasse-parser.ts:97-100 | the period runs from the earliest to the latest non-empty date |
| RepasseParser.LeadingDigits | src/lib/etl/parsers/repasse-parser.ts:48 | `parseInt` reads the longest run of leading digits |
| RepasseParser.ReplaceFirst | src/lib/etl/parsers/repasse-parser.ts:41 | the string-pattern `replace` changes only the first `,` to `.` |
| RepasseParser.ParseInt | src/lib/etl/parsers/repasse-parser.ts:46-50 | a blank cell gives 0, and a negative result needs a leading minus |
| RepasseParser.ParseDecimal | src/lib/etl/parsers/repasse-parser.ts:38-44 | a blank cell gives 0; any other result is what `parseFloat` reads from the trimmed cell with its first comma made a point |
| RepasseParser.ParseIntDecimal | src/lib/etl/parsers/repasse-parser.ts:46-50 | `parseInt_` reads back the decimal rendering of any integer, negative ones too |
| RepasseParser.ParseIntDigits | src/lib/etl/parsers/repasse-parser.ts:46-50 | a digit string parses as the number it spells |
| RepasseParser.BlankParsesAsZero | src/lib/etl/parsers/repasse-parser.ts:38-50 | a blank cell parses as 0 with either number parser |
| RepasseParser.NonBlankLines | src/lib/etl/parsers/repasse-parser.ts:56 | every kept line is non-blank, and there are never more lines than pieces |
| RepasseParser.NonBlankLinesComplete | src/lib/etl/parsers/repasse-parser.ts:56 | a line is kept if and only if it is one of the split pieces and is not blank; when no piece is blank, all are kept unchanged |
| RepasseParser.NonBlankLinesConcat | src/lib/etl/parsers/repasse-parser.ts:56 | the filter keeps input order: filtering two concatenated runs of pieces gives the two filtered runs concatenated |
| RepasseParser.BuildColumnMap | src/lib/etl/parsers/repasse-parser.ts:65-68 | the `forEach` builds the column map `ColumnMap` |
| RepasseParser.ColumnMapLastWins | src/lib/etl/parsers/repasse-parser.ts:63-68 | every header name, and nothing else, maps to the last index that carries it |
| RepasseParser.ReadLines | src/lib/etl/parsers/repasse-parser.ts:76-122 | the line loop yields the kept rows' records in order, `totalRows` = data lines, the dropped count and the period of the records' dates |
| RepasseParser.ParseRepasse | src/lib/etl/parsers/repasse-parser.ts:55-123 | fewer than two non-blank lines give the empty result; otherwise `totalRows` is the number of data lines |
| RepasseParser.ParseRepasseCsv | src/lib/etl/parsers/repasse-parser.ts:55-123 | `parseRepasseCSV` returns the specification result `ParseRepasse` |
| RepasseParser.ParseRepasseCounts | src/lib/etl/parsers/repasse-parser.ts:56-90 | `totalRows` is the data line count (0 with fewer than two lines) and records plus dropped lines make `totalRows` |
| RepasseParser.CountsAddUp | src/lib/etl/parsers/repasse-parser.ts:82-90 | every data line is kept or counted as dropped |
| RepasseParser.KeptRowsKept | src/lib/etl/parsers/repasse-parser.ts:87-90 | no kept row has an empty patient or a reversal |
| RepasseParser.RecordOf | src/lib/etl/parsers/repasse-parser.ts:102-119 | the service date is the raw trimmed cell, and a record from a kept line is well formed |
| RepasseParser.RecordOfWellFormed | src/lib/etl/parsers/repasse-parser.ts:102-119 | a record from a kept row carries its normalised name and payer and its classified category |
| RepasseParser.ParseRepasseRecords | src/lib/etl/parsers/repasse-parser.ts:84-119 | every record comes from a kept line and carries its derived fields |
| RepasseParser.ParseRepassePeriod | src/lib/etl/parsers/repasse-parser.ts:92-100 | the period spans the records' non-empty raw service dates |
| ProductionParser.FindIndexFirst | src/lib/etl/parsers/production-parser.ts:64-74 | `findIndex` gives the first passing position, and nothing only when none passes |
| ProductionParser.HeaderColumnsPatient | src/lib/etl/parsers/production-parser.ts:62-83 | a row gives columns iff some upper-cased, trimmed cell names the patient column, and the patient column is the first such cell |
| ProductionParser.HeaderFromFirst | src/lib/etl/parsers/production-parser.ts:59-85 | the search finds the first header row among the searched rows, with the positions it gives |
| ProductionParser.FindHeader | src/lib/etl/parsers/production-parser.ts:56-85 | the header loop returns the first header row and its columns, or -1 and the defaults 0, 1, 2, 3, 4 |
| ProductionParser.HeaderRowFirst | src/lib/etl/parsers/production-parser.ts:56-85 | there is a header iff one of the first `min(10, rows)` rows names a patient column; it is the first such row, below 10 |
| ProductionParser.ServiceDates | src/lib/etl/parsers/production-parser.ts:123 | the dates list holds each record's service date in order |
| ProductionParser.ReadRows | src/lib/etl/parsers/production-parser.ts:90-131 | the row loop yields one record per kept row in order, `totalRows` = records, the skipped count and the period of the records' dates |
| ProductionParser.ParseProduction | src/lib/etl/parsers/production-parser.ts:88-131 | `totalRows` is the number of records, not the number of rows read |
| ProductionParser.ParseProductionRows | src/lib/etl/parsers/production-parser.ts:49-140 | `parseProductionExcel` after the sheet is read returns the specification result `ParseProduction` |
| ProductionParser.CountsAddUp | src/lib/etl/parsers/production-parser.ts:94-101 | every data row is kept or counted as skipped |
| ProductionParser.KeptRowsKept | src/lib/etl/parsers/production-parser.ts:94-99 | no kept row has an empty patient or date cell |
| ProductionParser.RecordOf | src/lib/etl/parsers/production-parser.ts:101-131 | the service date is the normalised date cell, `row_number` is missing iff the number cell is empty, and an excluded payer never generates a repasse |
| ProductionParser.RecordOfWellFormed | src/lib/etl/parsers/production-parser.ts:102-131 | a record carries its trimmed names, their normalised forms, the categories of its `TIPO`, and a repasse expected iff the payer is not excluded and not every procedure is non-billable |
| ProductionParser.ParseProductionCounts | src/lib/etl/parsers/production-parser.ts:88-131 | `totalRows` is the record count, and with the skipped rows it counts the rows after the header (or after row 3) |
| ProductionParser.ParseProductionRecords | src/lib/etl/parsers/production-parser.ts:101-131 | every record is well formed |
| ProductionParser.ParseProductionKept | src/lib/etl/parsers/production-parser.ts:90-131 | the records are the kept rows converted in order, and each kept row has a patient and a date cell |
| ProductionParser.ParseProductionPeriod | src/lib/etl/parsers/production-parser.ts:112-115 | the period spans the records' non-empty normalised dates |
| Formatting.FormatBRL | src/lib/utils/formatting.ts:4-10 | a missing value gives `R$ —`, a present one its currency rendering |
| Formatting.FormatPercent | src/lib/utils/formatting.ts:15-22 | a missing value gives `—%`, a present one the rendering of value / 100 |
| Formatting.FormatNumber | src/lib/utils/formatting.ts:37-43 | a missing value gives `—`, a present one its rendering with the given decimals |
| Formatting.FormatDateBR | src/lib/utils/formatting.ts:27-32 | a missing or empty date gives `—` |
| Formatting.FormatDateBRNoDash | src/lib/utils/formatting.ts:29-30 | text without `-` is returned as it is |
| Formatting.FormatDateBRPieces | src/lib/utils/formatting.ts:29-31 | three non-empty dash-free pieces `Y-M-D` become `D/M/Y` |
| Formatting.FormatDateBRExtraPieces | src/lib/utils/formatting.ts:29-31 | pieces after the third are dropped |
| Formatting.FormatDateBRTwoPieces | src/lib/utils/formatting.ts:29-30 | text with exactly one dash is returned unchanged, whichever of its two pieces is empty |
| Formatting.FormatDateBREmptyPiece | src/lib/utils/formatting.ts:29-30 | three dash-free pieces of which one is empty are returned unchanged |
| Formatting.FormatDateBREmptyPieceMore | src/lib/utils/formatting.ts:29-30 | the same with more pieces after the third: the input is returned unchanged |
| Formatting.FormatIsoDate | src/lib/utils/formatting.ts:27-32 | a `YYYY-MM-DD` date is shown as `DD/MM/YYYY` |
| Formatting.FormatNormalizedBrDate | src/lib/utils/formatting.ts:29-31 | formatting the normalised form of a `DD/MM/YYYY` date gives that date back |
| Formatting.NormalizeFormattedIsoDate | src/lib/etl/normalizers.ts:84-85 | normalising the formatted form of a `YYYY-MM-DD` date gives that date back |
| Formatting.FormatDifference | src/lib/utils/formatting.ts:48-57 | green iff positive, red iff negative, muted iff missing or zero; text `—` when missing, `+` and the currency when positive, the currency otherwise |
| Text.Trim | src/lib/etl/normalizers.ts:11 | `trim` gives trimmed text drawn from the input and leaves trimmed text alone |
| Text.TrimIsInfix | src/lib/etl/normalizers.ts:11 | `trim` keeps a contiguous slice of the input and removes only white space before and after it |
| Text.TrimEmptyIffBlank | src/lib/etl/parsers/repasse-parser.ts:56 | `trim` gives `""` iff every character is white space |
| Text.JoinSplit | src/lib/utils/formatting.ts:29 | joining the pieces of a split with the separator gives the text back |
| Text.SplitJoin | src/lib/etl/normalizers.ts:99 | splitting a join of separator-free pieces gives the pieces back |
| Text.LexLessTotal | src/lib/etl/parsers/repasse-parser.ts:98-99 | `<` on different strings orders one before the other |
| Text.LexLessTransitive | src/lib/etl/parsers/repasse-parser.ts:98-99 | `<` on strings is transitive |

## Left out

- Unicode: `normalize('NFD')`, `toUpperCase` and `toLowerCase` are modelled for ASCII and Latin-1 only. Accented Latin-1 letters lose their accent, combining marks U+0300–U+036F are deleted, the micro sign U+00B5 becomes U+039C, and other characters are left alone.
- Text.UpperChar: `ß` (U+00DF) stays `ß`, while `toUpperCase` turns it into the two letters `SS`. The model keeps upper-casing one character for one, so a normalised name may still hold `ß`.
- `<` on strings compares `char` values. It agrees with JavaScript's UTF-16 code-unit order on the Basic Multilingual Plane.
- The `Date`-object and serial-number branches of `normalizeDate` (`src/lib/etl/normalizers.ts:60-75`) are not modelled. They depend on the local time zone and millisecond arithmetic.
- Normalizers.FuzzyMatchPatientName: the floating-point ratio `common / total >= 0.6` is modelled in exact arithmetic as `5 * common >= 3 * total`. The two agree for all realistic word counts, but IEEE rounding is not modelled.
- Normalizers.NormalizeConvenio: its own contract states only trimming and length. Its content is stated step by step by `DropLeadingPipe`, `CutHospital` and `RemoveInativo`, and for whole names by `PlainConvenioUnchanged` and `PipedConvenio`.
- The spreadsheet library is not part of this model: `XLSX.read`, sheet selection and `sheet_to_json` (`src/lib/etl/parsers/production-parser.ts:35-47`). The rows are given as `seq<seq<string>>`. A missing or falsy cell is the empty string, so a numeric `0` cell, a `Date` cell and a `null` row (the `!row` skips at lines 61 and 92) are not distinguished.
- RepasseParser.ParseInt: returns an unbounded `int`, while `parseInt` gives an IEEE double that loses precision above 2^53. Counts and row numbers in the input stay far below that bound.
- `Number(numero)` for `row_number`, `parseFloat` and `Intl.NumberFormat` are function parameters. Their results are not modelled.
- Money is `real`, so IEEE rounding of `liquido * (regra_pct / 100)` is not modelled.
- The free-text `detail` strings of the divergences and the `toFixed` renderings inside them are not modelled.
- The row loops `ProductionParser.ReadRows` and `RepasseParser.ReadLines` take the row-to-record conversion as a parameter, and the callers pass `RecordOf`. The production loop walks the rows after the start row as one slice.
- ProductionParser.HeaderFrom: the header search is stated for any classification of rows (`columnsOf`), and the parser passes `HeaderColumns`.
- MatcherProperties.NoRepasseReuse: this and `MatchCount` assume distinct repasse ids. The source keys its used set by id, so entries sharing an id are consumed together.
- MatcherProperties.MatchCount: the source promises no such count; it holds only under distinct ids, and it is stated only under that assumption.
- Formatting.FormatBRL: like `FormatPercent` and `FormatNumber`, it states what is handed to the locale renderer, not the rendered text.
