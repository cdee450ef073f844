# opendata: crawl, validate and export gate, log viewer and log retention

This project is a Dafny model of the core of the opendata repository. It covers four parts.

- **Crawl, validate and export gate.**
  - The six done conditions check a list of crawled records, each returning a verdict and a message.
  - The runner stops at the first record without an `id` key. Otherwise it evaluates every condition in order, collects the failure messages, and writes the Parquet artifact only when none failed.
  - The congress-contacts adapter indexes the social-media list by bioguide id and joins it against the legislator list, normalising one record per legislator.
  - The adapter's fixed list of seven done conditions is part of the model.
- **Admin pages.**
  - The session-token check.
  - The list of available log dates.
  - The log viewer's filter, sort and pagination, and the query parameters of its page links.
- **Telemetry helpers.**
  - The client address.
  - The request-body excerpt.
  - The date in a daily log file's name.
  - The retention job: deletion of logs older than 90 days, then compression of logs older than one day.
- **Python semantics the code depends on**, written out as Dafny functions:
  - `str.strip`, `str.split`, `str.replace(p, "")`, `int()` on text, `PurePath.stem` and string order;
  - `datetime.date` validity and `toordinal`.

Modules:

- `Base` — `Option` and `Result`.
- `PyText` — Python's string behaviour.
- `Records` — the record type and the value type.
- `Calendar` — dates.
- `Conditions` — the done conditions.
- `CongressContacts` — the adapter.
- `Runner` — the gate.
- `Telemetry` — client address, body capture, log file names and the log directory.
- `Admin` — tokens, log dates and the viewer.

The log directory is a class whose field is the set of file names. Its deletion and compression passes are methods, proved against selection functions of the old directory. The loops of the source (the conditions that scan records, the runner, the crawl, the social index, the viewer's filter, the date collection) are methods, each proved equal to a pure function. The properties the source promises are proved about those functions.

Exceptions that escape the source are outcomes of the model. The log viewer returns an error when its sort raises: `AttributeError` on a kept non-object line, `TypeError` on keys that cannot be compared. Where the code raises on an input it evidently meant to refuse, the model has both the function as written, with the exception as an outcome, and the corrected function the rest of the model uses (see Findings).

Inputs the source takes from outside are parameters:

- the fetched JSON lists of the adapter;
- the current time and date;
- the HMAC signature function;
- the lines of a log file, already parsed;
- the directory listing, and which file operations fail.

## Model

| member | source | states |
|---|---|---|
| PyText.StripStartSpec | crawlers/sources/congress_contacts.py:43 | `lstrip()` removes exactly a run of leading whitespace and leaves a text that is empty or starts with a non-space |
| PyText.StripEndSpec | crawlers/sources/congress_contacts.py:43 | `rstrip()` removes exactly a run of trailing whitespace and leaves a text that is empty or ends with a non-space |
| PyText.StripSpec | crawlers/sources/congress_contacts.py:43 | `str.strip()`: the result is no longer than the text, has no whitespace at either end, and is empty exactly when the text is all whitespace |
| PyText.StripBothEnds | crawlers/conditions.py:90 | stripping the front and then the end leaves nothing exactly when every character is whitespace, and otherwise starts with a non-space |
| PyText.StripUnchanged | app/telemetry.py:54 | a text with no whitespace at its ends is its own strip |
| PyText.RemoveAll | app/telemetry.py:238 | `replace(p, "")` never lengthens the text |
| PyText.RemoveAllSkips | app/telemetry.py:238 | a prefix that lacks the first character of `p` passes through `replace(p, "")` unchanged, and the rest is processed on its own |
| PyText.RemoveAllSelf | app/telemetry.py:238 | `p.replace(p, "")` is empty |
| PyText.RemoveAllShort | app/telemetry.py:238 | a text shorter than `p` holds no occurrence of it |
| PyText.Split | app/telemetry.py:54 | `split(sep)` gives at least one piece, no piece holds `sep`, and joining the pieces with `sep` gives back the text |
| PyText.SplitJoin | app/telemetry.py:240 | splitting the join of pieces without `sep` gives back the pieces |
| PyText.NatToString | app/telemetry.py:43 | decimal digits with no leading zero |
| PyText.IntToString | app/admin.py:23 | `str(n)`: an optional minus sign and digits, no surrounding whitespace |
| PyText.ParseInt | app/telemetry.py:241 | `int(text)`: optional surrounding whitespace, an optional sign and ASCII digits, at most 4300 of them; it never succeeds on a blank text |
| PyText.DigitCount | app/admin.py:36 | the number of digits `int()` counts against its 4300-digit limit, at most the text's length |
| PyText.DigitCountAll | app/admin.py:36 | in a run of digits every character counts |
| PyText.NatToStringLength | app/admin.py:23 | a number below 10^k has at most k digits |
| PyText.NatToStringValue | app/telemetry.py:43 | the digits of `n` read back as `n` |
| PyText.NatToStringRun | app/telemetry.py:43 | `str(n)` of a natural number is a run of decimal digits |
| PyText.ParseRun | app/telemetry.py:241 | `int()` of a run of at most 4300 digits is the digits' value |
| PyText.ParseNegativeRun | app/admin.py:36-37 | `int()` of a minus sign and a run of at most 4300 digits is the negated value |
| PyText.ParseIntToString | app/admin.py:36-37 | `int(str(n)) == n` for every integer of at most 4300 digits |
| PyText.ParsePad2 | app/telemetry.py:241 | a zero-padded two-digit field reads back as its number |
| PyText.FloatRange | app/admin.py:36 | the largest float is positive and below the least integer that overflows on conversion to float |
| PyText.FloatDigits | app/admin.py:23 | an integer up to that overflow limit has at most 342 digits, well within the digit limit of `int()` |
| PyText.LastIndexOf | app/admin.py:157 | the last occurrence of a character, or none |
| PyText.StemOfSuffixed | app/admin.py:157 | `PurePath("x.ext").stem == "x"` when `ext` holds no dot |
| PyText.StrLessIrreflexive | app/admin.py:160 | no string sorts before itself |
| PyText.StrLessTransitive | app/admin.py:160 | string order is transitive |
| PyText.StrLessTotal | app/admin.py:160 | two different strings are ordered one way or the other |
| Records.Show | app/admin.py:228 | `str(v)`: an integer prints with a sign exactly when negative, and as text `int()` reads back to it |
| Records.IdLabel | crawlers/conditions.py:45 | `r.get('id', '?')`: a record's id when it has one, `None` only for an explicit `None` id, and `?` for a record without the key |
| Conditions.MinCountCheck | crawlers/conditions.py:17-20 | passes iff there are at least `n` records; the message carries `n` and the count |
| Conditions.MaxCountCheck | crawlers/conditions.py:29-32 | passes iff there are at most `n` records; the message carries `n` and the count |
| Conditions.FirstLacking | crawlers/conditions.py:43-44 | the first listed field a record lacks or holds as `None`, or none when the record is complete |
| Conditions.FirstIncomplete | crawlers/conditions.py:42-44 | the first record that lacks a required field, or none when all are complete |
| Conditions.RequiredFieldsCheck | crawlers/conditions.py:41-46 | fails iff some record lacks some field or holds it as `None`; the message names the first offender, records first and fields second |
| Conditions.CheckRequiredFields | crawlers/conditions.py:41-46 | the nested loop with early return computes exactly that verdict |
| Conditions.Column | crawlers/conditions.py:58 | `r.get(field)` of every record, in order |
| Conditions.FirstRepeat | crawlers/conditions.py:56-61 | the first position whose value was already seen, or none iff all values are distinct |
| Conditions.FirstRepeatAt | crawlers/conditions.py:59-60 | the first value seen twice is found at its position |
| Conditions.DistinctPrefix | crawlers/conditions.py:56-61 | in a prefix whose values are distinct, no value occurs before its own position |
| Conditions.UniqueFieldCheck | crawlers/conditions.py:55-62 | passes iff the values `r.get(field)` are pairwise distinct; the failure message names the first value seen a second time |
| Conditions.CheckUniqueField | crawlers/conditions.py:55-62 | the loop over a growing `seen` set computes exactly that verdict |
| Conditions.MissingValuesCollide | crawlers/conditions.py:58-59 | two records both missing the field (or both `None`) make `UniqueField` fail |
| Conditions.Filled | crawlers/conditions.py:75 | the number of records whose value is not `None`, at most the record count |
| Conditions.FilledCounts | crawlers/conditions.py:75 | that number is the size of the set of filled positions |
| Conditions.FieldCoverageCheck | crawlers/conditions.py:72-78 | fails with "no records" on an empty list; otherwise passes iff filled/count reaches the threshold |
| Conditions.CoverageOfEmptyFails | crawlers/conditions.py:73-74 | coverage of an empty list fails whatever the threshold, even one at or below zero |
| Conditions.FirstBlank | crawlers/conditions.py:88-90 | the first record whose value is a string that strips to empty, or none |
| Conditions.FirstBlankAt | crawlers/conditions.py:88-91 | the first blank record is found at its position |
| Conditions.FieldCompletenessCheck | crawlers/conditions.py:87-92 | fails iff some record holds the field as a string that strips to empty, naming the first |
| Conditions.CheckFieldCompleteness | crawlers/conditions.py:87-92 | the loop with early return computes exactly that verdict |
| Conditions.CompletenessIgnoresNonStrings | crawlers/conditions.py:90 | absent, `None` and non-string values never make completeness fail |
| Conditions.BlankIsAllSpace | crawlers/conditions.py:90 | a string is blank iff every character is whitespace |
| Conditions.Check | crawlers/conditions.py:6 | `cond.check(records)`: every rule answers with a message of its own kind that names its own parameters |
| Conditions.Evaluate | crawlers/conditions.py:6 | `cond.check(records)` dispatches to the verdict of its kind |
| CongressContacts.IndexSpec | crawlers/sources/congress_contacts.py:27-31 | the index holds exactly the truthy bioguide ids; each maps to the social object of the last entry with that id |
| CongressContacts.BuildIndex | crawlers/sources/congress_contacts.py:27-31 | the loop over the social list builds exactly that index |
| CongressContacts.FillAt | crawlers/sources/congress_contacts.py:39-56 | the record built field by field has exactly the listed fields, each with its own value |
| CongressContacts.NormalizeAt | crawlers/sources/congress_contacts.py:39-56 | each of the sixteen output fields holds the value its line of the record literal computes |
| CongressContacts.NormalizeKeys | crawlers/sources/congress_contacts.py:39-56 | a record has exactly the sixteen output fields |
| CongressContacts.NormalizeFields | crawlers/sources/congress_contacts.py:40-46 | `id` is the bioguide id; `chamber` is "senate" iff the term type is "sen", else "house"; `district` is the term's, `None` when absent |
| CongressContacts.FullNameStripped | crawlers/sources/congress_contacts.py:43 | `full_name` has no whitespace at its ends, and is empty when the name has neither first nor last |
| CongressContacts.NormalizeFullName | crawlers/sources/congress_contacts.py:43 | `full_name` is the strip of first, a space and last, each defaulting to "" |
| CongressContacts.NormalizeContact | crawlers/sources/congress_contacts.py:48-50 | `phone` and `website` are the last term's `phone` and `url`, "" when absent |
| CongressContacts.NormalizeSocial | crawlers/sources/congress_contacts.py:37-55 | the four handles come from the social object of the record's id, "" when absent or when the id has no social entry |
| CongressContacts.NormalizeDefaults | crawlers/sources/congress_contacts.py:37-55 | phone and website are `None` only when the term holds an explicit null; the social handles are "" when the id has no social entry |
| CongressContacts.MissingKey | crawlers/sources/congress_contacts.py:34-35 | the key whose lookup raises `KeyError` for an unreadable legislator: `id` first, then `bioguide`, then `name` |
| CongressContacts.FirstUnreadable | crawlers/sources/congress_contacts.py:33-35 | the first legislator whose lookups raise, or none |
| CongressContacts.RowsAt | crawlers/sources/congress_contacts.py:33-56 | one record per legislator, in input order |
| CongressContacts.CrawlSpec | crawlers/sources/congress_contacts.py:22-56 | the crawl fails iff some legislator lacks `id`, `bioguide` or `name`, naming the first; otherwise it yields exactly one normalised record per legislator, in order, using the last term |
| CongressContacts.RowsSnoc | crawlers/sources/congress_contacts.py:33-56 | each loop step appends one record |
| CongressContacts.NormalizeAll | crawlers/sources/congress_contacts.py:33-56 | the legislator loop yields exactly those records, or the first `KeyError` |
| CongressContacts.Crawl | crawlers/sources/congress_contacts.py:22-56 | the whole crawl on the two parsed lists equals its specification |
| CongressContacts.DoneConditionsGuarantee | crawlers/sources/congress_contacts.py:58-67 | records that pass all seven conditions number 530 to 600, have all six required fields, distinct ids and no blank `full_name` |
| CongressContacts.DoneConditionsCoverage | crawlers/sources/congress_contacts.py:64-65 | such records have phone filled in at least 85% and website in at least 90% of them |
| CongressContacts.CoverageMet | crawlers/conditions.py:75-77 | a passing coverage check means filled × denominator ≥ numerator × count |
| CongressContacts.CoverageMetWithoutExplicitNulls | crawlers/sources/congress_contacts.py:48-65 | when no last term holds an explicit null phone or url, both coverage checks pass on any non-empty crawl |
| CongressContacts.AllFilled | crawlers/conditions.py:75 | when every record has a value, the filled count is the record count |
| Runner.FirstWithoutId | crawlers/runner.py:40-43 | the index of the first record without an `id` key (a `None` value counts as present), or none |
| Runner.FindMissingId | crawlers/runner.py:40-43 | the id loop finds exactly the first record without an `id` key |
| Runner.Report | crawlers/runner.py:48-51 | every condition is evaluated, in list order |
| Runner.FailedMessages | crawlers/runner.py:52-53 | the failures are empty iff every verdict passed |
| Runner.Failures | crawlers/runner.py:47-53 | no failures iff all conditions pass |
| Runner.FailedIndices | crawlers/runner.py:52-53 | the failed positions, increasing, and all of them |
| Runner.ReportStep | crawlers/runner.py:48-51 | evaluating one more condition appends its verdict to the report |
| Runner.FailedStep | crawlers/runner.py:52-53 | one more verdict adds its message and its position to the failures exactly when it failed |
| Runner.EvaluateAll | crawlers/runner.py:47-53 | the condition loop, which goes on after a failure, yields exactly the report and the failures |
| Runner.Aligned | crawlers/runner.py:52-53 | appending a verdict keeps the failure messages aligned with the failed positions |
| Runner.FailuresInOrder | crawlers/runner.py:52-53 | `failures` is exactly the messages of the failed conditions, in order |
| Runner.Gate | crawlers/runner.py:39-66 | stops at the first record without `id` before any condition runs; otherwise exports iff no condition failed, to `<name>.parquet` with all records as rows, and blocks with the non-empty failure list otherwise |
| Runner.RunGate | crawlers/runner.py:39-66 | the id loop, then the condition loop, compute exactly that outcome |
| Runner.RunCongress | crawlers/runner.py:35-66 | a congress run is the crawl's error, or the gate's outcome on its records with the seven done conditions |
| Runner.CongressNeverMissesId | crawlers/runner.py:40-43 | a successful congress crawl never stops at the id check, and an export is `congress_contacts.parquet` with 530 to 600 rows and distinct ids |
| Calendar.DaysInMonth | app/telemetry.py:241 | every month has 28 to 31 days |
| Calendar.Ordinal | app/telemetry.py:256 | `toordinal()`: the day number falls within its year's span |
| Calendar.MonthsBefore | app/telemetry.py:256 | the days before a later month include all of an earlier month |
| Calendar.YearsBefore | app/telemetry.py:256 | the days before a later year include all of an earlier year |
| Calendar.OrdinalOrder | app/telemetry.py:281 | comparing dates and comparing their day numbers agree, so `log_date < today - timedelta(n)` is a day-number comparison |
| Telemetry.ClientIp | app/telemetry.py:51-57 | the stripped first hop of a non-empty forwarded header, else the connection's host, else "unknown" |
| Telemetry.ClientIpFirstHop | app/telemetry.py:53-54 | a proxy chain `a, b, c` gives its first hop `a` |
| Telemetry.CaptureBody | app/telemetry.py:78-87 | a body is logged only for POST, PUT and PATCH when non-empty or unreadable; it is the first 10000 bytes, with the truncation note giving the total iff the body is longer |
| Telemetry.ParseLogDate | app/telemetry.py:236-243 | the corrected parse: a date only for a valid one |
| Telemetry.ParseLogDateAsWritten | app/telemetry.py:236-243 | the parse as written: a valid date, `None`, or an escaping `OverflowError` |
| Telemetry.ParseLogDateOverflows | app/telemetry.py:241-242 | a year beyond the C `int` range raises out of the parse as written; the corrected parse gives `None` |
| Telemetry.ParseLogDateCorrected | app/telemetry.py:236-243 | the corrected parse agrees with the code wherever that returns |
| Telemetry.ParseDayStem | app/telemetry.py:240-241 | the day part of a name, split at `-`, gives only valid dates |
| Telemetry.DayStemParts | app/telemetry.py:43 | the day part of a log name has no dot and splits into its three fields |
| Telemetry.ParseDayStemRoundTrip | app/telemetry.py:240-241 | the day part reads back as its day |
| Telemetry.DropSuffixes | app/telemetry.py:238 | removing `.jsonl.gz` then `.jsonl` from a daily log name leaves its day part |
| Telemetry.LogFileNameRoundTrip | app/telemetry.py:236-243 | every name `emit_event` writes, and its `.gz` form, parses back to its day |
| Telemetry.GzNameOfLog | app/telemetry.py:257 | compressing `D.jsonl` writes `D.jsonl.gz` |
| Telemetry.GzName | app/telemetry.py:257 | `with_suffix(".jsonl.gz")` always ends in `.jsonl.gz` |
| Telemetry.GzNameIsGz | app/telemetry.py:257 | a compressed name matches `*.jsonl.gz` and never `*.jsonl`, so the compression pass never picks it up again |
| Telemetry.Expired | app/telemetry.py:254-281 | a pass acts only on matching names that parse and whose action does not fail |
| Telemetry.PlainNotGz | app/telemetry.py:278 | no name matches both `*.jsonl` and `*.jsonl.gz` |
| Telemetry.ExpiredIgnoresOthers | app/telemetry.py:278-279 | deleting the `*.jsonl` files does not change what the `*.jsonl.gz` loop acts on |
| Telemetry.DeletionLoopsDisjoint | app/telemetry.py:278-284 | the two deletion loops act on disjoint sets, so their counts add up |
| Telemetry.DailyLogSuffixes | app/telemetry.py:254 | a daily log matches `*.jsonl`, and its compressed form matches `*.jsonl.gz` |
| Telemetry.DailyLogAge | app/telemetry.py:251-281 | a daily log, plain or compressed, is past a cutoff exactly when its day is more than that many days before today |
| Telemetry.DeleteBeforeCompress | app/telemetry.py:293-294 | a deleted file is never offered for compression, and a file then compressed is not past the deletion pass's 90-day cutoff unless its deletion failed, whatever day each pass reads |
| Telemetry.CompressLaterDay | app/telemetry.py:251 | a compression pass that reads a later day than the deletion pass compresses every log the earlier day would have, and possibly more |
| Telemetry.LogDirectory.DeleteMatching | app/telemetry.py:279-286 | one glob loop removes exactly the selected files and counts them |
| Telemetry.LogDirectory.DeleteOldLogs | app/telemetry.py:270-288 | the directory loses exactly the expired logs whose deletion succeeds; the count is their number |
| Telemetry.LogDirectory.CompressOldLogs | app/telemetry.py:246-267 | each selected plain log is replaced by its `.jsonl.gz` sibling; the count is their number |
| Telemetry.LogDirectory.MaintainLogs | app/telemetry.py:291-299 | deletion runs first, at the day its own `date.today()` reads, and compression acts on what is left, at the day it reads in turn; the summary event is emitted iff either count is non-zero |
| Admin.Trunc | app/admin.py:23 | `int()` of a float truncates toward zero |
| Admin.SplitFirst | app/admin.py:31-34 | `split(".", 1)`: the text before the first dot and all that follows it |
| Admin.SplitFirstJoin | app/admin.py:31 | splitting at the first dot undoes joining at a dot the head lacks |
| Admin.MakeToken | app/admin.py:22-25 | the token splits at its first dot into the truncated time's text and the password's signature of that text |
| Admin.VerifyTokenAsWritten | app/admin.py:28-41 | as written: refuses an empty password or token and a token without a dot or with a non-integer timestamp; raises `OverflowError` only for an integer beyond float range and `TypeError` only for a non-ASCII signature; accepts only a fresh token carrying the password's signature |
| Admin.VerifyToken | app/admin.py:28-41 | as intended: refuses an empty password or token and a token without a dot; an accepted token has an integer timestamp within float range, at most seven days old, and the password's signature of it |
| Admin.VerifyTokenCorrected | app/admin.py:28-41 | for an ASCII signature function the intended check accepts exactly the tokens the code as written accepts, and refuses every token on which it raises |
| Admin.TokenOverflowRaises | app/admin.py:35-38 | a timestamp whose integer overflows a float makes `_verify_token` as written raise before the signature is compared; the intended version refuses it |
| Admin.TokenOverflowWitness | app/admin.py:35-38 | the decimal text of the overflow limit is such a timestamp |
| Admin.NonAsciiSignatureRaises | app/admin.py:40-41 | a fresh token with a non-ASCII signature makes `compare_digest` raise; the intended check refuses it |
| Admin.TokenRoundTrip | app/admin.py:22-41 | a token made at a float time under a non-empty password is accepted exactly while it is at most seven days old, by the intended check and, for an ASCII signature, by the code as written |
| Admin.ForgedTokenRefused | app/admin.py:31-41 | only the first dot splits, and a wrong signature is never accepted even when it holds further dots; as written it is refused rather than raising when the timestamp fits a float and both signatures are ASCII |
| Admin.PlainAndGzSameDate | app/admin.py:155-158 | `X.jsonl` and `X.jsonl.gz` give the same date `X` |
| Admin.InsertDescending | app/admin.py:160 | inserting a new date keeps the list strictly descending and adds exactly that date |
| Admin.SortedDescending | app/admin.py:160 | `sorted(dates, reverse=True)` lists every date once, strictly descending |
| Admin.AddAll | app/admin.py:155-158 | one glob loop adds the date of every matching file |
| Admin.LogDates | app/admin.py:152-160 | exactly the dates of the plain and compressed logs, distinct and strictly descending |
| Admin.Filter | app/admin.py:218-231 | keeps exactly the lines that pass both filters, in order: unreadable lines never; a non-object line exactly when neither filter is set; an object when a non-empty event equals its `event` and a non-empty status is a prefix-by-first-character of its non-`None` status |
| Admin.FilterAppend | app/admin.py:218-231 | the loop filters line by line: the filtered concatenation of two parts of a log is the two filtered parts, in file order |
| Admin.FilterCount | app/admin.py:218-231 | each line that passes is kept as many times as it occurs in the log, and every other line never, so `total` counts every passing line, repeats included |
| Admin.Entries | app/admin.py:231 | the kept objects, one per kept object line |
| Admin.EntriesAppend | app/admin.py:231 | the kept objects of two parts are those of the first followed by those of the second: file order is kept |
| Admin.FilterEntries | app/admin.py:218-231 | the loop over the lines, with its swallowed `AttributeError`, computes exactly that list |
| Admin.BeforeIrreflexive | app/admin.py:236-237 | no key sorts before itself |
| Admin.BeforeTransitive | app/admin.py:236-237 | key order is transitive, in both directions |
| Admin.BeforeTotal | app/admin.py:236-237 | two different keys of one kind are ordered one way or the other |
| Admin.Insert | app/admin.py:237 | insertion keeps the multiset of entries |
| Admin.SortBy | app/admin.py:237 | the sort is a permutation |
| Admin.InsertSorted | app/admin.py:237 | inserting into a sorted list of one key kind keeps it sorted |
| Admin.SortBySorted | app/admin.py:236-237 | after the sort, no entry is followed by one whose key should come first, descending iff `order == "desc"` |
| Admin.OrderablePairwise | app/admin.py:237 | the sort succeeds exactly when every two kept entries' keys are both strings or both integers |
| Admin.SortByHomogeneous | app/admin.py:237 | the sort of a list with one key kind is sorted |
| Admin.WithKey | app/admin.py:237 | the entries with a given key, in order |
| Admin.WithKeyCons | app/admin.py:237 | the entries with a key of a list with a first entry: that entry when its key matches, then those of the rest |
| Admin.InsertStable | app/admin.py:237 | insertion keeps entries with equal keys in their order |
| Admin.SortByStable | app/admin.py:237 | the sort is stable: entries with equal keys keep their file order |
| Admin.Paginate | app/admin.py:239-246 | `per_page` is clamped to [10, 500]; `total_pages` is max(1, ceil(total/per_page)); `page` ends in [1, total_pages]; the slice starts at (page−1)·per_page and ends at min(start + per_page, total), so it holds at most per_page entries and exactly per_page before the last page |
| Admin.PageSpan | app/admin.py:243-246 | the start of any page lies within the entries, and every page but the last is full |
| Admin.PageOfEntry | app/admin.py:239-246 | entry `i` is shown on page `i / per_page + 1` |
| Admin.ViewPage | app/admin.py:215-246 | the view raises on a non-object line exactly when no filter is set and the log holds one, and otherwise fails only on keys that cannot be compared; a page holds at most `per_page` kept objects, sorted, and `total` counts every kept line |
| Admin.SliceOfPermutation | app/admin.py:246 | a window of a permutation of the kept entries holds only kept entries |
| Admin.SliceSorted | app/admin.py:246 | a window of a sorted list is sorted |
| Admin.ViewLog | app/admin.py:215-246 | the filter loop, the sort with its key computation and the `Paginate` window compute exactly that view |
| Admin.PageParams | app/admin.py:250-256 | page, per_page, sort and order come first, followed only by `event` and `status` entries |
| Admin.PageParamsOptional | app/admin.py:252-255 | `event` and `status` are passed on exactly when they are non-empty |
| Admin.PaginateUrl | app/admin.py:250-256 | the link is `/admin/logs/<date>?page=…` |
| Admin.QueryStringHead | app/admin.py:251 | the query string opens with `?` and the first parameter |

## Left out

- HTTP fetches of the two congress lists: the parsed JSON is a parameter.
- The crawler's proxy, argparse, `print`, `sys.exit`, `mkdir` and the Parquet writer. The outcome datatype names the file and the rows that would be written.
- The text of condition messages. A message is a datatype carrying the values the f-string prints; the float formatting of coverage ratios is left out.
- Conditions.FieldCoverageCheck: the threshold is an exact ratio `num/den`, compared as `filled*den >= num*count`, not a binary float.
- Values are `None`, strings and integers only. Booleans, floats, lists and objects as field values are not modelled, nor Python's `1 == True == 1.0` equality.
- PyText.ParseInt: accepts ASCII digits only. Single underscores between digits are accepted, as Python does; other Unicode digits are not. The 4300-digit limit of Python 3.11 and later is modelled as failure, which is the `ValueError` every caller catches. Its contract states only that a blank text fails; its partners are ParseRun, ParseNegativeRun, ParseIntToString and ParsePad2.
- Records.Show: `str()` of an integer of more than 4300 digits raises `ValueError` in Python 3.11 and later; the model prints it. Its round-trip ensures covers only integers within the limit.
- Python whitespace is the ASCII and Unicode space characters `str.isspace` accepts, listed explicitly.
- CongressContacts: a social entry whose `id` or `social` is present but `null` or not an object is not modelled: `.get` on it raises `AttributeError`, in the index loop or when the social fields are read. A missing `id` or `social` reads as `{}` and is modelled. Nor is a legislator whose `id`, `name` or last term is present but not an object, on which indexing or `.get` raises `TypeError` or `AttributeError`.
- HMAC-SHA256 and its 16-hex-digit truncation are a function parameter. `hmac.compare_digest` is equality that raises `TypeError` on non-ASCII text; its constant-time behaviour is left out.
- Admin.VerifyTokenAsWritten: `time.time() - int(ts)` is computed on exact numbers. The float conversion's rounding and the float subtraction's rounding are left out; only the conversion's overflow is modelled.
- Reading the cookie, redirects, templates and `list_logs`'s redirect to today's log.
- Reading and decompressing a log file and `json.loads` are left out: the viewer takes the lines already parsed, each unreadable (blank or not JSON), a non-object JSON value, or an object.
- Admin.SortBy: `list.sort` raising `TypeError` is modelled as failure exactly when there are two or more entries and their keys are not all strings or all integers. Here "integers" stands for all Python numbers: Python orders integers, floats and booleans with each other, and the default sort key `ts` is a float, but values are strings and integers only. Timsort's comparison order is not modelled.
- Admin.Paginate: the page's `dates` list is computed separately, by `LogDates`.
- Admin.Filter: `str()` of a status prints an integer or a string as is; other JSON types are not modelled.
- Telemetry.CaptureBody: the excerpt keeps the bytes; UTF-8 decoding with replacement is left out.
- The middleware itself: session cookies, uuids, timing, header capture, the health-check skip, `emit_event`'s file append under a lock and the Slack notification.
- Telemetry.LogDirectory.CompressOldLogs: selects names through the corrected Telemetry.ParseLogDate; as written, a matching name whose year is beyond the C `int` range raises out of the pass, leaving later old logs uncompressed. A failed compression leaves the directory unchanged. The partial `.gz` file a failure after opening it would leave is not modelled, nor the error event it emits.
- Telemetry.LogDirectory: gzip itself and the file contents are left out; only names are modelled. A missing log directory is an empty one.
- Telemetry.DailyLogAge: `date.today() - timedelta(days=n)` raises `OverflowError` in the first `n` days of year 1. That case is not modelled: the cutoff is a day number that may be below 1.
- Telemetry.LogDirectory.DeleteMatching: selects names through the corrected Telemetry.ParseLogDate. As written, a matching name whose year is beyond the C `int` range raises out of the loop, so the names after it in glob order are left untouched. The `log_delete_error` event a failed deletion emits is not modelled: `emit_event` appends it to the UTC day's `.jsonl` file in the same directory, which may create that file, and the ensures on the directory leave it out.
- Telemetry.LogDirectory.DeleteOldLogs: uses the corrected parse through DeleteMatching; as written such a name ends the pass with an exception instead of a count. The `log_delete_error` events of its failed deletions, appended to the UTC day's `.jsonl` file in the same directory, are not modelled.
- Telemetry.LogDirectory.MaintainLogs: uses the corrected parse; as written such a name stops `maintain_logs` in its deletion pass, before compression runs. The `log_maintenance` event it emits, and the error events of its passes, are appended to the UTC day's `.jsonl` file in the same directory; that append, which may create the file, is not modelled, and the ensures on the directory leave it out. `reported` says only whether the summary event is emitted.
- Glob order is arbitrary: the loops pick any remaining name, and each result is proved for every order.

## Findings

| source | as written | input that shows it | evidently intended | confidence | as-written member | corrected member |
|---|---|---|---|---|---|---|
| app/telemetry.py:236-243 | `_parse_log_date` catches only `ValueError` and `IndexError`. `date()` raises `OverflowError` for an argument outside the C `int` range, so it escapes to `delete_old_logs` / `compress_old_logs` and stops `maintain_logs` | a file named `99999999999-01-01.jsonl` in the log directory | an unparsable name gives `None` and the file is skipped | medium, not executed | Telemetry.ParseLogDateOverflows | Telemetry.ParseLogDate |
| app/admin.py:35-38 | `_verify_token` catches only `ValueError`. `time.time() - int(ts)` converts the integer to a float, which raises `OverflowError` for an integer of float overflow size, so a crafted cookie raises out of `_verify_token` | a cookie `_admin` whose timestamp is `1` followed by 400 zeros, then `.x` | a malformed token is refused | medium, not executed | Admin.TokenOverflowWitness | Admin.VerifyToken |
| app/admin.py:40-41 | `hmac.compare_digest` on two `str` values raises `TypeError` when either holds a non-ASCII character, and nothing catches it | a fresh timestamp followed by `.é`, such as `99999999999.é` | a token with a wrong signature is refused | medium, not executed | Admin.NonAsciiSignatureRaises | Admin.VerifyToken |
