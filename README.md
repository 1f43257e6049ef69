# File Finder search core in Dafny

This project models the search core of the Nextcloud app *File Finder*, which searches a
user's files through an Elasticsearch index. The model covers three pieces.

- **The file-type registry.** `TypeExtensionMapper::getExtensionsForTypes` and the private copies
  `getExtensionsForType` / `getMergedExtensionsForTypes` in both services. They merge a fixed
  table from category (`images`, `music`, …) to extensions into a list without duplicates. The
  list keeps the order of first appearance and skips non-string and unknown categories.
- **The query compilers.** `FileFinderService::buildQuery` and `SearchServiceFiles::buildQuery`
  turn a loosely typed criteria map into an Elasticsearch `bool` query, or throw a
  `QueryException`; as written, an unparsable date lets the `DateTime` exception out instead
  (see "## Findings"). The query has these parts:
  - access filters;
  - a filename wildcard with a leading `*`;
  - a case-insensitive extension regexp;
  - `lt` / `gt` date ranges;
  - an optional content `match`;
  - `prefix` exclusions.

  The model also covers the highlighting clause, the sort clause and the paging of `searchFiles`.
- **Result shaping.** `buildHit` turns one raw hit into one of three outcomes: dropped (no share
  path for the user), a full record, or `{name, error}` when a framework call throws.
  `searchFiles` keeps the non-dropped records in hit order and normalises `hits.total`. The
  host-list cleaning of `buildClient`/`cleanHost` is modelled too.

Modules, one per source file plus shared pieces:

| module | contents |
|---|---|
| `Php` | PHP's `trim`, `rtrim`, `empty`, `str_starts_with`, `explode` and `implode` on `seq<char>` |
| `Registry` | the merge on an arbitrary table: its specification (`Merged`), the nested loop that computes it (`MergeExtensions`), and the lemmas about it |
| `Wildcard` | what the Elasticsearch wildcard filter matches, and why the leading `*` is added |
| `Elastic` | criteria, clauses, queries, raw hits, records, the framework calls as function-valued parameters, and the query parts common to both services |
| `TypeExtensionMapper` | `TypeExtensionMapper.php` |
| `FileFinderService` | `FileFinderService.php` |
| `SearchServiceFiles` | `SearchServiceFiles.php` |

Each query compiler is a `method` that builds the query step by step, as the PHP code does.
Its `ensures` ties the result to the specification function `CompiledAsWritten`, the query the
code computes as it stands. A second function, `Compiled`, is the query the authors evidently
intended, in which a date that does not parse raises a `QueryException`. The lemma
`CompiledAsWrittenDiffers` says exactly where the two part, and the other lemmas state what the
accepted query guarantees, which is the same for both. The extension merge and the hit loop follow the same pattern:
- the merge methods are proved against `Registry.Merged`;
- the hit loop (`CollectFiles`) is proved against `Collect`.

## Model

| member | source | states |
|---|---|---|
| `Php.Trim` | lib/Service/FileFinderService.php:145 | `trim` leaves nothing exactly when every character is whitespace; otherwise neither end is whitespace and no new character appears |
| `Php.TrimSpan` | lib/Service/FileFinderService.php:145 | `trim` returns exactly the stretch of the input that starts where `ltrim` stops, and every character before or after that stretch is whitespace |
| `Php.TrimEndOf` | lib/Service/FileFinderService.php:312 | `rtrim($s, '/')` removes exactly the trailing run of `/`: the result is a prefix, does not end in `/`, and only `/` was cut |
| `Php.Explode` | lib/Service/FileFinderService.php:281 | `explode` gives at least one piece, exactly one when the separator is absent, and no piece contains the separator |
| `Php.JoinExplode` | lib/Service/FileFinderService.php:281 | imploding the pieces of `explode` gives back the original string |
| `Php.TakeUntil` | lib/Service/FileFinderService.php:324 | the part of a string before the first separator: a prefix without the separator, shorter than the string exactly when the separator occurs, and followed by it |
| `Php.ExplodeFirstPiece` | lib/Service/FileFinderService.php:324-328 | the first piece of `explode` is the text before the first separator, and the remaining pieces are those of the text after it |
| `Php.ExplodeJoin` | lib/Service/FileFinderService.php:179 | exploding an implode of separator-free pieces gives the pieces back |
| `Php.Join` | lib/Service/FileFinderService.php:179 | `implode` starts with the first piece, and for pieces without the separator it holds the separator exactly when there are two pieces or more; `JoinExplode` and `ExplodeJoin` give the round trips with `explode` |
| `Php.HasTerm` | lib/Service/FileFinderService.php:160 | `isset($x) && trim((string) $x) !== ''` holds only for a set, non-empty value; `Php.HasTermMeaning` says exactly which |
| `Php.HasTermMeaning` | lib/Service/FileFinderService.php:145 | a term counts as given exactly when it is set and holds a character other than whitespace |
| `Php.IsEmpty` | lib/Service/FileFinderService.php:132 | `empty` on a string holds only for strings of at most one character, and "0", which it accepts, is a search term |
| `Php.EmptyStrings` | lib/Service/FileFinderService.php:132 | `empty` holds for `""` and for `"0"` |
| `Php.StartsWith` | lib/Service/FileFinderService.php:170 | `str_starts_with($s, $c)` holds exactly when `s` is `c` followed by the rest of `s` |
| `Registry.Lookup` | lib/Service/TypeExtensionMapper.php:37 | `TABLE[$t] ?? []` is the table's entry for a known category and empty for an unknown one |
| `Registry.ExtensionChars` | lib/Service/TypeExtensionMapper.php:10-18 | characters of a table extension are lower-case letters or digits, so never upper-case, `\|` or `.` |
| `Registry.Dedup` | lib/Service/TypeExtensionMapper.php:39-42 | reading the keys of `$merged` back gives the same elements as the written sequence, without duplicates |
| `Registry.MergeExtensions` | lib/Service/TypeExtensionMapper.php:29-42 | the early return and the nested `foreach` compute exactly the merge specification |
| `Registry.WriteKeys` | lib/Service/TypeExtensionMapper.php:38-40 | writing keys into `$merged` leaves the deduplication of everything written so far |
| `Registry.MergedMembers` | lib/Service/TypeExtensionMapper.php:33-42 | an extension is returned exactly when some string entry names a known category that lists it |
| `Registry.MergedAppendIsUnion` | lib/Service/TypeExtensionMapper.php:33-42 | the merge of `A ++ B` has the elements of the merge of `A` together with those of `B` |
| `Registry.MergedSkipsNonStrings` | lib/Service/TypeExtensionMapper.php:34-36 | inserting a non-string entry anywhere changes nothing |
| `Registry.MergedSkipsUnknown` | lib/Service/TypeExtensionMapper.php:37 | inserting an unknown category anywhere changes nothing |
| `Registry.MergedRepeatIsNoop` | lib/Service/TypeExtensionMapper.php:38-42 | repeating a category already given, anywhere after it, changes nothing |
| `Registry.MergedIdempotent` | lib/Service/TypeExtensionMapper.php:38-42 | giving the list twice gives the same result as giving it once |
| `Registry.MergedOrder` | lib/Service/TypeExtensionMapper.php:38-42 | the result lists extensions in order of first appearance, and extending the input only appends |
| `Registry.DedupFirstAppearance` | lib/Service/TypeExtensionMapper.php:39-42 | the keys of `$merged` come out in the order their first occurrences were written |
| `Registry.MergedWellFormed` | lib/Service/TypeExtensionMapper.php:26-42 | over a well-formed table the result has no duplicates and only lower-case extensions |
| `TypeExtensionMapper.TableWellFormed` | lib/Service/TypeExtensionMapper.php:10-18 | every category is non-empty and every extension is lower-case letters and digits |
| `TypeExtensionMapper.GetExtensionsForTypes` | lib/Service/TypeExtensionMapper.php:28-43 | `[]` for a non-array or empty argument; otherwise exactly the extensions of the known string categories, without duplicates, all lower-case |
| `Wildcard.FilenameTerm` | lib/Service/FileFinderService.php:170 | the search term always starts with `*`, and it is the filename itself exactly when that already starts with `*` |
| `Wildcard.FilenameTermIdempotent` | lib/Service/FileFinderService.php:170 | anchoring an anchored term changes nothing |
| `Wildcard.FilenameTermMeaning` | lib/Service/FileFinderService.php:165-171 | the term matches exactly the paths that `*` followed by the filename matches, whether or not the user typed the star |
| `Wildcard.AnchoredLiteralMatchesSuffix` | lib/Service/FileFinderService.php:166-170 | for a filename without wildcards the filter matches exactly the paths ending with it, at any depth |
| `Wildcard.MatchesBehindFolder` | lib/Service/FileFinderService.php:166-170 | a literal filename is found behind any folder prefix |
| `Wildcard.ReportExampleMatches` | lib/Service/FileFinderService.php:166-170 | `report.pdf` matches `/report.pdf` and `/subdir/report.pdf` |
| `Wildcard.ReportExampleRejects` | lib/Service/FileFinderService.php:166-170 | `report.pdf` does not match `/report.pdf.bak` |
| `Elastic.TypePatternAlternatives` | lib/Service/FileFinderService.php:177-181 | the regexp `.*\.(e1\|e2\|…)` lists exactly the merged extensions as its alternatives |
| `Elastic.DateBound` | lib/Service/FileFinderService.php:185-202 | a parsed date gives its timestamp; an unparsable one raises `QueryException` with the criterion's message |
| `Elastic.DateBoundAsWritten` | lib/Service/FileFinderService.php:186-191 | as written, an unparsable date raises the `DateTime` exception itself |
| `Elastic.RangeFilterAsWrittenDiffers` | lib/Service/FileFinderService.php:185-202 | a written date block agrees with the intended one on every date that parses; for a rejected one it lets the `DateTime` exception out where the intended one raises `QueryException` with its message |
| `Elastic.UnqualifiedCatchLetsDateErrorEscape` | lib/Service/FileFinderService.php:185-202 | for every unparsable date the written code lets a non-`QueryException` escape where a `QueryException` is intended |
| `Elastic.PrefixClauses` | lib/Service/FileFinderService.php:206-214 | at most one clause per entry, each a `prefix` on `title.keyword` |
| `Elastic.ExcludeFolders` | lib/Service/FileFinderService.php:207-213 | the `foreach` over `exclude_folders` builds exactly the prefix clauses of the string entries, in order |
| `Elastic.PrefixClausesAppend` | lib/Service/FileFinderService.php:208-213 | the clauses of two lists of folders are those of the first followed by those of the second, so the clauses keep the input order |
| `Elastic.PrefixClausesSingle` | lib/Service/FileFinderService.php:209-212 | one string folder gives one `prefix` clause on it; a non-string gives none |
| `Elastic.PrefixClausesExclude` | lib/Service/FileFinderService.php:206-214 | a folder is excluded exactly when it is a string entry of the list |
| `Elastic.FilterKinds` | lib/Service/FileFinderService.php:150-202 | in the assembled filter list the access filters come first, and the wildcard, type-regexp and range clauses are exactly those of their own parts |
| `Elastic.FileId` | lib/Service/FileFinderService.php:324-328 | `explode(':', $id)[1]` exists exactly when the `_id` has a `:`, and it is the text after the first `:` up to the next one |
| `Elastic.Visible` | lib/Service/FileFinderService.php:329-332 | the hits kept are exactly those with a share path for the user, and no more than the hits given |
| `Elastic.VisibleAppend` | lib/Service/FileFinderService.php:110-118 | the visible hits of two lists are those of the first followed by those of the second, so the hit order is kept |
| `Elastic.VisibleSingle` | lib/Service/FileFinderService.php:329-332 | one hit is kept exactly when it has a share path for the user |
| `Elastic.HighlightsOf` | lib/Service/FileFinderService.php:353 | the hit's own `highlight` entry when it has one, and no highlights otherwise |
| `FileFinderService.TableDiffersFromMapper` | lib/Service/FileFinderService.php:29-36 | this table is the mapper's without `presentations` and without `pages` in `documents` |
| `FileFinderService.TableWellFormed` | lib/Service/FileFinderService.php:29-36 | every category is non-empty and every extension lower-case |
| `FileFinderService.ExtensionsForType` | lib/Service/FileFinderService.php:223-225 | the table's entry for a known category and `[]` exactly for an unknown one; only lower-case extensions |
| `FileFinderService.GetMergedExtensionsForTypes` | lib/Service/FileFinderService.php:233-247 | the loops compute the merge over this table; a missing or empty argument gives no extension |
| `FileFinderService.MergedExtensionsWellFormed` | lib/Service/FileFinderService.php:233-247 | the merged list repeats no extension and holds only lower-case extensions |
| `FileFinderService.MergedNonEmpty` | lib/Service/FileFinderService.php:177-178 | the extension list is non-empty exactly when a string entry names a known category |
| `FileFinderService.BuildQuery` | lib/Service/FileFinderService.php:142-216 | the step-by-step construction yields exactly the query or exception of the code as written |
| `FileFinderService.DateFilter` | lib/Service/FileFinderService.php:185-202 | one date block as written: no clause for an absent date, the range clause on the parsed timestamp, or the uncaught `DateTime` exception exactly when the date does not parse |
| `FileFinderService.Compiled` | lib/Service/FileFinderService.php:143-202 | the query as intended (a rejected date raises `QueryException`): accepted exactly when a content or filename term is given and both dates parse; `CompiledFailures` fixes each exception, and `CompiledAccess` through `CompiledDateFilters` fix every part of an accepted query |
| `FileFinderService.CompiledAsWritten` | lib/Service/FileFinderService.php:143-202 | the query as written: accepted in exactly the same cases; `CompiledAsWrittenFailures` fixes each exception and `CompiledAsWrittenDiffers` relates it to `Compiled` |
| `FileFinderService.CompiledAsWrittenDiffers` | lib/Service/FileFinderService.php:143-202 | the written and the intended query are the same unless a term is given and a date is rejected; then the written one throws the `DateTime` exception of the first rejected date |
| `FileFinderService.CompiledAsWrittenFailures` | lib/Service/FileFinderService.php:143-202 | as written, throws exactly when no term is given or a date does not parse; the only `QueryException` is the missing-term one, and a rejected date escapes as its `DateTime` exception, the before date first |
| `FileFinderService.CompiledFailures` | lib/Service/FileFinderService.php:143-202 | as intended, throws exactly when neither content nor filename is given or a date does not parse, always a `QueryException`; the missing-term message exactly in the first case |
| `FileFinderService.CompiledAccess` | lib/Service/FileFinderService.php:149-157 | the filter of an accepted query starts with `regexp title.keyword '.+'` and `exists share_names.<user>` |
| `FileFinderService.CompiledContent` | lib/Service/FileFinderService.php:159-162 | `must` matches the content exactly when a content term is given |
| `FileFinderService.CompiledExclusions` | lib/Service/FileFinderService.php:206-214 | `must_not` is present exactly when `exclude_folders` is an array; it is the prefix clauses of the string entries in input order, so it names exactly those entries |
| `FileFinderService.CompiledFilterParts` | lib/Service/FileFinderService.php:150-202 | the filter list is the base filter, filename, type and date parts in that order |
| `FileFinderService.CompiledFilenameFilter` | lib/Service/FileFinderService.php:165-172 | exactly one wildcard filter, starting with `*`, when a filename is given; none otherwise |
| `FileFinderService.CompiledTypeFilter` | lib/Service/FileFinderService.php:177-181 | one case-insensitive regexp over exactly the merged extensions, present exactly when a known category is named |
| `FileFinderService.CompiledDateFilters` | lib/Service/FileFinderService.php:185-202 | the range filters are `lt` of the before date then `gt` of the after date, each present exactly when given |
| `FileFinderService.AddHighlightingAsWritten` | lib/Service/FileFinderService.php:130-140 | as written, highlighting is requested exactly when the content is given and its trimmed form is not "0" |
| `FileFinderService.AddHighlighting` | lib/Service/FileFinderService.php:130-140 | the highlighting clause is the plain/span clause on `content` |
| `FileFinderService.HighlightingFollowsContentMatch` | lib/Service/FileFinderService.php:130-162 | highlighting is requested exactly when the query matches on content |
| `FileFinderService.ZeroContentLosesHighlighting` | lib/Service/FileFinderService.php:132 | the written condition differs from the content-match condition exactly for a content that trims to "0" |
| `FileFinderService.ZeroContentExample` | lib/Service/FileFinderService.php:132-161 | as written, the content "0" is matched but not highlighted |
| `FileFinderService.BuildSort` | lib/Service/FileFinderService.php:249-272 | a clause exactly for `modified` or `path`, on `lastModified` or `title.keyword`, ascending exactly for `asc`, with `_score` second |
| `FileFinderService.BuildHit` | lib/Service/FileFinderService.php:323-366 | dropped exactly without a share path for the user; a full record holds what the framework calls returned; an error record holds the message of the first call that threw, in the order detection, icon, link; both are named by the title |
| `FileFinderService.BuildHitDegrades` | lib/Service/FileFinderService.php:327-365 | a visible hit degrades to an error record exactly when detection, icon lookup or link building throws |
| `FileFinderService.Collect` | lib/Service/FileFinderService.php:110-118 | one record per visible hit, in hit order, none dropped, never more than the raw hits |
| `FileFinderService.CollectFiles` | lib/Service/FileFinderService.php:110-118 | the loop over the hits builds exactly those records |
| `FileFinderService.CollectIgnoresInvisible` | lib/Service/FileFinderService.php:110-118 | a hit without a share path for the user can be removed without changing the records |
| `FileFinderService.HitCount` | lib/Service/FileFinderService.php:106-109 | `hits.total` read as a number: a plain count as it is, an object by its `value` |
| `FileFinderService.SearchFiles` | lib/Service/FileFinderService.php:77-128 | the exceptions of the written query propagate, a non-200 status raises `ClientException`; otherwise `from = page * size`, `hits` is the count or its `value`, the written highlighting and the sort are added when present, and `files` are the collected records |
| `FileFinderService.CleanHost` | lib/Service/FileFinderService.php:308-313 | a lone `/` is kept; any other host is `trim(rtrim($host, '/'))`, whose value `Php.TrimEndOf` and `Php.TrimSpan` fix; the result never starts or ends with whitespace and holds only characters of the input |
| `FileFinderService.CleanHostLoneSlash` | lib/Service/FileFinderService.php:309-312 | the host `/` stays `/`, while `//` cleans to the empty host: only the exact string `/` is spared |
| `FileFinderService.CleanHostStripsSlashes` | lib/Service/FileFinderService.php:308-313 | for a host without whitespace other than a lone `/`, exactly the trailing slashes are removed |
| `FileFinderService.ElasticHosts` | lib/Service/FileFinderService.php:277-282 | an empty setting raises `QueryException` with the "not configured" message; otherwise one host per comma-separated entry, host `i` being entry `i` trimmed and then cleaned |
| `FileFinderService.ElasticHostsClean` | lib/Service/FileFinderService.php:277-282 | no host contains a comma or starts or ends with whitespace |
| `FileFinderService.HostOfEntryClean` | lib/Service/FileFinderService.php:281-282 | one comma-free entry, trimmed and cleaned, has no comma and no whitespace at either end |
| `SearchServiceFiles.TableSameAsFinder` | lib/Service/SearchServiceFiles.php:24-31 | this table equals the other service's: no `presentations`, and well formed |
| `SearchServiceFiles.ExtensionsForType` | lib/Service/SearchServiceFiles.php:204-206 | the same answer as the other service: the table's entry for a known category, `[]` exactly for an unknown one |
| `SearchServiceFiles.GetMergedExtensionsForTypes` | lib/Service/SearchServiceFiles.php:214-228 | the same merge as the other service: no duplicates, lower-case |
| `SearchServiceFiles.Compiled` | lib/Service/SearchServiceFiles.php:125-183 | the query with the intended catch and the content ignored as written: accepted exactly when a filename term is given and both dates parse; `CompiledFailures` and `CompiledShape` fix the rest |
| `SearchServiceFiles.CompiledAsWritten` | lib/Service/SearchServiceFiles.php:125-183 | the query as written: accepted in exactly the same cases; `CompiledAsWrittenFailures` fixes each exception and `CompiledAsWrittenDiffers` relates it to `Compiled` |
| `SearchServiceFiles.BuildQuery` | lib/Service/SearchServiceFiles.php:124-197 | the step-by-step construction yields exactly the query or exception of the code as written, with no content clause; its date blocks are the other service's, so the model runs them through `FileFinderService.DateFilter` |
| `SearchServiceFiles.CompiledAsWrittenDiffers` | lib/Service/SearchServiceFiles.php:125-183 | the written query and the one with the intended catch are the same unless a filename is given and a date is rejected; then the written one throws the `DateTime` exception of the first rejected date |
| `SearchServiceFiles.CompiledAgreesWithFinder` | lib/Service/SearchServiceFiles.php:124-197 | with a filename, the other service's query for the same criteria without content, both as written and as intended; without one, always the missing-pattern exception |
| `SearchServiceFiles.CompiledFailures` | lib/Service/SearchServiceFiles.php:125-183 | with the intended catch, throws exactly when no filename is given or a date does not parse, always a `QueryException`, with the missing-pattern message exactly in the first case |
| `SearchServiceFiles.CompiledAsWrittenFailures` | lib/Service/SearchServiceFiles.php:125-183 | as written, throws in the same cases, but the only `QueryException` is the missing-pattern one; a rejected date escapes as its `DateTime` exception, the before date first |
| `SearchServiceFiles.CompiledShape` | lib/Service/SearchServiceFiles.php:131-195 | access filters first, exactly one `*`-anchored wildcard, never a `must`, the file-type and date filters, and `must_not` naming exactly the string folders |
| `SearchServiceFiles.ContentIgnoredExample` | lib/Service/SearchServiceFiles.php:141-143 | as written, content "lease" with filename "*.pdf" gives a query without content match, where the intended query has one |
| `SearchServiceFiles.CompiledIntended` | lib/Service/SearchServiceFiles.php:141-143 | the intended query throws exactly when the one with the intended catch does, and otherwise differs from it only by the content match |
| `SearchServiceFiles.IntendedMatchesContent` | lib/Service/SearchServiceFiles.php:141-143 | the intended query matches the content exactly when it is given, and equals the other service's query whenever a filename is given |
| `SearchServiceFiles.BuildSort` | lib/Service/SearchServiceFiles.php:230-253 | behaves exactly as the other service's `buildSort` |
| `SearchServiceFiles.BuildHit` | lib/Service/SearchServiceFiles.php:256-299 | behaves exactly as the other service's `buildHit` |

## Left out

- The Elasticsearch client. `buildClient` beyond the host list is not modelled: the retries, the
  self-signed-certificate flag and `configureAuthentication`, whose `parse_url` is a foreign
  library. `getElasticIndex` is not modelled either: the index name is an input. `SearchFiles`
  starts once the client exists, so the `QueryException` that `buildClient` raises for an empty
  host setting before `buildQuery` runs (lib/Service/FileFinderService.php:78, 279) is not
  among its outcomes; `ElasticHosts` states that case on its own.
- The network call `$client->search`. The response (status, body, total and hits) is an input
  of `SearchFiles`.
- The user session. The user id is an input. For a string uid, the `$user !== null` test in
  `searchFiles` always holds.
- `SearchServiceFiles::searchFiles` is not part of this model. It is unfinished: it reads an
  undefined `$index`, discards the search result, fixes `hits` at 2 and loops over an empty
  array.
- `$user` in `SearchServiceFiles` is an `IUser` object, which `buildQuery` concatenates into a
  string and `buildHit` uses as an array key. The model takes the user id string in both.
- Framework calls are function-valued parameters (`Elastic.Collaborators`) that may return or
  throw with a message:
  - `new DateTime(...)->getTimestamp()`;
  - `dirname`;
  - `IMimeTypeDetector::detect` and `mimeTypeIcon`;
  - `IURLGenerator::linkToRouteAbsolute`.
- `BuildHit` does not model the `attachment.content_type` read. Its value is never used.
- `BuildHit` takes the error message only from the framework calls. A PHP engine error raised
  by malformed raw hits is not modelled: a hit here always has an id and a title.
- Loose typing of the criteria is narrowed:
  - content, filename and dates are strings or absent;
  - `file_types` and `exclude_folders` are lists or absent;
  - a non-array value counts as absent.

  Non-string scalars, which `strict_types` would reject in `trim` or `str_starts_with`, are not
  modelled.
- `FileFinderService.SearchFiles`: `from` is the unbounded product `page * size`. PHP turns a
  product beyond 64-bit integers into a float, which is not modelled.
- `Wildcard.Matches` gives `*` and `?` their wildcard meaning but models no escape character.
  The regular-expression semantics of the type filter is not modelled, only its shape and
  alternatives.
- PHP turns numeric-string keys of `$merged` into integers. None of the table extensions is
  numeric, so this is not modelled.
- `lib/Controller/PageController.php` (routing, mapping exceptions to status codes) and
  `templates/index.php` are not part of this model.

## Findings

| source | as written | input that shows it | evidently intended | confidence | as-written member | corrected member |
|---|---|---|---|---|---|---|
| lib/Service/FileFinderService.php:186-191 (and lib/Service/SearchServiceFiles.php:167-182) | `catch (Exception $e)` inside namespace `OCA\FileFinder\Service` names the non-existent `OCA\FileFinder\Service\Exception`, so the exception of `new DateTime` escapes uncaught | `before_date` = "not a date" with a filename given | raise `QueryException('invalid before date provided')` | medium, not executed | `Elastic.DateBoundAsWritten` | `Elastic.DateBound` |
| lib/Service/FileFinderService.php:132 | highlighting tests `!empty(trim($content))`, which is false for "0", while the content match at line 160 is added for it | content "0" | highlight under the same condition as the content match | medium, not executed | `FileFinderService.AddHighlightingAsWritten` | `FileFinderService.AddHighlighting` |
| lib/Service/SearchServiceFiles.php:141-143 | the content test reads `$content`, never assigned in `buildQuery`, so no content match is ever added | content "lease", filename "*.pdf" | read `$content` from the criteria as the other service does | high, not executed | `SearchServiceFiles.BuildQuery` | `SearchServiceFiles.CompiledIntended` |

How each discrepancy is exhibited:
- The first is stated for every unparsable date by `Elastic.UnqualifiedCatchLetsDateErrorEscape`
  and `Elastic.RangeFilterAsWrittenDiffers`, and for whole queries by
  `FileFinderService.CompiledAsWrittenDiffers`, `FileFinderService.CompiledAsWrittenFailures`
  and their `SearchServiceFiles` counterparts.
- The second is characterised by `FileFinderService.ZeroContentLosesHighlighting` and shown by
  `FileFinderService.ZeroContentExample`.
- The third is shown by `SearchServiceFiles.ContentIgnoredExample`.

The methods (`BuildQuery`, `DateFilter`, `SearchFiles`) model the code as written: they are
proved equal to `CompiledAsWritten` and use `AddHighlightingAsWritten`. The corrected members
(`Compiled`, `AddHighlighting`, `SearchServiceFiles.CompiledIntended`) are the intended
references, and the lemmas above relate each written member to its corrected one.
