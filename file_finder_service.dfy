/** `FileFinderService`: compiles the search criteria of a request into an Elasticsearch
    `bool` query (with highlighting, sort and paging), and turns the hits of the response into
    the records the front end shows.  The Elasticsearch client, the app configuration and the
    framework services are not modelled; the response and the framework calls are inputs. */
module FileFinderService {
  import opened Php
  import Registry
  import opened Elastic
  import Wildcard
  import TypeExtensionMapper

  // ---------------------------------------------------------------------------------------
  // The file-type table and the extension merge

  /** This class's own copy of `FILE_TYPE_EXTENSIONS`: six categories, no `presentations`,
      and `documents` without `pages`. */
  const FileTypeExtensions: Registry.Table := map[
    "images" := ["jpg", "jpeg", "png", "gif", "webp", "bmp", "svg", "ico", "heic"],
    "music" := ["mp3", "ogg", "flac", "wav", "m4a", "aac", "wma"],
    "pdfs" := ["pdf"],
    "spreadsheets" := ["xls", "xlsx", "ods", "csv", "numbers"],
    "documents" := ["doc", "docx", "odt", "txt", "rtf", "md"],
    "videos" := ["mp4", "webm", "mkv", "avi", "mov", "wmv"]
  ]

  /** How this copy differs from the mapper's table: `presentations` is missing and
      `documents` lacks its last entry, `pages`; every other category is the same. */
  lemma TableDiffersFromMapper()
    ensures FileTypeExtensions ==
      (TypeExtensionMapper.FileTypeExtensions - {"presentations"})["documents" := TypeExtensionMapper.Documents[..6]]
    ensures "presentations" !in FileTypeExtensions && "presentations" in TypeExtensionMapper.FileTypeExtensions
    ensures TypeExtensionMapper.Documents == FileTypeExtensions["documents"] + ["pages"]
  {
    var mapper := TypeExtensionMapper.FileTypeExtensions;
    var shrunk := (mapper - {"presentations"})["documents" := TypeExtensionMapper.Documents[..6]];
    assert TypeExtensionMapper.Documents[..6] == ["doc", "docx", "odt", "txt", "rtf", "md"];
    assert shrunk.Keys == FileTypeExtensions.Keys;
  }

  /** Every listed extension is non-empty and lower-case, and no category is empty. */
  lemma TableWellFormed()
    ensures Registry.WellFormed(FileTypeExtensions)
  {
    TableDiffersFromMapper();
    TypeExtensionMapper.TableWellFormed();
    var documents := TypeExtensionMapper.Documents;
    assert Registry.AllExtensions(documents);
    assert Registry.AllExtensions(documents[..6]);
  }

  /** `getExtensionsForType($type)`: `FILE_TYPE_EXTENSIONS[$type] ?? []`. */
  function ExtensionsForType(t: string): (r: seq<string>)
    ensures t in FileTypeExtensions ==> r == FileTypeExtensions[t]
    ensures r == [] <==> t !in FileTypeExtensions
    ensures forall e :: e in r ==> Registry.IsExtension(e)
  {
    TableWellFormed();
    Registry.Lookup(FileTypeExtensions, t)
  }

  /** `getMergedExtensionsForTypes($fileTypes)`: the extensions of the known string categories
      given, without duplicates, in order of first appearance; `[]` for a non-array, `null` or
      empty argument. */
  method GetMergedExtensionsForTypes(fileTypes: Option<seq<Value>>) returns (exts: seq<string>)
    ensures exts == Registry.Merged(FileTypeExtensions, fileTypes)
    ensures fileTypes.None? || fileTypes == Some([]) ==> exts == []
  {
    // The loop reads each category with `Registry.Lookup`, which `ExtensionsForType` equals.
    exts := Registry.MergeExtensions(FileTypeExtensions, fileTypes);
  }

  /** The merged list over this table repeats no extension and holds only lower-case
      extensions. */
  lemma MergedExtensionsWellFormed(fileTypes: Option<seq<Value>>)
    ensures var exts := Registry.Merged(FileTypeExtensions, fileTypes);
      && Registry.NoDuplicates(exts)
      && forall e :: e in exts ==> Registry.IsExtension(e)
  {
    TableWellFormed();
    Registry.MergedWellFormed(FileTypeExtensions, fileTypes);
  }

  /** Some entry of the list is a string naming a category of the table. */
  predicate KnownTypeGiven(fileTypes: Option<seq<Value>>) {
    fileTypes.Some? && exists t :: Str(t) in fileTypes.value && t in FileTypeExtensions
  }

  /** The merge yields some extension exactly when some known category is named. */
  lemma MergedNonEmpty(fileTypes: Option<seq<Value>>)
    ensures Registry.Merged(FileTypeExtensions, fileTypes) != [] <==> KnownTypeGiven(fileTypes)
  {
    TableWellFormed();
    if fileTypes.Some? {
      var items := fileTypes.value;
      var merged := Registry.Merged(FileTypeExtensions, fileTypes);
      if merged != [] {
        Registry.MergedMembers(FileTypeExtensions, items, merged[0]);
      }
      if KnownTypeGiven(fileTypes) {
        var t :| Str(t) in items && t in FileTypeExtensions;
        var e := FileTypeExtensions[t][0];
        Registry.MergedMembers(FileTypeExtensions, items, e);
      }
    }
  }

  // ---------------------------------------------------------------------------------------
  // The query

  const MissingTermMessage := "Either content or filename needs to be provided"

  /** The query `buildQuery($search_criteria, $user)` assembles from the outcomes of its two
      date blocks: it throws when neither a content nor a filename term is given, then
      whatever the before block and then the after block throw; otherwise the filter list
      holds the base filter, the filename wildcard, the file-type regexp, the `lt` and the
      `gt` date ranges, in that order, `must` holds the content match and `must_not` the
      excluded folders. */
  function QueryWith(c: Criteria, user: string, before: Result<seq<Clause>>, after: Result<seq<Clause>>)
    : Result<BoolQuery>
  {
    if !HasTerm(c.content) && !HasTerm(c.filename) then Thrown(QueryException(MissingTermMessage))
    else
      match before
      case Thrown(e) => Thrown(e)
      case Ok(beforeFilter) =>
        match after
        case Thrown(e) => Thrown(e)
        case Ok(afterFilter) =>
          Ok(BoolQuery(
            BaseFilter(user) + FilenameFilter(c.filename)
              + TypeFilter(Registry.Merged(FileTypeExtensions, c.fileTypes)) + beforeFilter + afterFilter,
            ContentMust(c.content),
            ExcludeClauses(c.excludeFolders)))
  }

  /** What `buildQuery` is meant to return or throw: a date that does not parse raises the
      `QueryException` naming it. */
  function Compiled(c: Criteria, user: string, parseDate: string -> Option<int>): (r: Result<BoolQuery>)
    ensures r.Ok? <==> ((HasTerm(c.content) || HasTerm(c.filename))
      && !DateRejected(parseDate, c.beforeDate) && !DateRejected(parseDate, c.afterDate))
  {
    QueryWith(c, user,
      RangeFilter(parseDate, c.beforeDate, BeforeDateMessage, Lt),
      RangeFilter(parseDate, c.afterDate, AfterDateMessage, Gt))
  }

  /** What `buildQuery` returns or throws as written: the exception of a date that does not
      parse is not caught and leaves the method as it is. */
  function CompiledAsWritten(c: Criteria, user: string, parseDate: string -> Option<int>): (r: Result<BoolQuery>)
    ensures r.Ok? <==> ((HasTerm(c.content) || HasTerm(c.filename))
      && !DateRejected(parseDate, c.beforeDate) && !DateRejected(parseDate, c.afterDate))
  {
    QueryWith(c, user, RangeFilterAsWritten(parseDate, c.beforeDate, Lt), RangeFilterAsWritten(parseDate, c.afterDate, Gt))
  }

  /** The written and the intended query agree except when a term is given and a date is
      rejected: the written one then lets the `DateTime` exception of the first rejected date
      out. */
  lemma CompiledAsWrittenDiffers(c: Criteria, user: string, parseDate: string -> Option<int>)
    ensures CompiledAsWritten(c, user, parseDate) ==
      if !HasTerm(c.content) && !HasTerm(c.filename) then Compiled(c, user, parseDate)
      else if DateRejected(parseDate, c.beforeDate) then Thrown(DateTimeException(c.beforeDate.value))
      else if DateRejected(parseDate, c.afterDate) then Thrown(DateTimeException(c.afterDate.value))
      else Compiled(c, user, parseDate)
  {
    RangeFilterAsWrittenDiffers(parseDate, c.beforeDate, BeforeDateMessage, Lt);
    RangeFilterAsWrittenDiffers(parseDate, c.afterDate, AfterDateMessage, Gt);
  }

  /** The written query is refused exactly when the intended one is, but the only
      `QueryException` it raises is the missing-term one: a rejected date escapes as the
      `DateTime` exception of that date, the before date first. */
  lemma CompiledAsWrittenFailures(c: Criteria, user: string, parseDate: string -> Option<int>)
    ensures var r := CompiledAsWritten(c, user, parseDate);
      && (r.Thrown? <==> (!HasTerm(c.content) && !HasTerm(c.filename))
                         || DateRejected(parseDate, c.beforeDate) || DateRejected(parseDate, c.afterDate))
      && (r.Thrown? && r.exception.QueryException? <==> !HasTerm(c.content) && !HasTerm(c.filename))
      && (r.Thrown? && r.exception.QueryException? ==> r.exception.message == MissingTermMessage)
      && ((HasTerm(c.content) || HasTerm(c.filename)) && DateRejected(parseDate, c.beforeDate) ==>
            r == Thrown(DateTimeException(c.beforeDate.value)))
      && ((HasTerm(c.content) || HasTerm(c.filename)) && !DateRejected(parseDate, c.beforeDate)
            && DateRejected(parseDate, c.afterDate) ==>
            r == Thrown(DateTimeException(c.afterDate.value)))
  {
    CompiledAsWrittenDiffers(c, user, parseDate);
    CompiledFailures(c, user, parseDate);
  }

  /** `buildQuery($search_criteria, $user)`, growing the query one clause at a time. */
  method BuildQuery(c: Criteria, user: string, parseDate: string -> Option<int>) returns (r: Result<BoolQuery>)
    ensures r == CompiledAsWritten(c, user, parseDate)
  {
    if !HasTerm(c.content) && !HasTerm(c.filename) {
      return Thrown(QueryException(MissingTermMessage));
    }
    var filter := BaseFilter(user);
    var must: Option<Clause> := None;
    if HasTerm(c.content) {
      must := Some(Match(ContentField, c.content.value));
    }
    assert must == ContentMust(c.content);
    if HasTerm(c.filename) {
      filter := filter + [WildcardClause(TitleKeyword, Wildcard.FilenameTerm(c.filename.value))];
    }
    assert filter == BaseFilter(user) + FilenameFilter(c.filename);
    ghost var named := filter;
    var exts := GetMergedExtensionsForTypes(c.fileTypes);
    if exts != [] {
      filter := filter + [Regexp(TitleKeyword, TypePattern(exts), true)];
    } else {
      assert filter == named + [];
    }
    assert filter == named + TypeFilter(exts);
    ghost var typed := filter;
    var before := DateFilter(parseDate, c.beforeDate, Lt);
    if before.Thrown? {
      return Thrown(before.exception);
    }
    filter := filter + before.value;
    var after := DateFilter(parseDate, c.afterDate, Gt);
    if after.Thrown? {
      return Thrown(after.exception);
    }
    filter := filter + after.value;
    var mustNot: Option<seq<Clause>> := None;
    if c.excludeFolders.Some? {
      var folders := c.excludeFolders.value;
      var clauses := ExcludeFolders(folders);
      mustNot := Some(clauses);
    }
    assert mustNot == ExcludeClauses(c.excludeFolders);
    assert filter == typed + before.value + after.value;
    QueryWithAccepted(c, user, before.value, after.value);
    return Ok(BoolQuery(filter, must, mustNot));
  }

  /** Once a term is given and both date blocks pass, the query is the assembled one. */
  lemma QueryWithAccepted(c: Criteria, user: string, beforeFilter: seq<Clause>, afterFilter: seq<Clause>)
    requires HasTerm(c.content) || HasTerm(c.filename)
    ensures QueryWith(c, user, Ok(beforeFilter), Ok(afterFilter)) ==
      Ok(BoolQuery(
        BaseFilter(user) + FilenameFilter(c.filename)
          + TypeFilter(Registry.Merged(FileTypeExtensions, c.fileTypes)) + beforeFilter + afterFilter,
        ContentMust(c.content),
        ExcludeClauses(c.excludeFolders)))
  {
  }

  /** One `isset($search_criteria[...])` date block of `buildQuery` as written: no clause when
      the date is absent, the range clause on the parsed timestamp, or, when the date does not
      parse, the `DateTime` exception, which the block's `catch` does not catch. */
  method DateFilter(parseDate: string -> Option<int>, raw: Option<string>, op: RangeOp)
    returns (r: Result<seq<Clause>>)
    ensures r == RangeFilterAsWritten(parseDate, raw, op)
    ensures r.Thrown? <==> DateRejected(parseDate, raw)
    ensures r.Thrown? ==> r.exception == DateTimeException(raw.value)
    ensures r.Ok? ==> r.value == (if raw.Some? then [Range(LastModified, op, parseDate(raw.value).value)] else [])
  {
    if raw.None? {
      return Ok([]);
    }
    var bound := DateBoundAsWritten(parseDate, raw.value);
    if bound.Thrown? {
      return Thrown(bound.exception);
    }
    return Ok([Range(LastModified, op, bound.value)]);
  }

  /** The intended query is refused exactly when no term is given or a date does not parse,
      always with a `QueryException`; the missing-term message wins, then the before date. */
  lemma CompiledFailures(c: Criteria, user: string, parseDate: string -> Option<int>)
    ensures var r := Compiled(c, user, parseDate);
      && (r.Thrown? <==> (!HasTerm(c.content) && !HasTerm(c.filename))
                         || DateRejected(parseDate, c.beforeDate) || DateRejected(parseDate, c.afterDate))
      && (r.Thrown? ==> r.exception.QueryException?)
      && (r == Thrown(QueryException(MissingTermMessage)) <==> !HasTerm(c.content) && !HasTerm(c.filename))
      && ((HasTerm(c.content) || HasTerm(c.filename)) && DateRejected(parseDate, c.beforeDate) ==>
            r == Thrown(QueryException(BeforeDateMessage)))
      && ((HasTerm(c.content) || HasTerm(c.filename)) && !DateRejected(parseDate, c.beforeDate)
            && DateRejected(parseDate, c.afterDate) ==>
            r == Thrown(QueryException(AfterDateMessage)))
  {
    assert |BeforeDateMessage| != |MissingTermMessage|;
    assert |AfterDateMessage| != |MissingTermMessage|;
  }

  // The lemmas from here to `CompiledDateFilters` are stated about the intended `Compiled`;
  // `CompiledAsWrittenDiffers` carries them to the written query wherever that is accepted.

  /** An accepted query starts with the access filters: a non-empty title and a share path
      for the requesting user. */
  lemma CompiledAccess(c: Criteria, user: string, parseDate: string -> Option<int>)
    requires Compiled(c, user, parseDate).Ok?
    ensures var q := Compiled(c, user, parseDate).value;
      && |q.filter| >= 2 && q.filter[0] == Regexp(TitleKeyword, ".+", false)
      && q.filter[1] == Exists(SharePrefix + user)
  {
    CompiledFilterParts(c, user, parseDate);
  }

  /** An accepted query matches on the content exactly when a content term is given. */
  lemma CompiledContent(c: Criteria, user: string, parseDate: string -> Option<int>)
    requires Compiled(c, user, parseDate).Ok?
    ensures var q := Compiled(c, user, parseDate).value;
      && (q.must.Some? <==> HasTerm(c.content))
      && (q.must.Some? ==> q.must.value == Match(ContentField, c.content.value))
  {
  }

  /** An accepted query carries a `must_not` list exactly when `exclude_folders` is a list,
      and it names exactly the string entries of that list. */
  lemma CompiledExclusions(c: Criteria, user: string, parseDate: string -> Option<int>, f: string)
    requires Compiled(c, user, parseDate).Ok?
    ensures var q := Compiled(c, user, parseDate).value;
      && (q.mustNot.Some? <==> c.excludeFolders.Some?)
      && (q.mustNot.Some? ==> q.mustNot.value == PrefixClauses(c.excludeFolders.value))
      && (q.mustNot.Some? ==> (Prefix(TitleKeyword, f) in q.mustNot.value <==> Str(f) in c.excludeFolders.value))
  {
    if c.excludeFolders.Some? {
      PrefixClausesExclude(c.excludeFolders.value, f);
    }
  }

  /** The filter list of an accepted query, part by part. */
  lemma CompiledFilterParts(c: Criteria, user: string, parseDate: string -> Option<int>)
    requires Compiled(c, user, parseDate).Ok?
    ensures !DateRejected(parseDate, c.beforeDate) && !DateRejected(parseDate, c.afterDate)
    ensures Compiled(c, user, parseDate).value.filter ==
      BaseFilter(user) + FilenameFilter(c.filename)
        + TypeFilter(Registry.Merged(FileTypeExtensions, c.fileTypes))
        + DateRange(parseDate, c.beforeDate, Lt) + DateRange(parseDate, c.afterDate, Gt)
  {
  }

  /** The range clause of a date criterion that parses, if given. */
  function DateRange(parseDate: string -> Option<int>, raw: Option<string>, op: RangeOp): (r: seq<Clause>)
    requires !DateRejected(parseDate, raw)
    ensures AllOfKind(r, RangeKind)
  {
    if raw.Some? then [Range(LastModified, op, parseDate(raw.value).value)] else []
  }

  /** In an accepted query the filename filter is one wildcard clause starting with `*`,
      present exactly when a filename term is given. */
  lemma CompiledFilenameFilter(c: Criteria, user: string, parseDate: string -> Option<int>)
    requires Compiled(c, user, parseDate).Ok?
    ensures var wildcards := Where(Compiled(c, user, parseDate).value.filter, WildcardKind);
      && (HasTerm(c.filename) ==> wildcards == [WildcardClause(TitleKeyword, Wildcard.FilenameTerm(c.filename.value))])
      && (!HasTerm(c.filename) ==> wildcards == [])
      && (forall w | w in wildcards :: StartsWith(w.value, '*'))
  {
    var exts := Registry.Merged(FileTypeExtensions, c.fileTypes);
    CompiledFilterParts(c, user, parseDate);
    FilterKinds(user, c.filename, exts, DateRange(parseDate, c.beforeDate, Lt), DateRange(parseDate, c.afterDate, Gt));
  }

  /** In an accepted query the file-type filter is one case-insensitive regexp whose
      alternatives are exactly the merged extensions, present exactly when a known category is
      named. */
  lemma CompiledTypeFilter(c: Criteria, user: string, parseDate: string -> Option<int>)
    requires Compiled(c, user, parseDate).Ok?
    ensures var regexps := Where(Compiled(c, user, parseDate).value.filter, TypeRegexpKind);
      var exts := Registry.Merged(FileTypeExtensions, c.fileTypes);
      && (regexps != [] <==> KnownTypeGiven(c.fileTypes))
      && (KnownTypeGiven(c.fileTypes) ==>
            && regexps == [Regexp(TitleKeyword, TypePattern(exts), true)]
            && Explode(TypePattern(exts)[|TypePatternHead|..|TypePattern(exts)| - 1], '|') == exts)
  {
    var exts := Registry.Merged(FileTypeExtensions, c.fileTypes);
    CompiledFilterParts(c, user, parseDate);
    FilterKinds(user, c.filename, exts, DateRange(parseDate, c.beforeDate, Lt), DateRange(parseDate, c.afterDate, Gt));
    MergedNonEmpty(c.fileTypes);
    if exts != [] {
      TableWellFormed();
      Registry.MergedWellFormed(FileTypeExtensions, c.fileTypes);
      TypePatternAlternatives(exts);
    }
  }

  /** In an accepted query the range filters are the parsed before date (`lt`) followed by the
      parsed after date (`gt`), each present exactly when given. */
  lemma CompiledDateFilters(c: Criteria, user: string, parseDate: string -> Option<int>)
    requires Compiled(c, user, parseDate).Ok?
    ensures Where(Compiled(c, user, parseDate).value.filter, RangeKind) ==
      (if c.beforeDate.Some? then [Range(LastModified, Lt, parseDate(c.beforeDate.value).value)] else [])
      + (if c.afterDate.Some? then [Range(LastModified, Gt, parseDate(c.afterDate.value).value)] else [])
  {
    var exts := Registry.Merged(FileTypeExtensions, c.fileTypes);
    CompiledFilterParts(c, user, parseDate);
    FilterKinds(user, c.filename, exts, DateRange(parseDate, c.beforeDate, Lt), DateRange(parseDate, c.afterDate, Gt));
  }

  // ---------------------------------------------------------------------------------------
  // Highlighting

  const HighlightContent := Highlight(ContentField, "plain", "span")

  /** `addHighlighting($search_criteria)` as written: `isset($content) &&
      !empty(trim($content))`, and `empty` also holds for the string "0". */
  function AddHighlightingAsWritten(c: Criteria): (r: Option<Highlight>)
    ensures r.Some? <==> HasTerm(c.content) && Trim(c.content.value) != "0"
    ensures r.Some? ==> r.value == HighlightContent
  {
    if c.content.Some? && !IsEmpty(Trim(c.content.value)) then Some(HighlightContent) else None
  }

  /** The highlighting clause under the condition of the content match: content set and not
      blank. */
  function AddHighlighting(c: Criteria): (r: Option<Highlight>)
    ensures r.Some? ==> r.value == HighlightContent
  {
    if HasTerm(c.content) then Some(HighlightContent) else None
  }

  /** The content is highlighted exactly when the accepted query matches on it. */
  lemma HighlightingFollowsContentMatch(c: Criteria, user: string, parseDate: string -> Option<int>)
    requires Compiled(c, user, parseDate).Ok?
    ensures AddHighlighting(c).Some? <==> Compiled(c, user, parseDate).value.must.Some?
  {
  }

  /** The written condition differs from the intended one exactly for a content whose trimmed
      form is "0": that query matches on the content but asks for no highlighting. */
  lemma ZeroContentLosesHighlighting(c: Criteria)
    ensures AddHighlightingAsWritten(c) != AddHighlighting(c) <==>
      c.content.Some? && Trim(c.content.value) == "0"
  {
  }

  /** A concrete request that shows it: the content "0" and nothing else. */
  lemma ZeroContentExample(user: string, parseDate: string -> Option<int>)
    ensures var c := Criteria(Some("0"), None, None, None, None, None);
      && CompiledAsWritten(c, user, parseDate).Ok?
      && CompiledAsWritten(c, user, parseDate).value.must == Some(Match(ContentField, "0"))
      && AddHighlightingAsWritten(c) == None
  {
    assert !IsTrimmable("0"[0]);
    assert TrimStart("0") == "0";
    assert TrimEnd("0") == "0";
  }

  // ---------------------------------------------------------------------------------------
  // Sorting

  /** `buildSort($sort, $sort_order)`: no sort clause for `score` or an unknown key; `modified`
      sorts on the modification time and `path` on the full path, ascending exactly when the
      order is `asc`, with the relevance score as the second key. */
  function BuildSort(sort: string, sortOrder: string): (r: Option<SortClause>)
    ensures r.Some? <==> sort == "modified" || sort == "path"
    ensures r.Some? ==> r.value.tieBreak == "_score"
    ensures r.Some? ==> (r.value.order == Asc <==> sortOrder == "asc")
    ensures sort == "modified" ==> r.Some? && r.value.field == LastModified
    ensures sort == "path" ==> r.Some? && r.value.field == TitleKeyword
  {
    var order := if sortOrder == "asc" then Asc else Desc;
    if sort == "score" then None
    else if sort == "modified" then Some(SortClause(LastModified, order, "_score"))
    else if sort == "path" then Some(SortClause(TitleKeyword, order, "_score"))
    else None
  }

  // ---------------------------------------------------------------------------------------
  // Hits

  /** `buildHit($hit, $user)`: a hit without a share path for the user is dropped; otherwise
      the mime type is detected on the path, its icon is looked up and the link to the parent
      folder is built, and the first of these calls that throws turns the record into
      `{name: title, error: message}`. */
  function BuildHit(hit: RawHit, user: string, env: Collaborators): (r: HitOutcome)
    ensures r.Dropped? <==> user !in hit.shareNames
    ensures !r.Dropped? ==> r.name == hit.title
    ensures r.FileRecord? ==>
      var path := hit.shareNames[user];
      && env.detectMime(path) == Returned(r.contentType)
      && env.mimeIcon(r.contentType) == Returned(r.iconLink)
      && env.fileLink(env.dirname(path), FileId(hit.id)) == Returned(r.link)
      && r.modifiedAt == hit.lastModified
      && r.highlights == HighlightsOf(hit)
    ensures r.ErrorRecord? ==>
      var path := hit.shareNames[user];
      var mime := env.detectMime(path);
      if mime.Raised? then r.error == mime.message
      else if env.mimeIcon(mime.value).Raised? then r.error == env.mimeIcon(mime.value).message
      else env.fileLink(env.dirname(path), FileId(hit.id)) == Raised(r.error)
  {
    if user !in hit.shareNames then Dropped
    else
      var path := hit.shareNames[user];
      var fileId := FileId(hit.id);
      var parentFolder := env.dirname(path);
      match env.detectMime(path)
      case Raised(msg) => ErrorRecord(hit.title, msg)
      case Returned(mimeType) =>
        match env.mimeIcon(mimeType)
        case Raised(msg) => ErrorRecord(hit.title, msg)
        case Returned(icon) =>
          match env.fileLink(parentFolder, fileId)
          case Raised(msg) => ErrorRecord(hit.title, msg)
          case Returned(url) =>
            FileRecord(mimeType, hit.title, url, icon, hit.lastModified, HighlightsOf(hit))
  }

  /** A visible hit becomes a full record exactly when none of the framework calls throws. */
  lemma BuildHitDegrades(hit: RawHit, user: string, env: Collaborators)
    requires user in hit.shareNames
    ensures var path := hit.shareNames[user];
      BuildHit(hit, user, env).ErrorRecord? <==>
        || env.detectMime(path).Raised?
        || env.mimeIcon(env.detectMime(path).value).Raised?
        || env.fileLink(env.dirname(path), FileId(hit.id)).Raised?
  {
  }

  /** The records of `files`: one per visible hit, in the order of the raw hits. */
  function Collect(hits: seq<RawHit>, user: string, env: Collaborators): (files: seq<HitOutcome>)
    ensures |files| == |Visible(hits, user)| <= |hits|
    ensures forall i | 0 <= i < |files| :: files[i] == BuildHit(Visible(hits, user)[i], user, env)
    ensures forall f | f in files :: !f.Dropped?
  {
    if hits == [] then []
    else
      var init := hits[..|hits| - 1];
      var last := hits[|hits| - 1];
      assert hits == init + [last];
      var file := BuildHit(last, user, env);
      Collect(init, user, env) + (if file.Dropped? then [] else [file])
  }

  /** `hits.total` is a count or an object `{value: count}`. */
  datatype Total = Count(n: int) | TotalObject(value: int)

  /** The part of the Elasticsearch response the service reads. */
  datatype Response = Response(status: int, body: string, total: Total, hits: seq<RawHit>)

  /** `['index' => ..., 'body' => ['size', 'from', 'query', 'highlight'?, 'sort'?]]`. */
  datatype SearchParams = SearchParams(
    index: string, size: int, from: int, query: BoolQuery,
    highlight: Option<Highlight>, sort: Option<SortClause>)

  /** The array `searchFiles` returns. */
  datatype SearchResult = SearchResult(
    query: SearchParams, hits: int, page: int, size: int, result: Response, files: seq<HitOutcome>)

  /** `hits.total` read as a number: a plain count as it is, an object by its `value`. */
  function HitCount(t: Total): (r: int)
    ensures t.Count? ==> r == t.n
    ensures t.TotalObject? ==> r == t.value
  {
    match t
    case Count(n) => n
    case TotalObject(v) => v
  }

  /** `searchFiles($search_criteria, $page, $size, $sort, $sort_order)` for a given index,
      user and response, as written: the exceptions of the written query propagate, a status
      other than 200 raises a `ClientException` with the body, and otherwise the result holds
      the request parameters (`from` is `page * size`, the highlighting as written), the
      normalised total and the records of the visible hits in order. */
  method SearchFiles(c: Criteria, page: int, size: int, sort: string, sortOrder: string,
                     index: string, user: string, response: Response, env: Collaborators)
    returns (r: Result<SearchResult>)
    ensures CompiledAsWritten(c, user, env.parseDate).Thrown? ==> r == Thrown(CompiledAsWritten(c, user, env.parseDate).exception)
    ensures CompiledAsWritten(c, user, env.parseDate).Ok? && response.status != 200 ==>
      r == Thrown(ClientException(response.body))
    ensures r.Ok? <==> CompiledAsWritten(c, user, env.parseDate).Ok? && response.status == 200
    ensures r.Ok? ==> r.value == SearchResult(
      SearchParams(index, size, page * size, CompiledAsWritten(c, user, env.parseDate).value,
                   AddHighlightingAsWritten(c), BuildSort(sort, sortOrder)),
      HitCount(response.total), page, size, response, Collect(response.hits, user, env))
  {
    var query := BuildQuery(c, user, env.parseDate);
    if query.Thrown? {
      return Thrown(query.exception);
    }
    var params := SearchParams(index, size, page * size, query.value, AddHighlightingAsWritten(c), BuildSort(sort, sortOrder));
    if response.status != 200 {
      return Thrown(ClientException(response.body));
    }
    var hits := HitCount(response.total);
    var files := CollectFiles(response.hits, user, env);
    return Ok(SearchResult(params, hits, page, size, response, files));
  }

  /** The `foreach` over `hits.hits`: every hit that `buildHit` does not drop is appended. */
  method CollectFiles(raw: seq<RawHit>, user: string, env: Collaborators) returns (files: seq<HitOutcome>)
    ensures files == Collect(raw, user, env)
  {
    files := [];
    for i := 0 to |raw|
      invariant files == Collect(raw[..i], user, env)
    {
      assert raw[..i + 1][..i] == raw[..i];
      var file := BuildHit(raw[i], user, env);
      if !file.Dropped? {
        files := files + [file];
      }
    }
    assert raw[..|raw|] == raw;
  }

  /** The records do not depend on hits the user cannot see: dropping such a hit from the
      response leaves `files` unchanged. */
  lemma {:induction false} CollectIgnoresInvisible(a: seq<RawHit>, hit: RawHit, b: seq<RawHit>, user: string, env: Collaborators)
    requires user !in hit.shareNames
    ensures Collect(a + [hit] + b, user, env) == Collect(a + b, user, env)
    decreases |b|
  {
    if b == [] {
      assert (a + [hit] + b)[..|a + [hit] + b| - 1] == a;
      assert a + b == a;
    } else {
      var b' := b[..|b| - 1];
      assert (a + [hit] + b)[..|a + [hit] + b| - 1] == a + [hit] + b';
      assert (a + b)[..|a + b| - 1] == a + b';
      CollectIgnoresInvisible(a, hit, b', user, env);
    }
  }

  // ---------------------------------------------------------------------------------------
  // Host list

  const NotConfiguredMessage := "Your ElasticSearchPlatform is not configured properly"

  /** `cleanHost($host)`: a lone `/` stays; otherwise trailing slashes, then surrounding
      whitespace, are removed. */
  function CleanHost(host: string): (r: string)
    ensures host == "/" ==> r == "/"
    ensures host != "/" ==> r == Trim(TrimEndOf(host, '/'))
    ensures r == [] || (!IsTrimmable(r[0]) && !IsTrimmable(r[|r| - 1]))
    ensures forall ch :: ch in r ==> ch in host
  {
    if host == "/" then "/"
    else
      var stripped := TrimEndOf(host, '/');
      PrefixChars(host, stripped);
      Trim(stripped)
  }

  /** Every character of a prefix occurs in the whole string. */
  lemma PrefixChars(s: string, p: string)
    requires |p| <= |s| && p == s[..|p|]
    ensures forall ch :: ch in p ==> ch in s
  {
    forall ch | ch in p ensures ch in s {
      var i :| 0 <= i < |p| && p[i] == ch;
      assert s[i] == ch;
    }
  }

  /** On a host without whitespace, other than a lone `/`, cleaning removes exactly the
      trailing slashes. */
  lemma CleanHostStripsSlashes(host: string)
    requires host != "/" && forall i | 0 <= i < |host| :: !IsTrimmable(host[i])
    ensures var r := CleanHost(host);
      && |r| <= |host| && r == host[..|r|]
      && (r == [] || r[|r| - 1] != '/')
      && forall i | |r| <= i < |host| :: host[i] == '/'
  {
    var stripped := TrimEndOf(host, '/');
    assert forall i | 0 <= i < |stripped| :: !IsTrimmable(stripped[i]);
    TrimNoop(stripped);
  }

  /** Only the exact host `/` escapes cleaning: two slashes clean to the empty host. */
  lemma CleanHostLoneSlash()
    ensures CleanHost("/") == "/"
    ensures CleanHost("//") == ""
  {
    assert TrimEndOf("/", '/') == "";
    assert TrimEndOf("//", '/') == TrimEndOf("/", '/');
    assert Trim("") == "";
  }

  /** Trimming a string without trimmable characters leaves it as it is. */
  lemma TrimNoop(s: string)
    requires forall i | 0 <= i < |s| :: !IsTrimmable(s[i])
    ensures Trim(s) == s
  {
    assert TrimStart(s) == s;
    assert TrimEnd(s) == s;
  }

  /** The hosts `buildClient` passes to the client builder: an empty setting raises
      `QueryException`; otherwise one host per comma-separated entry, each trimmed and cleaned,
      so none contains a comma or starts or ends with whitespace. */
  function ElasticHosts(configured: string): (r: Result<seq<string>>)
    ensures r.Thrown? <==> configured == ""
    ensures r.Thrown? ==> r.exception == QueryException(NotConfiguredMessage)
    ensures r.Ok? ==> |r.value| == |Explode(configured, ',')|
    ensures r.Ok? ==> forall i | 0 <= i < |r.value| ::
      r.value[i] == CleanHost(Trim(Explode(configured, ',')[i]))
  {
    if configured == "" then Thrown(QueryException(NotConfiguredMessage))
    else
      var parts := Explode(configured, ',');
      Ok(seq(|parts|, i requires 0 <= i < |parts| => CleanHost(Trim(parts[i]))))
  }

  /** A host name with no comma and no whitespace at either end. */
  predicate IsCleanHostName(host: string) {
    && ',' !in host
    && (host == [] || (!IsTrimmable(host[0]) && !IsTrimmable(host[|host| - 1])))
  }

  /** No configured host contains a comma or starts or ends with whitespace. */
  lemma ElasticHostsClean(configured: string)
    requires configured != ""
    ensures var hosts := ElasticHosts(configured).value;
      forall i | 0 <= i < |hosts| :: IsCleanHostName(hosts[i])
  {
    var parts := Explode(configured, ',');
    var hosts := ElasticHosts(configured).value;
    forall i | 0 <= i < |hosts| ensures IsCleanHostName(hosts[i]) {
      assert parts[i] in parts;
      HostOfEntryClean(parts[i]);
    }
  }

  /** The host made of one comma-free entry has no comma and no whitespace at either end. */
  lemma HostOfEntryClean(entry: string)
    requires ',' !in entry
    ensures IsCleanHostName(CleanHost(Trim(entry)))
  {
    assert ',' !in Trim(entry);
  }
}
