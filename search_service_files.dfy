/** `SearchServiceFiles`: the second variant of the query compiler.  It has the same table,
    sort and hit handling as `FileFinderService`, but a filename pattern is mandatory, and the
    content clause tests a variable that is never assigned, so it never matches on content.
    Its `searchFiles` is not part of this model. */
module SearchServiceFiles {
  import opened Php
  import Registry
  import opened Elastic
  import Wildcard
  import FileFinderService

  // ---------------------------------------------------------------------------------------
  // The file-type table and the extension merge

  /** This class's own copy of `FILE_TYPE_EXTENSIONS`. */
  const FileTypeExtensions: Registry.Table := map[
    "images" := ["jpg", "jpeg", "png", "gif", "webp", "bmp", "svg", "ico", "heic"],
    "music" := ["mp3", "ogg", "flac", "wav", "m4a", "aac", "wma"],
    "pdfs" := ["pdf"],
    "spreadsheets" := ["xls", "xlsx", "ods", "csv", "numbers"],
    "documents" := ["doc", "docx", "odt", "txt", "rtf", "md"],
    "videos" := ["mp4", "webm", "mkv", "avi", "mov", "wmv"]
  ]

  /** The copy is the same as the one in `FileFinderService`, so it has no `presentations`
      either, and it is well formed. */
  lemma TableSameAsFinder()
    ensures FileTypeExtensions == FileFinderService.FileTypeExtensions
    ensures "presentations" !in FileTypeExtensions
    ensures Registry.WellFormed(FileTypeExtensions)
  {
    FileFinderService.TableWellFormed();
    FileFinderService.TableDiffersFromMapper();
  }

  /** `getExtensionsForType($type)`: `FILE_TYPE_EXTENSIONS[$type] ?? []`, the same answer as
      the other service gives. */
  function ExtensionsForType(t: string): (r: seq<string>)
    ensures r == FileFinderService.ExtensionsForType(t)
    ensures t in FileTypeExtensions ==> r == FileTypeExtensions[t]
    ensures r == [] <==> t !in FileTypeExtensions
  {
    TableSameAsFinder();
    Registry.Lookup(FileTypeExtensions, t)
  }

  /** `getMergedExtensionsForTypes($fileTypes)`: the extensions of the known string categories
      given, without duplicates, in order of first appearance, exactly as in the other
      service. */
  method GetMergedExtensionsForTypes(fileTypes: Option<seq<Value>>) returns (exts: seq<string>)
    ensures exts == Registry.Merged(FileTypeExtensions, fileTypes)
    ensures exts == Registry.Merged(FileFinderService.FileTypeExtensions, fileTypes)
    ensures fileTypes.None? || fileTypes == Some([]) ==> exts == []
    ensures Registry.NoDuplicates(exts)
    ensures forall e :: e in exts ==> Registry.IsExtension(e)
  {
    // The loop reads each category with `Registry.Lookup`, which `ExtensionsForType` equals.
    exts := Registry.MergeExtensions(FileTypeExtensions, fileTypes);
    TableSameAsFinder();
    Registry.MergedWellFormed(FileTypeExtensions, fileTypes);
  }

  // ---------------------------------------------------------------------------------------
  // The query

  const PatternMissingMessage := "A search pattern needs to be provided"

  /** The query `buildQuery($search_criteria, $user)` assembles from the outcomes of its two
      date blocks and a content clause: it throws when no filename term is given, whatever the
      content, then whatever the before block and then the after block throw; otherwise the
      filter list holds the base filter, the filename wildcard, the file-type regexp and the
      date ranges, and `must_not` holds the excluded folders. */
  function QueryWith(c: Criteria, user: string, before: Result<seq<Clause>>, after: Result<seq<Clause>>,
                     must: Option<Clause>): Result<BoolQuery>
  {
    if !HasTerm(c.filename) then Thrown(QueryException(PatternMissingMessage))
    else
      match before
      case Thrown(e) => Thrown(e)
      case Ok(beforeFilter) =>
        match after
        case Thrown(e) => Thrown(e)
        case Ok(afterFilter) =>
          Ok(BoolQuery(
            BaseFilter(user) + FilenameFilter(c.filename)
              + TypeFilter(Registry.Merged(FileTypeExtensions, c.fileTypes)) + beforeFilter + afterFilter,
            must,
            ExcludeClauses(c.excludeFolders)))
  }

  /** What `buildQuery` returns or throws with its date exceptions caught as intended (a date
      that does not parse raises the `QueryException` naming it) and its content ignored as
      written: there is never a `must` clause. */
  function Compiled(c: Criteria, user: string, parseDate: string -> Option<int>): (r: Result<BoolQuery>)
    ensures r.Ok? <==> (HasTerm(c.filename)
      && !DateRejected(parseDate, c.beforeDate) && !DateRejected(parseDate, c.afterDate))
  {
    QueryWith(c, user,
      RangeFilter(parseDate, c.beforeDate, BeforeDateMessage, Lt),
      RangeFilter(parseDate, c.afterDate, AfterDateMessage, Gt),
      None)
  }

  /** What `buildQuery` returns or throws as written: the content is ignored, and the
      exception of a date that does not parse is not caught and leaves the method as it is. */
  function CompiledAsWritten(c: Criteria, user: string, parseDate: string -> Option<int>): (r: Result<BoolQuery>)
    ensures r.Ok? <==> (HasTerm(c.filename)
      && !DateRejected(parseDate, c.beforeDate) && !DateRejected(parseDate, c.afterDate))
  {
    QueryWith(c, user,
      RangeFilterAsWritten(parseDate, c.beforeDate, Lt), RangeFilterAsWritten(parseDate, c.afterDate, Gt),
      None)
  }

  /** The written query and the one with the intended catch agree except when a filename
      term is given and a date is rejected: the written one then lets the `DateTime` exception
      of the first rejected date out. */
  lemma CompiledAsWrittenDiffers(c: Criteria, user: string, parseDate: string -> Option<int>)
    ensures CompiledAsWritten(c, user, parseDate) ==
      if !HasTerm(c.filename) then Compiled(c, user, parseDate)
      else if DateRejected(parseDate, c.beforeDate) then Thrown(DateTimeException(c.beforeDate.value))
      else if DateRejected(parseDate, c.afterDate) then Thrown(DateTimeException(c.afterDate.value))
      else Compiled(c, user, parseDate)
  {
    RangeFilterAsWrittenDiffers(parseDate, c.beforeDate, BeforeDateMessage, Lt);
    RangeFilterAsWrittenDiffers(parseDate, c.afterDate, AfterDateMessage, Gt);
  }

  /** `buildQuery($search_criteria, $user)`, growing the query one clause at a time.  The
      content test reads `$content`, which this method never assigns: PHP reads it as `null`,
      `trim((string) null)` is `''`, the test fails and no `must` clause is added, so that
      step adds nothing here.  A date that does not parse leaves the method with the
      `DateTime` exception, which the unqualified `catch` does not catch. */
  method BuildQuery(c: Criteria, user: string, parseDate: string -> Option<int>) returns (r: Result<BoolQuery>)
    ensures r == CompiledAsWritten(c, user, parseDate)
  {
    if !HasTerm(c.filename) {
      return Thrown(QueryException(PatternMissingMessage));
    }
    var filter := BaseFilter(user);
    filter := filter + [WildcardClause(TitleKeyword, Wildcard.FilenameTerm(c.filename.value))];
    assert filter == BaseFilter(user) + FilenameFilter(c.filename);
    ghost var named := filter;
    var exts := GetMergedExtensionsForTypes(c.fileTypes);
    if exts != [] {
      filter := filter + [Regexp(TitleKeyword, TypePattern(exts), true)];
    } else {
      assert filter == named + [];
    }
    assert filter == named + TypeFilter(exts);
    ghost var typed := filter;
    // The two date blocks are the same code as in the other service.
    var before := FileFinderService.DateFilter(parseDate, c.beforeDate, Lt);
    if before.Thrown? {
      return Thrown(before.exception);
    }
    filter := filter + before.value;
    var after := FileFinderService.DateFilter(parseDate, c.afterDate, Gt);
    if after.Thrown? {
      return Thrown(after.exception);
    }
    filter := filter + after.value;
    var mustNot: Option<seq<Clause>> := None;
    if c.excludeFolders.Some? {
      var clauses := ExcludeFolders(c.excludeFolders.value);
      mustNot := Some(clauses);
    }
    assert mustNot == ExcludeClauses(c.excludeFolders);
    assert filter == typed + before.value + after.value;
    QueryWithAccepted(c, user, before.value, after.value);
    return Ok(BoolQuery(filter, None, mustNot));
  }

  /** Once a filename term is given and both date blocks pass, the query is the assembled one. */
  lemma QueryWithAccepted(c: Criteria, user: string, beforeFilter: seq<Clause>, afterFilter: seq<Clause>)
    requires HasTerm(c.filename)
    ensures QueryWith(c, user, Ok(beforeFilter), Ok(afterFilter), None) ==
      Ok(BoolQuery(
        BaseFilter(user) + FilenameFilter(c.filename)
          + TypeFilter(Registry.Merged(FileTypeExtensions, c.fileTypes)) + beforeFilter + afterFilter,
        None,
        ExcludeClauses(c.excludeFolders)))
  {
  }

  /** With a filename term, this variant compiles what the other one compiles for the same
      criteria without content; without one it always throws its own message, even when a
      content term is given. */
  lemma CompiledAgreesWithFinder(c: Criteria, user: string, parseDate: string -> Option<int>)
    ensures HasTerm(c.filename) ==>
      Compiled(c, user, parseDate) == FileFinderService.Compiled(c.(content := None), user, parseDate)
    ensures !HasTerm(c.filename) ==>
      Compiled(c, user, parseDate) == Thrown(QueryException(PatternMissingMessage))
    ensures HasTerm(c.filename) ==>
      CompiledAsWritten(c, user, parseDate) == FileFinderService.CompiledAsWritten(c.(content := None), user, parseDate)
    ensures !HasTerm(c.filename) ==>
      CompiledAsWritten(c, user, parseDate) == Thrown(QueryException(PatternMissingMessage))
  {
    TableSameAsFinder();
  }

  /** The query with the intended catch is refused exactly when no filename term is given or
      a date does not parse, always with a `QueryException`. */
  lemma CompiledFailures(c: Criteria, user: string, parseDate: string -> Option<int>)
    ensures var r := Compiled(c, user, parseDate);
      && (r.Thrown? <==> !HasTerm(c.filename)
                         || DateRejected(parseDate, c.beforeDate) || DateRejected(parseDate, c.afterDate))
      && (r.Thrown? ==> r.exception.QueryException?)
      && (r == Thrown(QueryException(PatternMissingMessage)) <==> !HasTerm(c.filename))
  {
    CompiledAgreesWithFinder(c, user, parseDate);
    FileFinderService.CompiledFailures(c.(content := None), user, parseDate);
    assert |BeforeDateMessage| != |PatternMissingMessage|;
    assert |AfterDateMessage| != |PatternMissingMessage|;
    assert |FileFinderService.MissingTermMessage| != |PatternMissingMessage|;
  }

  /** The written query is refused in the same cases, but the only `QueryException` it raises
      is the missing-pattern one: a rejected date escapes as the `DateTime` exception of that
      date, the before date first. */
  lemma CompiledAsWrittenFailures(c: Criteria, user: string, parseDate: string -> Option<int>)
    ensures var r := CompiledAsWritten(c, user, parseDate);
      && (r.Thrown? <==> !HasTerm(c.filename)
                         || DateRejected(parseDate, c.beforeDate) || DateRejected(parseDate, c.afterDate))
      && (r.Thrown? && r.exception.QueryException? <==> !HasTerm(c.filename))
      && (r.Thrown? && r.exception.QueryException? ==> r.exception.message == PatternMissingMessage)
      && (HasTerm(c.filename) && DateRejected(parseDate, c.beforeDate) ==>
            r == Thrown(DateTimeException(c.beforeDate.value)))
      && (HasTerm(c.filename) && !DateRejected(parseDate, c.beforeDate) && DateRejected(parseDate, c.afterDate) ==>
            r == Thrown(DateTimeException(c.afterDate.value)))
  {
    CompiledAsWrittenDiffers(c, user, parseDate);
    CompiledFailures(c, user, parseDate);
  }

  /** An accepted query starts with the access filters, has exactly one wildcard filter, the
      filename with a leading `*`, never a `must` clause, the same file-type and date filters as
      the other variant, and a `must_not` list exactly when `exclude_folders` is a list, naming
      exactly its string entries. */
  lemma CompiledShape(c: Criteria, user: string, parseDate: string -> Option<int>, f: string)
    requires Compiled(c, user, parseDate).Ok?
    ensures var q := Compiled(c, user, parseDate).value;
      && |q.filter| >= 2 && q.filter[0] == Regexp(TitleKeyword, ".+", false)
      && q.filter[1] == Exists(SharePrefix + user)
      && Where(q.filter, WildcardKind) == [WildcardClause(TitleKeyword, Wildcard.FilenameTerm(c.filename.value))]
      && StartsWith(Wildcard.FilenameTerm(c.filename.value), '*')
      && q.must.None?
      && (Where(q.filter, TypeRegexpKind) != [] <==> FileFinderService.KnownTypeGiven(c.fileTypes))
      && Where(q.filter, RangeKind) ==
           (if c.beforeDate.Some? then [Range(LastModified, Lt, parseDate(c.beforeDate.value).value)] else [])
           + (if c.afterDate.Some? then [Range(LastModified, Gt, parseDate(c.afterDate.value).value)] else [])
      && (q.mustNot.Some? <==> c.excludeFolders.Some?)
      && (q.mustNot.Some? ==> (Prefix(TitleKeyword, f) in q.mustNot.value <==> Str(f) in c.excludeFolders.value))
  {
    var d := c.(content := None);
    CompiledAgreesWithFinder(c, user, parseDate);
    FileFinderService.CompiledAccess(d, user, parseDate);
    FileFinderService.CompiledContent(d, user, parseDate);
    FileFinderService.CompiledExclusions(d, user, parseDate, f);
    FileFinderService.CompiledFilenameFilter(d, user, parseDate);
    FileFinderService.CompiledTypeFilter(d, user, parseDate);
    FileFinderService.CompiledDateFilters(d, user, parseDate);
  }

  /** The concrete request that shows the unassigned `$content`: content "lease" and filename
      "*.pdf" give a query without any `must` clause, so the content is ignored. */
  lemma ContentIgnoredExample(user: string, parseDate: string -> Option<int>)
    ensures var c := Criteria(Some("lease"), Some("*.pdf"), None, None, None, None);
      && CompiledAsWritten(c, user, parseDate).Ok?
      && CompiledAsWritten(c, user, parseDate).value.must == None
      && CompiledIntended(c, user, parseDate).value.must == Some(Match(ContentField, "lease"))
  {
    assert !IsTrimmable("lease"[0]) && !IsTrimmable("lease"[4]);
    assert !IsTrimmable("*.pdf"[0]) && !IsTrimmable("*.pdf"[4]);
    assert Trim("lease") != "";
    assert Trim("*.pdf") != "";
  }

  /** The query as evidently intended: `$content` read from the criteria as in the other
      variant, so that a content term adds its `must` match, and the date exceptions caught. */
  function CompiledIntended(c: Criteria, user: string, parseDate: string -> Option<int>): (r: Result<BoolQuery>)
    ensures r.Thrown? <==> Compiled(c, user, parseDate).Thrown?
    ensures r.Ok? ==> r.value == Compiled(c, user, parseDate).value.(must := ContentMust(c.content))
  {
    QueryWith(c, user,
      RangeFilter(parseDate, c.beforeDate, BeforeDateMessage, Lt),
      RangeFilter(parseDate, c.afterDate, AfterDateMessage, Gt),
      ContentMust(c.content))
  }

  /** The intended query matches on the content exactly when a content term is given, and it
      is the other variant's query whenever a filename term is given. */
  lemma IntendedMatchesContent(c: Criteria, user: string, parseDate: string -> Option<int>)
    ensures HasTerm(c.filename) ==>
      CompiledIntended(c, user, parseDate) == FileFinderService.Compiled(c, user, parseDate)
    ensures CompiledIntended(c, user, parseDate).Ok? ==>
      var q := CompiledIntended(c, user, parseDate).value;
      && (q.must.Some? <==> HasTerm(c.content))
      && (q.must.Some? ==> q.must.value == Match(ContentField, c.content.value))
  {
    TableSameAsFinder();
  }

  // ---------------------------------------------------------------------------------------
  // Sorting and hits

  /** `buildSort($sort, $sort_order)`: this class's copy, which behaves exactly as the other
      service's. */
  function BuildSort(sort: string, sortOrder: string): (r: Option<SortClause>)
    ensures r == FileFinderService.BuildSort(sort, sortOrder)
  {
    var order := if sortOrder == "asc" then Asc else Desc;
    if sort == "score" then None
    else if sort == "modified" then Some(SortClause(LastModified, order, "_score"))
    else if sort == "path" then Some(SortClause(TitleKeyword, order, "_score"))
    else None
  }

  /** `buildHit($hit, $user)`: this class's copy, which behaves exactly as the other service's:
      dropped without a share path for the user, degraded to `{name, error}` when a framework
      call throws. */
  function BuildHit(hit: RawHit, user: string, env: Collaborators): (r: HitOutcome)
    ensures r == FileFinderService.BuildHit(hit, user, env)
  {
    if user !in hit.shareNames then Dropped
    else
      var path := hit.shareNames[user];
      var fileId := FileId(hit.id);
      var parentFolder := env.dirname(path);
      match env.detectMime(path)
      case Raised(msg) => ErrorRecord(hit.title, msg)
      case Returned(mimeType) =>
        match env.mimeIcon(mimeType)
        case Raised(msg) => ErrorRecord(hit.title, msg)
        case Returned(icon) =>
          match env.fileLink(parentFolder, fileId)
          case Raised(msg) => ErrorRecord(hit.title, msg)
          case Returned(url) =>
            FileRecord(mimeType, hit.title, url, icon, hit.lastModified, HighlightsOf(hit))
  }
}
