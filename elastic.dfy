/** What the two search services share: the criteria they read, the Elasticsearch-shaped
    query they emit, the raw hits they read back and the records they return, and the
    collaborators (date parser, mime detector, icon lookup, URL generator) they call.  The
    query clauses below are the PHP arrays of the source written as datatypes. */
module Elastic {
  import opened Php
  import Registry
  import Wildcard

  const TitleKeyword := "title.keyword"
  const SharePrefix := "share_names."
  const ContentField := "content"
  const LastModified := "lastModified"

  /** The search criteria map; `None` stands for an unset or `null` key and, for the two
      lists, also for a value that is not an array. */
  datatype Criteria = Criteria(
    content: Option<string>,
    filename: Option<string>,
    fileTypes: Option<seq<Value>>,
    beforeDate: Option<string>,
    afterDate: Option<string>,
    excludeFolders: Option<seq<Value>>)

  /** The exceptions that leave `buildQuery`. */
  datatype Exception =
    | QueryException(message: string)
    | DateTimeException(input: string)   // thrown by `new DateTime(...)` itself
    | ClientException(body: string)       // a response whose status is not 200

  datatype Result<T> = Ok(value: T) | Thrown(exception: Exception)

  datatype RangeOp = Lt | Gt

  /** One leaf of the `bool` query.  A `regexp` written in its short form
      (`['title.keyword' => '.+']`) has `caseInsensitive == false`, Elasticsearch's default. */
  datatype Clause =
    | Regexp(field: string, value: string, caseInsensitive: bool)
    | Exists(field: string)
    | Match(field: string, text: string)
    | WildcardClause(field: string, value: string)
    | Range(field: string, op: RangeOp, bound: int)
    | Prefix(field: string, value: string)

  /** `['bool' => ['filter' => [...], 'must' => ..., 'must_not' => [...]]]`; an absent key is `None`. */
  datatype BoolQuery = BoolQuery(filter: seq<Clause>, must: Option<Clause>, mustNot: Option<seq<Clause>>)

  datatype Highlight = Highlight(field: string, kind: string, fragmenter: string)

  datatype Order = Asc | Desc

  /** `[[<field> => ['order' => <order>]], <tieBreak>]`. */
  datatype SortClause = SortClause(field: string, order: Order, tieBreak: string)

  // ---------------------------------------------------------------------------------------
  // Pieces of the query common to both services

  /** The two filters every query starts with: the title is non-empty, and the document has a
      share path for the requesting user (the access check). */
  function BaseFilter(user: string): seq<Clause>
  {
    [Regexp(TitleKeyword, ".+", false), Exists(SharePrefix + user)]
  }

  const TypePatternHead := ".*\\.("

  /** `'.*\.(' . implode('|', $extensions) . ')'`. */
  function TypePattern(exts: seq<string>): string
  {
    TypePatternHead + Join(exts, '|') + ")"
  }

  /** The file-type pattern lists exactly the merged extensions as its alternatives: cutting
      the group between `(` and `)` at each `|` gives them back. */
  lemma TypePatternAlternatives(exts: seq<string>)
    requires exts != []
    requires forall e :: e in exts ==> Registry.IsExtension(e)
    ensures var p := TypePattern(exts);
      p[..|TypePatternHead|] == TypePatternHead && p[|p| - 1] == ')' &&
      Explode(p[|TypePatternHead|..|p| - 1], '|') == exts
  {
    var p := TypePattern(exts);
    assert p[|TypePatternHead|..|p| - 1] == Join(exts, '|');
    forall e | e in exts ensures '|' !in e {
      if '|' in e {
        Registry.ExtensionChars(e, '|');
      }
    }
    ExplodeJoin(exts, '|');
  }

  const BeforeDateMessage := "invalid before date provided"
  const AfterDateMessage := "invalid after date provided"

  /** A date criterion as the services intend it: a string the parser rejects raises
      `QueryException(message)`, the message naming the criterion. */
  function DateBound(parseDate: string -> Option<int>, raw: string, message: string): (r: Result<int>)
    ensures r.Ok? <==> parseDate(raw).Some?
    ensures r.Ok? ==> r.value == parseDate(raw).value
    ensures r.Thrown? ==> r.exception == QueryException(message)
  {
    match parseDate(raw)
    case Some(seconds) => Ok(seconds)
    case None => Thrown(QueryException(message))
  }

  /** A date criterion as the code is written: `catch (Exception $e)` inside the namespace
      `OCA\FileFinder\Service` names a class `OCA\FileFinder\Service\Exception` that does not
      exist, so the exception of `new DateTime(...)` is not caught and leaves `buildQuery`
      unchanged. */
  function DateBoundAsWritten(parseDate: string -> Option<int>, raw: string): (r: Result<int>)
    ensures r.Ok? <==> parseDate(raw).Some?
    ensures r.Ok? ==> r.value == parseDate(raw).value
    ensures r.Thrown? ==> r.exception == DateTimeException(raw)
  {
    match parseDate(raw)
    case Some(seconds) => Ok(seconds)
    case None => Thrown(DateTimeException(raw))
  }

  /** The discrepancy: for any date string the parser rejects, the written code lets a
      non-`QueryException` escape where the intended code raises a `QueryException`. */
  lemma UnqualifiedCatchLetsDateErrorEscape(parseDate: string -> Option<int>, raw: string, message: string)
    requires parseDate(raw).None?
    ensures DateBoundAsWritten(parseDate, raw).Thrown?
    ensures !DateBoundAsWritten(parseDate, raw).exception.QueryException?
    ensures DateBound(parseDate, raw, message) == Thrown(QueryException(message))
  {
  }

  /** The `must_not` clauses for `exclude_folders`: one `prefix` clause per string entry, in
      input order; non-strings are skipped. */
  function PrefixClauses(folders: seq<Value>): (r: seq<Clause>)
    ensures |r| <= |folders|
    ensures forall i | 0 <= i < |r| :: r[i].Prefix? && r[i].field == TitleKeyword
  {
    if folders == [] then []
    else
      var last := folders[|folders| - 1];
      PrefixClauses(folders[..|folders| - 1]) +
        (if last.Str? then [Prefix(TitleKeyword, last.s)] else [])
  }

  /** The `foreach` over `exclude_folders`: one `prefix` clause per string entry, in order. */
  method ExcludeFolders(folders: seq<Value>) returns (clauses: seq<Clause>)
    ensures clauses == PrefixClauses(folders)
  {
    clauses := [];
    for i := 0 to |folders|
      invariant clauses == PrefixClauses(folders[..i])
    {
      assert folders[..i + 1][..i] == folders[..i];
      if !folders[i].Str? {
        assert PrefixClauses(folders[..i + 1]) == PrefixClauses(folders[..i]) + [];
        continue;
      }
      clauses := clauses + [Prefix(TitleKeyword, folders[i].s)];
    }
    assert folders[..|folders|] == folders;
  }

  /** The folders excluded are exactly the string entries of the list. */
  lemma {:induction false} PrefixClausesExclude(folders: seq<Value>, f: string)
    ensures Prefix(TitleKeyword, f) in PrefixClauses(folders) <==> Str(f) in folders
  {
    if folders != [] {
      var init := folders[..|folders| - 1];
      assert folders == init + [folders[|folders| - 1]];
      PrefixClausesExclude(init, f);
    }
  }

  /** The clauses of a concatenation are the clauses of the first part followed by those of
      the second: the input order is kept. */
  lemma {:induction false} PrefixClausesAppend(a: seq<Value>, b: seq<Value>)
    ensures PrefixClauses(a + b) == PrefixClauses(a) + PrefixClauses(b)
    decreases |b|
  {
    if b == [] {
      assert a + b == a;
    } else {
      var b' := b[..|b| - 1];
      assert (a + b)[..|a + b| - 1] == a + b';
      PrefixClausesAppend(a, b');
    }
  }

  /** One entry gives one `prefix` clause on its value when it is a string, none otherwise. */
  lemma PrefixClausesSingle(v: Value)
    ensures PrefixClauses([v]) == (if v.Str? then [Prefix(TitleKeyword, v.s)] else [])
  {
    assert [v][..0] == [];
  }

  /** The `wildcard` filter on the full path, present when a filename is given. */
  function FilenameFilter(filename: Option<string>): seq<Clause>
  {
    if HasTerm(filename) then [WildcardClause(TitleKeyword, Wildcard.FilenameTerm(filename.value))] else []
  }

  /** The case-insensitive `regexp` filter on the extension, present when some extension is
      requested. */
  function TypeFilter(exts: seq<string>): seq<Clause>
  {
    if exts == [] then [] else [Regexp(TitleKeyword, TypePattern(exts), true)]
  }

  /** A `range` filter on `lastModified` for an optional date criterion, or the exception its
      parsing raises. */
  function RangeFilter(parseDate: string -> Option<int>, raw: Option<string>, message: string, op: RangeOp)
    : Result<seq<Clause>>
  {
    match raw
    case None => Ok([])
    case Some(s) =>
      match DateBound(parseDate, s, message)
      case Ok(seconds) => Ok([Range(LastModified, op, seconds)])
      case Thrown(e) => Thrown(e)
  }

  /** A date block as the code is written: the exception of an unparsable date leaves it
      uncaught. */
  function RangeFilterAsWritten(parseDate: string -> Option<int>, raw: Option<string>, op: RangeOp)
    : Result<seq<Clause>>
  {
    match raw
    case None => Ok([])
    case Some(s) =>
      match DateBoundAsWritten(parseDate, s)
      case Ok(seconds) => Ok([Range(LastModified, op, seconds)])
      case Thrown(e) => Thrown(e)
  }

  /** The written and the intended date block agree on every date the parser accepts; on a
      rejected one the written block lets the `DateTime` exception out where the intended one
      raises `QueryException(message)`. */
  lemma RangeFilterAsWrittenDiffers(parseDate: string -> Option<int>, raw: Option<string>, message: string, op: RangeOp)
    ensures !DateRejected(parseDate, raw) ==>
      RangeFilterAsWritten(parseDate, raw, op) == RangeFilter(parseDate, raw, message, op)
    ensures DateRejected(parseDate, raw) ==>
      && RangeFilterAsWritten(parseDate, raw, op) == Thrown(DateTimeException(raw.value))
      && RangeFilter(parseDate, raw, message, op) == Thrown(QueryException(message))
  {
  }

  /** The date string the parser rejects, if any. */
  predicate DateRejected(parseDate: string -> Option<int>, raw: Option<string>) {
    raw.Some? && parseDate(raw.value).None?
  }

  /** The `must` clause for a content term. */
  function ContentMust(content: Option<string>): Option<Clause>
  {
    if HasTerm(content) then Some(Match(ContentField, content.value)) else None
  }

  /** The `must_not` list: absent unless `exclude_folders` is an array. */
  function ExcludeClauses(folders: Option<seq<Value>>): Option<seq<Clause>>
  {
    match folders
    case None => None
    case Some(fs) => Some(PrefixClauses(fs))
  }

  // ---------------------------------------------------------------------------------------
  // Selecting clauses of one kind from a filter list

  /** The three kinds of filter clause the services append after the base filter. */
  datatype Kind = WildcardKind | TypeRegexpKind | RangeKind

  predicate IsKind(c: Clause, kind: Kind) {
    match kind
    case WildcardKind => c.WildcardClause?
    case TypeRegexpKind => c.Regexp? && c.caseInsensitive
    case RangeKind => c.Range?
  }

  /** The clauses of one kind, in order. */
  function Where(cs: seq<Clause>, kind: Kind): (r: seq<Clause>)
    ensures |r| <= |cs|
    ensures forall i | 0 <= i < |r| :: IsKind(r[i], kind)
  {
    if cs == [] then []
    else Where(cs[..|cs| - 1], kind) + (if IsKind(cs[|cs| - 1], kind) then [cs[|cs| - 1]] else [])
  }

  lemma {:induction false} WhereAppend(a: seq<Clause>, b: seq<Clause>, kind: Kind)
    ensures Where(a + b, kind) == Where(a, kind) + Where(b, kind)
    decreases |b|
  {
    if b == [] {
      assert a + b == a;
    } else {
      var b' := b[..|b| - 1];
      assert (a + b)[..|a + b| - 1] == a + b';
      WhereAppend(a, b', kind);
    }
  }

  /** All clauses of a part are of the kind. */
  predicate AllOfKind(cs: seq<Clause>, kind: Kind) {
    forall i | 0 <= i < |cs| :: IsKind(cs[i], kind)
  }

  /** No clause of a part is of the kind. */
  predicate NoneOfKind(cs: seq<Clause>, kind: Kind) {
    forall i | 0 <= i < |cs| :: !IsKind(cs[i], kind)
  }

  /** Reading back the filter list the services assemble: the base filter, then the filename
      part, the file-type part and the two date parts.  Each kind of clause comes from its
      own part alone, in order. */
  lemma FilterKinds(user: string, filename: Option<string>, exts: seq<string>, before: seq<Clause>, after: seq<Clause>)
    requires AllOfKind(before, RangeKind) && AllOfKind(after, RangeKind)
    ensures var filter := BaseFilter(user) + FilenameFilter(filename) + TypeFilter(exts) + before + after;
      && Where(filter, WildcardKind) == FilenameFilter(filename)
      && Where(filter, TypeRegexpKind) == TypeFilter(exts)
      && Where(filter, RangeKind) == before + after
  {
    var base, fn, ty := BaseFilter(user), FilenameFilter(filename), TypeFilter(exts);
    BaseFilterKinds(user);
    FilenameFilterKinds(filename);
    TypeFilterKinds(exts);
    KindsExclusive(before, RangeKind, WildcardKind);
    KindsExclusive(before, RangeKind, TypeRegexpKind);
    KindsExclusive(after, RangeKind, WildcardKind);
    KindsExclusive(after, RangeKind, TypeRegexpKind);
    WhereSecond(base, fn, ty, before, after, WildcardKind);
    WhereThird(base, fn, ty, before, after, TypeRegexpKind);
    WhereLastTwo(base, fn, ty, before, after, RangeKind);
  }

  /** The base filter holds no clause of the three kinds. */
  lemma BaseFilterKinds(user: string)
    ensures var base := BaseFilter(user);
      NoneOfKind(base, WildcardKind) && NoneOfKind(base, TypeRegexpKind) && NoneOfKind(base, RangeKind)
  {
  }

  /** The filename part holds wildcard clauses only. */
  lemma FilenameFilterKinds(filename: Option<string>)
    ensures var fn := FilenameFilter(filename);
      AllOfKind(fn, WildcardKind) && NoneOfKind(fn, TypeRegexpKind) && NoneOfKind(fn, RangeKind)
  {
  }

  /** The file-type part holds case-insensitive regexp clauses only. */
  lemma TypeFilterKinds(exts: seq<string>)
    ensures var ty := TypeFilter(exts);
      NoneOfKind(ty, WildcardKind) && AllOfKind(ty, TypeRegexpKind) && NoneOfKind(ty, RangeKind)
  {
  }

  /** A part all of one kind has no clause of a different kind. */
  lemma KindsExclusive(cs: seq<Clause>, kind: Kind, other: Kind)
    requires AllOfKind(cs, kind) && kind != other
    ensures NoneOfKind(cs, other)
  {
  }

  /** Of five parts, only the second holds clauses of the kind. */
  lemma WhereSecond(a: seq<Clause>, b: seq<Clause>, c: seq<Clause>, d: seq<Clause>, e: seq<Clause>, kind: Kind)
    requires NoneOfKind(a, kind) && AllOfKind(b, kind) && NoneOfKind(c, kind)
    requires NoneOfKind(d, kind) && NoneOfKind(e, kind)
    ensures Where(a + b + c + d + e, kind) == b
  {
    WhereParts(a, b, c, d, e, kind);
    WhereNone(a, kind);
    WhereAll(b, kind);
    WhereNone(c, kind);
    WhereNone(d, kind);
    WhereNone(e, kind);
    assert [] + b + [] + [] + [] == b;
  }

  /** Of five parts, only the third holds clauses of the kind. */
  lemma WhereThird(a: seq<Clause>, b: seq<Clause>, c: seq<Clause>, d: seq<Clause>, e: seq<Clause>, kind: Kind)
    requires NoneOfKind(a, kind) && NoneOfKind(b, kind) && AllOfKind(c, kind)
    requires NoneOfKind(d, kind) && NoneOfKind(e, kind)
    ensures Where(a + b + c + d + e, kind) == c
  {
    WhereParts(a, b, c, d, e, kind);
    WhereNone(a, kind);
    WhereNone(b, kind);
    WhereAll(c, kind);
    WhereNone(d, kind);
    WhereNone(e, kind);
    assert [] + [] + c + [] + [] == c;
  }

  /** Of five parts, only the last two hold clauses of the kind. */
  lemma WhereLastTwo(a: seq<Clause>, b: seq<Clause>, c: seq<Clause>, d: seq<Clause>, e: seq<Clause>, kind: Kind)
    requires NoneOfKind(a, kind) && NoneOfKind(b, kind) && NoneOfKind(c, kind)
    requires AllOfKind(d, kind) && AllOfKind(e, kind)
    ensures Where(a + b + c + d + e, kind) == d + e
  {
    WhereNone(a, kind);
    WhereNone(b, kind);
    WhereNone(c, kind);
    WhereAppend(a, b, kind);
    WhereAppend(a + b, c, kind);
    assert Where(a + b + c, kind) == [];
    WhereAll(d, kind);
    WhereAppend(a + b + c, d, kind);
    assert Where(a + b + c + d, kind) == d;
    WhereAll(e, kind);
    WhereAppend(a + b + c + d, e, kind);
  }

  /** Selecting from five consecutive parts selects from each part. */
  lemma WhereParts(a: seq<Clause>, b: seq<Clause>, c: seq<Clause>, d: seq<Clause>, e: seq<Clause>, kind: Kind)
    ensures Where(a + b + c + d + e, kind)
      == Where(a, kind) + Where(b, kind) + Where(c, kind) + Where(d, kind) + Where(e, kind)
  {
    WhereAppend(a + b + c + d, e, kind);
    WhereAppend(a + b + c, d, kind);
    WhereAppend(a + b, c, kind);
    WhereAppend(a, b, kind);
  }

  lemma {:induction false} WhereAll(cs: seq<Clause>, kind: Kind)
    requires AllOfKind(cs, kind)
    ensures Where(cs, kind) == cs
  {
    if cs != [] {
      var init := cs[..|cs| - 1];
      WhereAll(init, kind);
      assert cs == init + [cs[|cs| - 1]];
    }
  }

  lemma {:induction false} WhereNone(cs: seq<Clause>, kind: Kind)
    requires NoneOfKind(cs, kind)
    ensures Where(cs, kind) == []
  {
    if cs != [] {
      var init := cs[..|cs| - 1];
      WhereNone(init, kind);
    }
  }

  // ---------------------------------------------------------------------------------------
  // Raw hits and result records

  type Highlights = map<string, seq<string>>

  /** One entry of `hits.hits` in the Elasticsearch response, reduced to what is read:
      `_id`, `_source.title`, `_source.lastModified`, `_source.share_names` (a missing or
      `null` entry for a user is the user's absence from the map) and `highlight`. */
  datatype RawHit = RawHit(
    id: string,
    title: string,
    lastModified: Option<int>,
    shareNames: map<string, string>,
    highlight: Option<Highlights>)

  /** What `buildHit` makes of a raw hit: `null`, a full record, or `{name, error}`. */
  datatype HitOutcome =
    | Dropped
    | FileRecord(contentType: string, name: string, link: string, iconLink: string,
                 modifiedAt: Option<int>, highlights: Highlights)
    | ErrorRecord(name: string, error: string)

  /** A call into the framework either returns a string or throws with a message. */
  datatype Outcome = Returned(value: string) | Raised(message: string)

  /** The framework calls the services make: `new DateTime(...)->getTimestamp()`, `dirname`,
      `IMimeTypeDetector::detect`, `IMimeTypeDetector::mimeTypeIcon` and
      `IURLGenerator::linkToRouteAbsolute('files.view.index', [dir, openfile, fileid])`. */
  datatype Collaborators = Collaborators(
    parseDate: string -> Option<int>,
    dirname: string -> string,
    detectMime: string -> Outcome,
    mimeIcon: string -> Outcome,
    fileLink: (string, Option<string>) -> Outcome)

  /** `explode(':', $hit['_id'])[1]`: the file id after the first colon; PHP reads a missing
      index as `null`. */
  function FileId(id: string): (r: Option<string>)
    ensures r.Some? <==> ':' in id
    ensures r.Some? ==> r.value == TakeUntil(id[|TakeUntil(id, ':')| + 1..], ':')
  {
    var parts := Explode(id, ':');
    ExplodeFirstPiece(id, ':');
    if |parts| > 1 then
      var after := id[|TakeUntil(id, ':')| + 1..];
      ExplodeFirstPiece(after, ':');
      assert parts[1] == parts[1..][0];
      Some(parts[1])
    else None
  }

  /** `array_key_exists('highlight', $hit) ? $hit['highlight'] : []`: the hit's own
      highlights when it has them, and no highlights otherwise. */
  function HighlightsOf(hit: RawHit): (r: Highlights)
    ensures hit.highlight.Some? ==> r == hit.highlight.value
    ensures hit.highlight.None? ==> r == map[]
  {
    match hit.highlight
    case Some(h) => h
    case None => map[]
  }

  /** The hits the user may see: those with a share path for the user, in order. */
  function Visible(hits: seq<RawHit>, user: string): (r: seq<RawHit>)
    ensures |r| <= |hits|
    ensures forall h :: h in r <==> h in hits && user in h.shareNames
  {
    if hits == [] then []
    else
      var init := hits[..|hits| - 1];
      var last := hits[|hits| - 1];
      assert hits == init + [last];
      Visible(init, user) + (if user in last.shareNames then [last] else [])
  }

  /** The visible hits of a concatenation are those of the first part followed by those of
      the second: the response order is kept. */
  lemma {:induction false} VisibleAppend(a: seq<RawHit>, b: seq<RawHit>, user: string)
    ensures Visible(a + b, user) == Visible(a, user) + Visible(b, user)
    decreases |b|
  {
    if b == [] {
      assert a + b == a;
    } else {
      var b' := b[..|b| - 1];
      assert (a + b)[..|a + b| - 1] == a + b';
      VisibleAppend(a, b', user);
    }
  }

  /** A single hit is visible exactly when the user has a share path for it. */
  lemma VisibleSingle(hit: RawHit, user: string)
    ensures Visible([hit], user) == (if user in hit.shareNames then [hit] else [])
  {
    assert [hit][..0] == [];
  }
}
