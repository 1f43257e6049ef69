/** The meaning of the filename filter.  Both services search the `title.keyword` field (the
    full path of a document) with an Elasticsearch `wildcard` query built from the user's
    filename pattern; a leading `*` is added when missing so that the pattern also matches
    documents below sub-folders.  This module gives `*` (any run of characters) and `?` (one
    character) their wildcard meaning and proves what the anchoring achieves. */
module Wildcard {
  import opened Php

  /** Does the wildcard `pattern` match all of `text`?  No escape character is modelled. */
  predicate Matches(pattern: string, text: string)
    decreases |pattern| + |text|
  {
    if pattern == [] then text == []
    else if pattern[0] == '*' then
      Matches(pattern[1..], text) || (text != [] && Matches(pattern, text[1..]))
    else if pattern[0] == '?' then
      text != [] && Matches(pattern[1..], text[1..])
    else
      text != [] && text[0] == pattern[0] && Matches(pattern[1..], text[1..])
  }

  /** A pattern without wildcard characters. */
  predicate IsLiteral(p: string) {
    forall c :: c in p ==> c != '*' && c != '?'
  }

  predicate EndsWith(text: string, suffix: string) {
    |suffix| <= |text| && text[|text| - |suffix|..] == suffix
  }

  /** The search term sent for a filename (`!str_starts_with($filename, '*') ? '*' . $filename
      : $filename`): it always starts with `*`, and it is the filename with a `*` in front
      unless the filename already had one. */
  function FilenameTerm(filename: string): (term: string)
    ensures StartsWith(term, '*')
    ensures term == filename || term == "*" + filename
    ensures term == filename <==> StartsWith(filename, '*')
  {
    if !StartsWith(filename, '*') then "*" + filename else filename
  }

  /** Adding the anchor a second time changes nothing. */
  lemma FilenameTermIdempotent(filename: string)
    ensures FilenameTerm(FilenameTerm(filename)) == FilenameTerm(filename)
  {
  }

  /** Two leading stars match what one leading star matches. */
  lemma {:induction false} DoubleStar(q: string, text: string)
    ensures Matches("**" + q, text) == Matches("*" + q, text)
    decreases |text|
  {
    var p2 := "**" + q;
    var p1 := "*" + q;
    assert p2[1..] == p1;
    if text != [] {
      DoubleStar(q, text[1..]);
    }
  }

  /** The search term matches exactly what `*` followed by the raw filename matches: whether or
      not the user typed the leading star, the filter matches the filename at any depth. */
  lemma FilenameTermMeaning(filename: string, path: string)
    ensures Matches(FilenameTerm(filename), path) == Matches("*" + filename, path)
  {
    if StartsWith(filename, '*') {
      assert "*" + filename == "**" + filename[1..];
      assert filename == "*" + filename[1..];
      DoubleStar(filename[1..], path);
    }
  }

  /** A literal pattern matches only itself. */
  lemma {:induction false} LiteralMatchesItself(p: string, text: string)
    requires IsLiteral(p)
    ensures Matches(p, text) <==> text == p
  {
    if p != [] {
      assert p[0] in p;
      assert forall c :: c in p[1..] ==> c in p;
      if text != [] {
        LiteralMatchesItself(p[1..], text[1..]);
        assert text == [text[0]] + text[1..];
        assert p == [p[0]] + p[1..];
      }
    }
  }

  /** With the leading star, a literal filename matches exactly the paths that end with it. */
  lemma {:induction false} AnchoredLiteralMatchesSuffix(p: string, path: string)
    requires IsLiteral(p)
    ensures Matches("*" + p, path) <==> EndsWith(path, p)
    decreases |path|
  {
    var pat := "*" + p;
    assert pat[1..] == p;
    LiteralMatchesItself(p, path);
    if path != [] {
      AnchoredLiteralMatchesSuffix(p, path[1..]);
      if |p| <= |path[1..]| {
        assert path[1..][|path[1..]| - |p|..] == path[|path| - |p|..];
      }
      if EndsWith(path, p) && path != p {
        assert |p| < |path|;
        assert path[1..][|path[1..]| - |p|..] == path[|path| - |p|..];
      }
    } else {
      assert EndsWith(path, p) <==> p == [];
    }
  }

  /** For the filename "report.pdf" the filter matches "/report.pdf" and "/subdir/report.pdf". */
  lemma ReportExampleMatches()
    ensures Matches(FilenameTerm("report.pdf"), "/report.pdf")
    ensures Matches(FilenameTerm("report.pdf"), "/subdir/report.pdf")
  {
    var p := "report.pdf";
    assert IsLiteral(p);
    MatchesBehindFolder(p, "/");
    assert "/" + p == "/report.pdf";
    MatchesBehindFolder(p, "/subdir/");
    assert "/subdir/" + p == "/subdir/report.pdf";
  }

  /** For the filename "report.pdf" the filter does not match "/report.pdf.bak". */
  lemma ReportExampleRejects()
    ensures !Matches(FilenameTerm("report.pdf"), "/report.pdf.bak")
  {
    var p := "report.pdf";
    var bak := "/report.pdf.bak";
    assert IsLiteral(p);
    FilenameTermMeaning(p, bak);
    AnchoredLiteralMatchesSuffix(p, bak);
    assert bak[|bak| - |p|..][1] != p[1];
  }

  /** A literal filename behind any folder prefix is matched by its search term. */
  lemma MatchesBehindFolder(p: string, folder: string)
    requires IsLiteral(p)
    ensures Matches(FilenameTerm(p), folder + p)
  {
    FilenameTermMeaning(p, folder + p);
    AnchoredLiteralMatchesSuffix(p, folder + p);
    assert (folder + p)[|folder + p| - |p|..] == p;
  }
}
