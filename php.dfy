/** The few PHP primitives the search services rely on, over `string` = `seq<char>`:
    `trim`, `rtrim` with a character, `str_starts_with`, `empty` on a string,
    `explode` and `implode` with a one-character separator. */
module Php {

  datatype Option<T> = None | Some(value: T)

  /** One element of a loosely typed PHP list: the services only ask `is_string`. */
  datatype Value = Str(s: string) | Other

  /** The characters `trim` strips by default: " \t\n\r\0\x0B". */
  predicate IsTrimmable(c: char) {
    c == ' ' || c == '\t' || c == '\n' || c == '\r' || c == '\0' || c == '\U{000B}'
  }

  /** `ltrim($s)`: the longest suffix of `s` that does not start with a trimmable character. */
  function TrimStart(s: string): (r: string)
    ensures |r| <= |s| && r == s[|s| - |r|..]
    ensures r == [] || !IsTrimmable(r[0])
    ensures forall i | 0 <= i < |s| - |r| :: IsTrimmable(s[i])
    ensures forall c :: c in r ==> c in s
  {
    if s != [] && IsTrimmable(s[0]) then TrimStart(s[1..]) else s
  }

  /** `rtrim($s, $c)` for one character `c`: drops every trailing `c`. */
  function TrimEndOf(s: string, c: char): (r: string)
    ensures |r| <= |s| && r == s[..|r|]
    ensures r == [] || r[|r| - 1] != c
    ensures forall i | |r| <= i < |s| :: s[i] == c
  {
    if s != [] && s[|s| - 1] == c then TrimEndOf(s[..|s| - 1], c) else s
  }

  /** `rtrim($s)`: the longest prefix of `s` that does not end with a trimmable character. */
  function TrimEnd(s: string): (r: string)
    ensures |r| <= |s| && r == s[..|r|]
    ensures r == [] || !IsTrimmable(r[|r| - 1])
    ensures forall i | |r| <= i < |s| :: IsTrimmable(s[i])
    ensures forall c :: c in r ==> c in s
  {
    if s != [] && IsTrimmable(s[|s| - 1]) then TrimEnd(s[..|s| - 1]) else s
  }

  /** `trim($s)`; `TrimSpan` states which stretch of `s` it is. */
  function Trim(s: string): (r: string)
    ensures r == [] <==> forall i | 0 <= i < |s| :: IsTrimmable(s[i])
    ensures r != [] ==> !IsTrimmable(r[0]) && !IsTrimmable(r[|r| - 1])
    ensures forall c :: c in r ==> c in s
  {
    var t := TrimStart(s);
    var r := TrimEnd(t);
    assert CutsLeading(s, t) && CutsTrailing(t, r);
    SpanOfPasses(s, t, r);
    r
  }

  /** `r` is the stretch of `s` that starts at `k`, and every character of `s` outside it is
      trimmable. */
  predicate IsTrimmedSpan(s: string, k: nat, r: string) {
    && k + |r| <= |s| && r == s[k..k + |r|]
    && (forall i | 0 <= i < k :: IsTrimmable(s[i]))
    && (forall i | k + |r| <= i < |s| :: IsTrimmable(s[i]))
  }

  /** `trim` keeps exactly the stretch of `s` between its leading and its trailing run of
      trimmable characters: the stretch starts where `ltrim` stops. */
  lemma TrimSpan(s: string)
    ensures IsTrimmedSpan(s, |s| - |TrimStart(s)|, Trim(s))
  {
    var t := TrimStart(s);
    assert CutsLeading(s, t);
    assert Trim(s) == TrimEnd(t);
    assert CutsTrailing(t, Trim(s));
    SpanOfPasses(s, t, Trim(s));
  }

  /** `t` is what is left of `s` after cutting its whole leading trimmable run. */
  predicate CutsLeading(s: string, t: string) {
    && |t| <= |s| && t == s[|s| - |t|..]
    && (t == [] || !IsTrimmable(t[0]))
    && forall i | 0 <= i < |s| - |t| :: IsTrimmable(s[i])
  }

  /** `r` is what is left of `t` after cutting its whole trailing trimmable run. */
  predicate CutsTrailing(t: string, r: string) {
    && |r| <= |t| && r == t[..|r|]
    && (r == [] || !IsTrimmable(r[|r| - 1]))
    && forall i | |r| <= i < |t| :: IsTrimmable(t[i])
  }

  /** The span left by cutting a trimmable prefix of `s` and then a trimmable suffix of what
      remains. */
  lemma SpanOfPasses(s: string, t: string, r: string)
    requires CutsLeading(s, t) && CutsTrailing(t, r)
    ensures IsTrimmedSpan(s, |s| - |t|, r)
    ensures r == [] <==> forall i | 0 <= i < |s| :: IsTrimmable(s[i])
    ensures r != [] ==> !IsTrimmable(r[0]) && !IsTrimmable(r[|r| - 1])
  {
    var k := |s| - |t|;
    forall i | k + |r| <= i < |s| ensures IsTrimmable(s[i]) {
      assert s[i] == t[i - k];
    }
    assert forall j | 0 <= j < |r| :: r[j] == s[k + j];
    if r != [] {
      assert r[0] == t[0] == s[k];
    }
  }

  /** A search term counts as given when it is set and `trim((string) $x) !== ''`;
      `HasTermMeaning` says which strings those are. */
  predicate HasTerm(x: Option<string>)
    ensures HasTerm(x) ==> x.Some? && x.value != []
  {
    x.Some? && Trim(x.value) != ""
  }

  /** A term is given exactly when it holds a character other than whitespace. */
  lemma HasTermMeaning(x: Option<string>)
    ensures HasTerm(x) <==> x.Some? && exists i | 0 <= i < |x.value| :: !IsTrimmable(x.value[i])
  {
  }

  /** PHP `empty($s)` on a string: true for "" and for "0". The second is a search term. */
  predicate IsEmpty(s: string)
    ensures IsEmpty(s) ==> |s| <= 1
    ensures IsEmpty(s) && s != "" ==> HasTerm(Some(s))
  {
    s == "" || s == "0"
  }

  /** The two strings `empty` accepts. */
  lemma EmptyStrings()
    ensures IsEmpty("") && IsEmpty("0")
  {
  }

  /** `str_starts_with($s, $c)` for a one-character needle: `s` is `c` followed by the rest. */
  predicate StartsWith(s: string, c: char)
    ensures StartsWith(s, c) <==> s != [] && s == [c] + s[1..]
  {
    |s| > 0 && s[0] == c
  }

  /** `implode($sep, $parts)` for a one-character separator: it starts with the first piece,
      and when no piece holds the separator, the separator occurs exactly when there are two
      pieces or more. */
  function Join(parts: seq<string>, sep: char): (r: string)
    ensures parts != [] ==> |parts[0]| <= |r| && r[..|parts[0]|] == parts[0]
    ensures (forall p | p in parts :: sep !in p) ==> (sep in r <==> |parts| >= 2)
  {
    if parts == [] then ""
    else if |parts| == 1 then parts[0]
    else parts[0] + [sep] + Join(parts[1..], sep)
  }

  /** `explode($sep, $s)` for a one-character separator: the pieces between separators. */
  function Explode(s: string, sep: char): (parts: seq<string>)
    ensures |parts| >= 1
    ensures |parts| == 1 <==> sep !in s
    ensures forall p :: p in parts ==> sep !in p
    ensures forall p, c :: p in parts && c in p ==> c in s
  {
    if s == [] then [""]
    else
      var rest := Explode(s[1..], sep);
      if s[0] == sep then [""] + rest
      else [[s[0]] + rest[0]] + rest[1..]
  }

  /** The part of `s` before the first `c`, or all of `s` when it holds no `c`. */
  function TakeUntil(s: string, c: char): (r: string)
    ensures |r| <= |s| && r == s[..|r|]
    ensures c !in r
    ensures |r| < |s| <==> c in s
    ensures |r| < |s| ==> s[|r|] == c
  {
    if s == [] || s[0] == c then [] else [s[0]] + TakeUntil(s[1..], c)
  }

  /** The first piece of `explode` is the part before the first separator, and the other
      pieces are those of what follows that separator. */
  lemma {:induction false} ExplodeFirstPiece(s: string, sep: char)
    ensures Explode(s, sep)[0] == TakeUntil(s, sep)
    ensures sep in s ==> Explode(s, sep)[1..] == Explode(s[|TakeUntil(s, sep)| + 1..], sep)
  {
    if s != [] && s[0] != sep {
      ExplodeFirstPiece(s[1..], sep);
      var head := TakeUntil(s[1..], sep);
      assert TakeUntil(s, sep) == [s[0]] + head;
      if sep in s {
        assert sep in s[1..];
        assert s[|TakeUntil(s, sep)| + 1..] == s[1..][|head| + 1..];
      }
    }
  }

  /** Exploding and imploding again gives back the original string. */
  lemma {:induction false} JoinExplode(s: string, sep: char)
    ensures Join(Explode(s, sep), sep) == s
  {
    if s != [] {
      var rest := Explode(s[1..], sep);
      JoinExplode(s[1..], sep);
      assert Explode(s, sep) == ExplodeStep(s[0], rest, sep);
      JoinExplodeStep(s[0], rest, sep);
      assert [s[0]] + s[1..] == s;
    }
  }

  /** The pieces of `[c] + t` built from the pieces `rest` of `t`, as `Explode` builds them. */
  function ExplodeStep(c: char, rest: seq<string>, sep: char): seq<string>
    requires rest != []
  {
    if c == sep then [""] + rest else [[c] + rest[0]] + rest[1..]
  }

  /** Putting one character in front of the exploded pieces puts it in front of their
      implosion. */
  lemma JoinExplodeStep(c: char, rest: seq<string>, sep: char)
    requires rest != []
    ensures Join(ExplodeStep(c, rest, sep), sep) == [c] + Join(rest, sep)
  {
    if c == sep {
      assert ([""] + rest)[1..] == rest;
    } else {
      assert rest == [rest[0]] + rest[1..];
      JoinConsHead(c, rest[0], rest[1..], sep);
    }
  }

  /** A character put in front of the first piece goes in front of the whole implosion. */
  lemma JoinConsHead(c: char, first: string, tail: seq<string>, sep: char)
    ensures Join([[c] + first] + tail, sep) == [c] + Join([first] + tail, sep)
  {
    if tail != [] {
      assert ([[c] + first] + tail)[1..] == tail;
      assert ([first] + tail)[1..] == tail;
    }
  }

  /** Imploding pieces that do not contain the separator and exploding again gives the pieces back. */
  lemma {:induction false} ExplodeJoin(parts: seq<string>, sep: char)
    requires |parts| >= 1
    requires forall p :: p in parts ==> sep !in p
    ensures Explode(Join(parts, sep), sep) == parts
  {
    if |parts| == 1 {
      ExplodeSeparatorFree(parts[0], sep);
    } else {
      assert forall p | p in parts[1..] :: p in parts;
      ExplodeJoin(parts[1..], sep);
      assert parts[0] in parts;
      ExplodeAfterPiece(parts[0], Join(parts[1..], sep), sep);
      assert Join(parts, sep) == parts[0] + [sep] + Join(parts[1..], sep);
      assert [parts[0]] + parts[1..] == parts;
    }
  }

  /** A string without the separator explodes into itself. */
  lemma {:induction false} ExplodeSeparatorFree(s: string, sep: char)
    requires sep !in s
    ensures Explode(s, sep) == [s]
  {
    if s != [] {
      ExplodeSeparatorFree(s[1..], sep);
      assert [s[0]] + s[1..] == s;
    }
  }

  /** A separator-free piece followed by the separator becomes the first piece. */
  lemma {:induction false} ExplodeAfterPiece(p: string, tail: string, sep: char)
    requires sep !in p
    ensures Explode(p + [sep] + tail, sep) == [p] + Explode(tail, sep)
  {
    if p == [] {
      assert p + [sep] + tail == [sep] + tail;
      assert ([sep] + tail)[1..] == tail;
    } else {
      var s := p + [sep] + tail;
      assert s[1..] == p[1..] + [sep] + tail;
      ExplodeAfterPiece(p[1..], tail, sep);
      assert Explode(s, sep) == ExplodeStep(s[0], [p[1..]] + Explode(tail, sep), sep);
      assert [p[0]] + p[1..] == p;
    }
  }
}
