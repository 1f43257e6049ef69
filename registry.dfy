/** The file-type registry shared by the three copies of the category table: a category
    name maps to a list of extensions, and a list of requested categories is merged into
    the deduplicated list of their extensions.  The merge writes every extension as a key
    of an ordered PHP array (`$merged[$ext] = true`) and returns `array_keys($merged)`;
    that array is modelled by the sequence of its keys in insertion order. */
module Registry {
  import opened Php

  /** A category table (`FILE_TYPE_EXTENSIONS`). */
  type Table = map<string, seq<string>>

  predicate IsLowerAlnum(c: char) {
    'a' <= c <= 'z' || '0' <= c <= '9'
  }

  /** A file extension as the tables write them: non-empty, lower-case letters and digits. */
  predicate IsExtension(e: string) {
    |e| > 0 && forall c :: c in e ==> IsLowerAlnum(c)
  }

  /** The characters of an extension are lower-case letters and digits: no upper-case letter,
      and no `|` or `.` that would change the meaning of the file-type pattern. */
  lemma ExtensionChars(e: string, c: char)
    requires IsExtension(e)
    requires c in e
    ensures IsLowerAlnum(c)
    ensures !('A' <= c <= 'Z') && c != '|' && c != '.'
  {
  }

  /** Every element of the list is a well-formed extension. */
  predicate AllExtensions(l: seq<string>) {
    forall i | 0 <= i < |l| :: IsExtension(l[i])
  }

  lemma AllExtensionsMember(l: seq<string>, e: string)
    requires AllExtensions(l) && e in l
    ensures IsExtension(e)
  {
  }

  /** Every entry of the table is a well-formed extension and no category is empty. */
  predicate WellFormed(table: Table) {
    forall t :: t in table ==> table[t] != [] && AllExtensions(table[t])
  }

  /** `TABLE[$t] ?? []`. */
  function Lookup(table: Table, t: string): (r: seq<string>)
    ensures t in table ==> r == table[t]
    ensures t !in table ==> r == []
  {
    if t in table then table[t] else []
  }

  /** The extensions of each string entry, in input order, repetitions kept; the extensions a
      non-string entry or an unknown category contributes are none. */
  function Flatten(table: Table, items: seq<Value>): seq<string>
  {
    if items == [] then []
    else
      var last := items[|items| - 1];
      Flatten(table, items[..|items| - 1]) + (if last.Str? then Lookup(table, last.s) else [])
  }

  /** No element occurs twice. */
  predicate NoDuplicates(s: seq<string>) {
    forall i, j | 0 <= i < j < |s| :: s[i] != s[j]
  }

  /** The distinct elements of `s`, each placed where it first appears: reading `s` left to
      right, an element is appended exactly when it has not been seen before. */
  function Dedup(s: seq<string>): (r: seq<string>)
    ensures forall x :: x in r <==> x in s
    ensures NoDuplicates(r)
    ensures |r| <= |s|
  {
    if s == [] then []
    else
      var d := Dedup(s[..|s| - 1]);
      var x := s[|s| - 1];
      assert s == s[..|s| - 1] + [x];
      if x in d then d else d + [x]
  }

  /** The position of the first occurrence of `x` in `s`. */
  function FirstIndex(s: seq<string>, x: string): (k: nat)
    requires x in s
    ensures k < |s| && s[k] == x
    ensures forall i | 0 <= i < k :: s[i] != x
  {
    var init := s[..|s| - 1];
    if x in init then FirstIndex(init, x) else |s| - 1
  }

  /** The result of merging the requested categories (`getExtensionsForTypes`): a non-array or
      `null` argument (`None`) and an empty list give the empty list. */
  function Merged(table: Table, fileTypes: Option<seq<Value>>): seq<string>
  {
    match fileTypes
    case None => []
    case Some(items) => Dedup(Flatten(table, items))
  }

  /** The nested loop of `getExtensionsForTypes`, writing extensions into `$merged`. */
  method MergeExtensions(table: Table, fileTypes: Option<seq<Value>>) returns (exts: seq<string>)
    ensures exts == Merged(table, fileTypes)
  {
    if fileTypes.None? || fileTypes.value == [] {
      return [];
    }
    var items := fileTypes.value;
    var merged: seq<string> := [];
    for i := 0 to |items|
      invariant merged == Dedup(Flatten(table, items[..i]))
    {
      assert items[..i + 1][..i] == items[..i];
      assert Flatten(table, items[..i + 1]) ==
        Flatten(table, items[..i]) + (if items[i].Str? then Lookup(table, items[i].s) else []);
      if !items[i].Str? {
        assert Flatten(table, items[..i]) + [] == Flatten(table, items[..i]);
        continue;
      }
      // `Lookup` is the service's `getExtensionsForType`; each service's `ExtensionsForType`
      // states that the two agree.
      merged := WriteKeys(merged, Lookup(table, items[i].s), Flatten(table, items[..i]));
      assert merged == Dedup(Flatten(table, items[..i + 1]));
    }
    assert items[..|items|] == items;
    exts := merged;
  }

  /** The inner loop: `foreach ($extensionsForType as $ext) { $merged[$ext] = true; }`, where
      `merged` holds the keys written so far for the input `seen`. */
  method WriteKeys(merged: seq<string>, exts: seq<string>, ghost seen: seq<string>)
    returns (r: seq<string>)
    requires merged == Dedup(seen)
    ensures r == Dedup(seen + exts)
  {
    r := merged;
    assert seen + exts[..0] == seen;
    for j := 0 to |exts|
      invariant r == Dedup(seen + exts[..j])
    {
      assert seen + exts[..j + 1] == (seen + exts[..j]) + [exts[j]];
      DedupSnoc(seen + exts[..j], exts[j]);
      if exts[j] !in r {
        r := r + [exts[j]];
      }
    }
    assert exts[..|exts|] == exts;
  }

  /** Reading one more element appends it exactly when it has not been seen. */
  lemma DedupSnoc(s: seq<string>, x: string)
    ensures Dedup(s + [x]) == if x in Dedup(s) then Dedup(s) else Dedup(s) + [x]
  {
    assert (s + [x])[..|s + [x]| - 1] == s;
  }

  // ---------------------------------------------------------------------------------------
  // Properties of the merge

  lemma {:induction false} FlattenAppend(table: Table, a: seq<Value>, b: seq<Value>)
    ensures Flatten(table, a + b) == Flatten(table, a) + Flatten(table, b)
    decreases |b|
  {
    if b == [] {
      assert a + b == a;
    } else {
      var b' := b[..|b| - 1];
      assert (a + b)[..|a + b| - 1] == a + b';
      FlattenAppend(table, a, b');
    }
  }

  /** An extension is in the flattened list exactly when some requested known category lists it. */
  lemma {:induction false} FlattenMembers(table: Table, items: seq<Value>, e: string)
    ensures e in Flatten(table, items) <==> exists t :: Str(t) in items && t in table && e in table[t]
  {
    if items != [] {
      var init := items[..|items| - 1];
      var last := items[|items| - 1];
      assert items == init + [last];
      FlattenMembers(table, init, e);
      if e in Flatten(table, items) && e !in Flatten(table, init) {
        assert last.Str? && last.s in table && e in table[last.s];
      }
      if exists t :: Str(t) in items && t in table && e in table[t] {
        var t :| Str(t) in items && t in table && e in table[t];
        if Str(t) !in init {
          assert last == Str(t);
        }
      }
    }
  }

  /** Extensions already seen do not change the deduplicated list, wherever they are repeated. */
  lemma {:induction false} DedupAbsorbs(s: seq<string>, t: seq<string>, u: seq<string>)
    requires forall x :: x in t ==> x in s
    ensures Dedup(s + t + u) == Dedup(s + u)
    decreases |t| + |u|
  {
    if u == [] {
      assert s + t + u == s + t;
      assert s + u == s;
      if t != [] {
        var t' := t[..|t| - 1];
        assert (s + t)[..|s + t| - 1] == s + t';
        DedupAbsorbs(s, t', []);
        assert s + t' + [] == s + t';
      }
    } else {
      var u' := u[..|u| - 1];
      var x := u[|u| - 1];
      assert (s + t + u)[..|s + t + u| - 1] == s + t + u';
      assert (s + u)[..|s + u| - 1] == s + u';
      DedupAbsorbs(s, t, u');
      assert x in s + t + u' <==> x in s + u';
    }
  }

  /** Reading more input only appends to the deduplicated list: earlier output is never reordered. */
  lemma {:induction false} DedupPrefix(s: seq<string>, t: seq<string>)
    ensures Dedup(s) <= Dedup(s + t)
    decreases |t|
  {
    if t == [] {
      assert s + t == s;
    } else {
      var t' := t[..|t| - 1];
      assert (s + t)[..|s + t| - 1] == s + t';
      DedupPrefix(s, t');
    }
  }

  /** Output order is first-appearance order: of two extensions in the result, the earlier one
      first appears earlier in the flattened input. */
  lemma {:induction false} DedupFirstAppearance(s: seq<string>)
    ensures forall i, j | 0 <= i < j < |Dedup(s)| ::
      FirstIndex(s, Dedup(s)[i]) < FirstIndex(s, Dedup(s)[j])
  {
    if s != [] {
      var init := s[..|s| - 1];
      var x := s[|s| - 1];
      DedupFirstAppearance(init);
      var d := Dedup(init);
      forall i, j | 0 <= i < j < |Dedup(s)|
        ensures FirstIndex(s, Dedup(s)[i]) < FirstIndex(s, Dedup(s)[j])
      {
        assert d[i] in init;
        assert FirstIndex(s, d[i]) == FirstIndex(init, d[i]);
        if j < |d| {
          assert d[j] in init;
          assert FirstIndex(s, d[j]) == FirstIndex(init, d[j]);
        } else {
          assert Dedup(s)[j] == x && x !in init;
        }
      }
    }
  }

  /** As a set, the merged list is exactly the union of the table entries of the known string
      categories requested. */
  lemma MergedMembers(table: Table, items: seq<Value>, e: string)
    ensures e in Merged(table, Some(items)) <==>
      exists t :: Str(t) in items && t in table && e in table[t]
  {
    FlattenMembers(table, items, e);
  }

  /** Merging a concatenation gives, as a set, the union of merging each part. */
  lemma MergedAppendIsUnion(table: Table, a: seq<Value>, b: seq<Value>, e: string)
    ensures e in Merged(table, Some(a + b)) <==>
      e in Merged(table, Some(a)) || e in Merged(table, Some(b))
  {
    FlattenAppend(table, a, b);
  }

  /** Non-string entries are skipped without error. */
  lemma MergedSkipsNonStrings(table: Table, a: seq<Value>, b: seq<Value>)
    ensures Merged(table, Some(a + [Other] + b)) == Merged(table, Some(a + b))
  {
    FlattenSkips(table, a, Other, b);
  }

  /** An entry that contributes nothing leaves the flattened list unchanged. */
  lemma FlattenSkips(table: Table, a: seq<Value>, v: Value, b: seq<Value>)
    requires v.Str? ==> v.s !in table
    ensures Flatten(table, a + [v] + b) == Flatten(table, a + b)
  {
    FlattenAppend(table, a + [v], b);
    FlattenAppend(table, a, [v]);
    FlattenAppend(table, a, b);
    assert [v][..0] == [];
    assert Flatten(table, [v]) == [];
  }

  /** Unknown category names contribute no extensions. */
  lemma MergedSkipsUnknown(table: Table, a: seq<Value>, t: string, b: seq<Value>)
    requires t !in table
    ensures Merged(table, Some(a + [Str(t)] + b)) == Merged(table, Some(a + b))
  {
    FlattenSkips(table, a, Str(t), b);
  }

  /** Repeating an already requested category anywhere after it leaves the output unchanged. */
  lemma MergedRepeatIsNoop(table: Table, a: seq<Value>, t: string, b: seq<Value>)
    requires Str(t) in a
    ensures Merged(table, Some(a + [Str(t)] + b)) == Merged(table, Some(a + b))
  {
    FlattenAppend(table, a + [Str(t)], b);
    FlattenAppend(table, a, [Str(t)]);
    FlattenAppend(table, a, b);
    assert [Str(t)][..0] == [];
    assert Flatten(table, [Str(t)]) == Lookup(table, t);
    forall x | x in Lookup(table, t) ensures x in Flatten(table, a) {
      FlattenMembers(table, a, x);
    }
    DedupAbsorbs(Flatten(table, a), Lookup(table, t), Flatten(table, b));
  }

  /** Requesting the same list twice is the same as requesting it once. */
  lemma MergedIdempotent(table: Table, a: seq<Value>)
    ensures Merged(table, Some(a + a)) == Merged(table, Some(a))
  {
    FlattenAppend(table, a, a);
    DedupAbsorbs(Flatten(table, a), Flatten(table, a), []);
    assert Flatten(table, a) + Flatten(table, a) + [] == Flatten(table, a) + Flatten(table, a);
    assert Flatten(table, a) + [] == Flatten(table, a);
  }

  /** Merging more categories extends the earlier output at its end, and the order of the output
      is the order in which extensions first appear. */
  lemma MergedOrder(table: Table, a: seq<Value>, b: seq<Value>)
    ensures Merged(table, Some(a)) <= Merged(table, Some(a + b))
    ensures var s := Flatten(table, a); var r := Merged(table, Some(a));
      forall i, j | 0 <= i < j < |r| :: FirstIndex(s, r[i]) < FirstIndex(s, r[j])
  {
    FlattenAppend(table, a, b);
    DedupPrefix(Flatten(table, a), Flatten(table, b));
    DedupFirstAppearance(Flatten(table, a));
  }

  /** The output of a well-formed table consists of well-formed (hence lower-case) extensions,
      without duplicates. */
  lemma MergedWellFormed(table: Table, fileTypes: Option<seq<Value>>)
    requires WellFormed(table)
    ensures NoDuplicates(Merged(table, fileTypes))
    ensures forall e :: e in Merged(table, fileTypes) ==> IsExtension(e)
  {
    if fileTypes.Some? {
      forall e | e in Merged(table, fileTypes) ensures IsExtension(e) {
        FlattenMembers(table, fileTypes.value, e);
        var t :| Str(t) in fileTypes.value && t in table && e in table[t];
        AllExtensionsMember(table[t], e);
      }
    }
  }
}
