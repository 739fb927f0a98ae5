/** The scope/type record of src/utils.rs: `PrintableEntity` with its derived
    equality and ordering, its `Display` format, its construction from a
    key/value pair, and `Config::from_toml`. */
module Utils {
  import opened Wrappers

  /** Rust's `String` ordering: lexicographic, a proper prefix first. Comparing
      chars by code point agrees with comparing their UTF-8 bytes. */
  predicate StrLess(a: string, b: string)
    decreases |a|
  {
    if |a| == 0 then |b| > 0
    else if |b| == 0 then false
    else if a[0] != b[0] then a[0] < b[0]
    else StrLess(a[1..], b[1..])
  }

  lemma {:induction false} StrLessIrreflexive(a: string)
    ensures !StrLess(a, a)
    decreases |a|
  {
    if |a| > 0 { StrLessIrreflexive(a[1..]); }
  }

  lemma {:induction false} StrLessTransitive(a: string, b: string, c: string)
    requires StrLess(a, b) && StrLess(b, c)
    ensures StrLess(a, c)
    decreases |a|
  {
    if |a| > 0 && |b| > 0 && |c| > 0 && a[0] == b[0] && b[0] == c[0] {
      StrLessTransitive(a[1..], b[1..], c[1..]);
    }
  }

  /** Any two different strings are ordered one way or the other, and never both. */
  lemma {:induction false} StrLessTrichotomy(a: string, b: string)
    ensures a == b || StrLess(a, b) || StrLess(b, a)
    ensures !(StrLess(a, b) && StrLess(b, a))
    decreases |a|
  {
    if |a| > 0 && |b| > 0 && a[0] == b[0] {
      StrLessTrichotomy(a[1..], b[1..]);
      if a[1..] == b[1..] {
        assert a == [a[0]] + a[1..] && b == [b[0]] + b[1..];
      }
    }
  }

  /** `PrintableEntity<S>`: a commit type or scope. Field order (name, then
      description) fixes the derived ordering. The `String` and `&str`
      instantiations are the same value type here. */
  datatype PrintableEntity = PrintableEntity(name: string, description: string)

  type CommitScope = PrintableEntity
  type CommitType = PrintableEntity

  /** `PrintableEntity::new`: the given name and the default (empty) description. */
  function New(name: string): (e: PrintableEntity)
    ensures e.name == name && e.description == ""
  {
    PrintableEntity(name, "")
  }

  /** `From<(&String, &String)>`: the key becomes the name, the value the description. */
  function FromPair(pair: (string, string)): (e: PrintableEntity)
    ensures e.name == pair.0 && e.description == pair.1
  {
    PrintableEntity(pair.0, pair.1)
  }

  /** The derived `Ord`: names first, descriptions only between equal names. */
  predicate Less(a: PrintableEntity, b: PrintableEntity): (r: bool)
    ensures r ==> a != b
    ensures a.name != b.name ==> (r <==> StrLess(a.name, b.name))
    ensures a.name == b.name ==> (r <==> StrLess(a.description, b.description))
  {
    StrLessIrreflexive(a.name);
    StrLessIrreflexive(a.description);
    StrLess(a.name, b.name) || (a.name == b.name && StrLess(a.description, b.description))
  }

  predicate LessEq(a: PrintableEntity, b: PrintableEntity)
  {
    a == b || Less(a, b)
  }

  /** The derived ordering is a strict total order whose "neither is less"
      relation is exactly the derived equality (both fields equal). */
  lemma LessIsStrictTotalOrder(a: PrintableEntity, b: PrintableEntity, c: PrintableEntity)
    ensures !Less(a, a)
    ensures Less(a, b) && Less(b, c) ==> Less(a, c)
    ensures !(Less(a, b) && Less(b, a))
    ensures a == b <==> !Less(a, b) && !Less(b, a)
  {
    StrLessIrreflexive(a.name);
    StrLessIrreflexive(a.description);
    StrLessTrichotomy(a.name, b.name);
    StrLessTrichotomy(a.description, b.description);
    if Less(a, b) && Less(b, c) {
      if StrLess(a.name, b.name) && StrLess(b.name, c.name) {
        StrLessTransitive(a.name, b.name, c.name);
      } else if a.name == b.name && b.name == c.name {
        StrLessTransitive(a.description, b.description, c.description);
      }
    }
  }

  lemma LessEqIsTotalOrder(a: PrintableEntity, b: PrintableEntity, c: PrintableEntity)
    ensures LessEq(a, a)
    ensures LessEq(a, b) && LessEq(b, c) ==> LessEq(a, c)
    ensures LessEq(a, b) && LessEq(b, a) ==> a == b
    ensures LessEq(a, b) || LessEq(b, a)
  {
    LessIsStrictTotalOrder(a, b, c);
  }

  /** A smaller name wins whatever the descriptions are; the entity `New` builds
      is the least of all entities with its name. */
  lemma NameDecidesOrder(a: PrintableEntity, b: PrintableEntity)
    ensures StrLess(a.name, b.name) ==> Less(a, b) && !Less(b, a)
    ensures LessEq(New(a.name), a)
    ensures New(a.name) == FromPair((a.name, ""))
  {
    StrLessTrichotomy(a.name, b.name);
    if a.description != "" {
      assert StrLess("", a.description);
    }
  }

  /** `Display`: "<name>: <description>". */
  function Display(e: PrintableEntity): (s: string)
    ensures |s| == |e.name| + 2 + |e.description|
    ensures s[..|e.name|] == e.name && s[|e.name|..|e.name| + 2] == ": "
    ensures s[|e.name| + 2..] == e.description
  {
    e.name + ": " + e.description
  }

  /** Index of the first `c` in `s`, if any. */
  function FindChar(s: string, c: char, from: nat): (r: Option<nat>)
    requires from <= |s|
    ensures r.Some? ==> from <= r.value < |s| && s[r.value] == c && c !in s[from..r.value]
    ensures r.None? ==> c !in s[from..]
    decreases |s| - from
  {
    if from == |s| then None
    else if s[from] == c then Some(from)
    else FindChar(s, c, from + 1)
  }

  /** Reads a displayed entity back: the name is what precedes the first ':',
      the description what follows the ": " separator. */
  function ParseDisplayed(s: string): (e: Option<PrintableEntity>)
  {
    match FindChar(s, ':', 0)
    case None => None
    case Some(i) =>
      if i + 1 < |s| && s[i + 1] == ' ' then Some(PrintableEntity(s[..i], s[i + 2..])) else None
  }

  /** `Display` loses nothing when the name holds no ':'. */
  lemma DisplayRoundTrip(e: PrintableEntity)
    requires ':' !in e.name
    ensures ParseDisplayed(Display(e)) == Some(e)
  {
    var s := Display(e);
    assert s[..|e.name|] == e.name;
    assert ':' !in s[0..|e.name|];
    assert s[|e.name|] == ':';
    assert FindChar(s, ':', 0) == Some(|e.name|);
  }

  /** `Config`: the optional `[types]` and `[scopes]` sections. */
  datatype Config = Config(commitTypes: Option<seq<CommitType>>, commitScopes: Option<seq<CommitScope>>)

  /** Some enumeration of a finite set, each element once: stands for the
      unspecified iteration order of a Rust `HashMap`/`HashSet`. */
  ghost function Enumerate<T>(s: set<T>): (r: seq<T>)
    ensures |r| == |s|
    ensures forall i :: 0 <= i < |r| ==> r[i] in s
    ensures forall x :: x in s ==> x in r
    ensures forall i, j :: 0 <= i < j < |r| ==> r[i] != r[j]
    decreases |s|
  {
    if s == {} then []
    else
      var x :| x in s;
      var rest := Enumerate(s - {x});
      [x] + rest
  }

  function EntitiesOf(pairs: seq<(string, string)>): (r: seq<PrintableEntity>)
    ensures |r| == |pairs|
    ensures forall i :: 0 <= i < |pairs| ==> r[i] == FromPair(pairs[i])
  {
    if pairs == [] then [] else [FromPair(pairs[0])] + EntitiesOf(pairs[1..])
  }

  /** One entity per key/value pair of a section, in the section's iteration order. */
  ghost function Section(table: map<string, map<string, string>>, key: string): (r: Option<seq<PrintableEntity>>)
    ensures r.Some? <==> key in table
    ensures key in table ==> SectionListed(table[key], r.value)
  {
    if key in table then
      SectionIsListed(table[key]);
      Some(EntitiesOf(Enumerate(table[key].Items)))
    else None
  }

  /** `Config::from_toml`, which never fails: a missing section is None, a
      present one lists exactly its key/value pairs, each once. */
  ghost function FromToml(table: map<string, map<string, string>>): (c: Config)
    ensures c.commitTypes.Some? <==> "types" in table
    ensures c.commitScopes.Some? <==> "scopes" in table
    ensures "types" in table ==> SectionListed(table["types"], c.commitTypes.value)
    ensures "scopes" in table ==> SectionListed(table["scopes"], c.commitScopes.value)
  {
    Config(Section(table, "types"), Section(table, "scopes"))
  }

  /** `list` holds one entity per pair of `section` and nothing else. */
  ghost predicate SectionListed(section: map<string, string>, list: seq<PrintableEntity>)
  {
    && |list| == |section|
    && forall e :: e in list <==> e.name in section && section[e.name] == e.description
  }

  lemma SectionIsListed(section: map<string, string>)
    ensures SectionListed(section, EntitiesOf(Enumerate(section.Items)))
  {
    var pairs := Enumerate(section.Items);
    var list := EntitiesOf(pairs);
    assert |section.Items| == |section| by { MapItemsCardinality(section); }
    forall e ensures e in list <==> e.name in section && section[e.name] == e.description {
      ListedEntity(section, pairs, e);
    }
  }

  /** An entity is listed exactly when its name/description pair is in the map. */
  lemma ListedEntity(section: map<string, string>, pairs: seq<(string, string)>, e: PrintableEntity)
    requires forall i :: 0 <= i < |pairs| ==> pairs[i] in section.Items
    requires forall x :: x in section.Items ==> x in pairs
    ensures e in EntitiesOf(pairs) <==> e.name in section && section[e.name] == e.description
  {
    var list := EntitiesOf(pairs);
    if e in list {
      var i :| 0 <= i < |list| && list[i] == e;
      assert pairs[i] in section.Items;
    }
    if e.name in section && section[e.name] == e.description {
      assert (e.name, e.description) in section.Items;
      var i :| 0 <= i < |pairs| && pairs[i] == (e.name, e.description);
      assert list[i] == e;
    }
  }

  lemma {:induction false} MapItemsCardinality<K, V>(m: map<K, V>)
    ensures |m.Items| == |m|
    decreases |m|
  {
    if |m| > 0 {
      var k :| k in m;
      var rest := m - {k};
      MapItemsCardinality(rest);
      forall p | p in m.Items ensures p in rest.Items + {(k, m[k])} {
        assert p.0 in m && m[p.0] == p.1;
        if p.0 != k { assert p.0 in rest && rest[p.0] == p.1; }
      }
      assert m.Items == rest.Items + {(k, m[k])};
      assert (k, m[k]) !in rest.Items;
      assert |rest| == |m| - 1 by { assert rest.Keys == m.Keys - {k}; }
    }
  }

  /** The parse of the `[types] foo = "bar"` / `[scopes] foz = "baz"` document. */
  lemma FromTomlExample()
    ensures FromToml(map["types" := map["foo" := "bar"], "scopes" := map["foz" := "baz"]])
         == Config(Some([PrintableEntity("foo", "bar")]), Some([PrintableEntity("foz", "baz")]))
  {
    var table := map["types" := map["foo" := "bar"], "scopes" := map["foz" := "baz"]];
    var c := FromToml(table);
    var ts := c.commitTypes.value;
    assert |ts| == 1;
    assert ts[0] in ts;
    assert ts == [PrintableEntity("foo", "bar")];
    var ss := c.commitScopes.value;
    assert |ss| == 1;
    assert ss[0] in ss;
    assert ss == [PrintableEntity("foz", "baz")];
  }
}
