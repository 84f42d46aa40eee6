/** The single-page variant (app.js): both sources are fetched once, the
    Thrones records are put into an insertion-ordered Map keyed by the
    lower-cased full name, Ice & Fire records are added only under new keys,
    the values are numbered 1..N and the list is cached. */
module GalleryApp {
  import opened Js
  import opened Characters

  const NoTitles := "Sin títulos"
  const NoAliases := "Sin alias"
  const UnknownHouse := "Casa desconocida"
  const UnknownBirth := "Desconocido"
  const NotAvailable := "N/A"

  // ---------------------------------------------------------------------
  // Record normalisers

  /** `mapThronesCharacter`. The full name is the record's own when truthy
      and otherwise the interpolated first and last names, so it is never
      empty; every other property is the record's own when truthy and
      otherwise its Spanish placeholder. */
  function MapThronesCharacter(c: RawThrones): (r: Character)
    ensures Truthy(c.fullName) ==> r.fullName == c.fullName.value
    ensures !Truthy(c.fullName) ==> r.fullName == Interpolate(c.firstName) + " " + Interpolate(c.lastName)
    ensures r.fullName != ""
    ensures r.image == (if Truthy(c.imageUrl) then c.imageUrl else None)
    ensures TitleTruthy(c.title) ==> r.titles == c.title
    ensures !TitleTruthy(c.title) ==> r.titles == Text(NoTitles)
    ensures r.titles != Missing && r.titles != Text("")
    ensures r.family == Or(c.family, UnknownHouse)
    ensures r.born == Or(c.born, UnknownBirth) && r.died == Or(c.died, NotAvailable)
    ensures r.aliases == NotAvailable
    ensures r.id == None && r.source == None && r.familyCrest == None
    ensures r.firstName == None && r.lastName == None
  {
    Character(
      id := None,
      image := OrNull(c.imageUrl),
      firstName := None,
      lastName := None,
      fullName := if Truthy(c.fullName) then c.fullName.value
                  else Interpolate(c.firstName) + " " + Interpolate(c.lastName),
      born := Or(c.born, UnknownBirth),
      died := Or(c.died, NotAvailable),
      titles := if TitleTruthy(c.title) then c.title else Text(NoTitles),
      aliases := NotAvailable,
      family := Or(c.family, UnknownHouse),
      familyCrest := None,
      source := None)
  }

  /** `mapIceFireCharacter`, applied only to records whose name is truthy. */
  function MapIceFireCharacter(c: RawIce): (r: Character)
    requires Truthy(c.name)
    ensures r.fullName == c.name.value && r.fullName != ""
    ensures r.titles == Text(JoinOr(c.titles, NoTitles)) && r.titles.text != ""
    ensures r.aliases == JoinOr(c.aliases, NoAliases) && r.aliases != ""
    ensures r.family == NotAvailable && r.image == None
    ensures r.born == Or(c.born, UnknownBirth) && r.died == Or(c.died, NotAvailable)
    ensures r.id == None && r.source == None && r.familyCrest == None
    ensures r.firstName == None && r.lastName == None
  {
    Character(
      id := None,
      image := None,
      firstName := None,
      lastName := None,
      fullName := c.name.value,
      born := Or(c.born, UnknownBirth),
      died := Or(c.died, NotAvailable),
      titles := Text(JoinOr(c.titles, NoTitles)),
      aliases := JoinOr(c.aliases, NoAliases),
      family := NotAvailable,
      familyCrest := None,
      source := None)
  }

  /** `thronesResponse.data.map(mapThronesCharacter)`. */
  function ThronesChars(data: seq<RawThrones>): (r: seq<Character>)
    ensures |r| == |data|
    ensures forall i :: 0 <= i < |r| ==> r[i] == MapThronesCharacter(data[i])
  {
    seq(|data|, i requires 0 <= i < |data| => MapThronesCharacter(data[i]))
  }

  /** `iceFireResponse.data.filter(c => c.name).map(mapIceFireCharacter)`. */
  function IceFireChars(data: seq<RawIce>): (r: seq<Character>)
    ensures |r| <= |data|
    ensures forall i :: 0 <= i < |r| ==> r[i].fullName != ""
  {
    var named := Filter(data, HasName);
    seq(|named|, i requires 0 <= i < |named| => MapIceFireCharacter(named[i]))
  }

  /** Exactly the named Ice & Fire records reach the merge: each normalised
      record comes from a record with a truthy name, and each such record
      is normalised. */
  lemma IceFireCharsNamed(data: seq<RawIce>)
    ensures var r := IceFireChars(data);
      && (forall i :: 0 <= i < |r| ==> MappedFromNamed(data, r[i]))
      && (forall j :: 0 <= j < |data| && Truthy(data[j].name) ==> MapIceFireCharacter(data[j]) in r)
  {
    forall i | 0 <= i < |IceFireChars(data)|
      ensures MappedFromNamed(data, IceFireChars(data)[i])
    {
      IceFireCharSource(data, i);
    }
    IceFireCharsComplete(data);
  }

  /** `c` is the normalisation of some record of `data` with a truthy name. */
  predicate MappedFromNamed(data: seq<RawIce>, c: Character) {
    exists j :: 0 <= j < |data| && Truthy(data[j].name) && c == MapIceFireCharacter(data[j])
  }

  lemma IceFireCharSource(data: seq<RawIce>, i: int)
    requires 0 <= i < |IceFireChars(data)|
    ensures MappedFromNamed(data, IceFireChars(data)[i])
  {
    var named := Filter(data, HasName);
    var x := named[i];
    assert x in data && HasName(x);
    assert IceFireChars(data)[i] == MapIceFireCharacter(x);
    var j :| 0 <= j < |data| && data[j] == x;
  }

  lemma IceFireCharsComplete(data: seq<RawIce>)
    ensures forall j :: 0 <= j < |data| && Truthy(data[j].name) ==> MapIceFireCharacter(data[j]) in IceFireChars(data)
  {
    var named := Filter(data, HasName);
    var r := IceFireChars(data);
    forall j | 0 <= j < |data| && Truthy(data[j].name)
      ensures MapIceFireCharacter(data[j]) in r
    {
      var x := data[j];
      assert HasName(x) && x in named;
      var i :| 0 <= i < |named| && named[i] == x;
      assert r[i] == MapIceFireCharacter(x);
    }
  }

  /** Normalisation keeps response order: the records of a concatenation
      are normalised part by part, so each named record reaches the merge
      once, where it stood in the response. */
  lemma IceFireCharsConcat(xs: seq<RawIce>, ys: seq<RawIce>)
    ensures IceFireChars(xs + ys) == IceFireChars(xs) + IceFireChars(ys)
  {
    FilterConcat(xs, ys, HasName);
    var a, b := Filter(xs, HasName), Filter(ys, HasName);
    var r, s := IceFireChars(xs + ys), IceFireChars(xs) + IceFireChars(ys);
    assert |r| == |a| + |b| == |s|;
    forall i | 0 <= i < |r|
      ensures r[i] == s[i]
    {
      if i < |a| {
        assert (a + b)[i] == a[i];
      } else {
        assert (a + b)[i] == b[i - |a|];
      }
    }
  }

  /** A single record gives its normalisation when it is named, else nothing. */
  lemma IceFireCharsSingle(x: RawIce)
    ensures IceFireChars([x]) == if Truthy(x.name) then [MapIceFireCharacter(x)] else []
  {
    assert [x][1..] == [];
    assert Filter([x], HasName) == if HasName(x) then [x] else [];
  }

  // ---------------------------------------------------------------------
  // The insertion-ordered Map

  /** Merge key: `char.fullName.toLowerCase()`, not trimmed, so exactly
      as long as the name. */
  function Key(c: Character): (k: string)
    ensures |k| == |c.fullName|
  {
    ToLower(c.fullName)
  }

  /** The abstract value of a JavaScript `Map`: its keys in insertion order
      and the value stored under each. */
  datatype InsertionMap = InsertionMap(keys: seq<string>, vals: map<string, Character>) {

    ghost predicate Valid() {
      && (forall i, j :: 0 <= i < j < |keys| ==> keys[i] != keys[j])
      && (forall k :: k in vals <==> k in keys)
    }

    /** `map.set(k, v)`: a new key goes last, an existing key keeps its
        place and gets the new value. */
    function Put(k: string, v: Character): (r: InsertionMap)
      ensures Valid() ==> r.Valid()
      ensures r.vals == vals[k := v]
    {
      InsertionMap(if k in vals then keys else keys + [k], vals[k := v])
    }

    /** `Array.from(map.values())`. */
    function Values(): (r: seq<Character>)
      requires Valid()
      ensures |r| == |keys|
    {
      seq(|keys|, i requires 0 <= i < |keys| => vals[keys[i]])
    }
  }

  const Empty := InsertionMap([], map[])

  /** `new Map()` filled in place by `set` and `has`. */
  class CharacterMap {
    var keys: seq<string>
    var entries: map<string, Character>

    function Model(): InsertionMap
      reads this
    {
      InsertionMap(keys, entries)
    }

    constructor ()
      ensures Model() == Empty
    {
      keys := [];
      entries := map[];
    }

    /** `map.has(k)`. */
    function Has(k: string): (b: bool)
      reads this
      ensures b <==> k in Model().vals
    {
      k in entries
    }

    /** `map.set(k, v)`. */
    method Set(k: string, v: Character)
      modifies this
      ensures Model() == old(Model()).Put(k, v)
    {
      if k !in entries {
        keys := keys + [k];
      }
      entries := entries[k := v];
    }

    /** `cs.forEach(char => map.set(key(char), char))`. */
    method SetEach(cs: seq<Character>)
      requires Model().Valid()
      modifies this
      ensures Model() == SetAll(old(Model()), cs)
    {
      ghost var start := Model();
      var i := 0;
      while i < |cs|
        invariant 0 <= i <= |cs|
        invariant Model() == SetAll(start, cs[..i])
      {
        var c := cs[i];
        SetAllStep(start, cs, i);
        Set(Key(c), c);
        i := i + 1;
      }
      assert cs[..i] == cs;
    }

    /** `cs.forEach(char => { if (!map.has(key(char))) map.set(key(char), char) })`. */
    method AddEachAbsent(cs: seq<Character>)
      requires Model().Valid()
      modifies this
      ensures Model() == AddAbsent(old(Model()), cs)
    {
      ghost var start := Model();
      var j := 0;
      while j < |cs|
        invariant 0 <= j <= |cs|
        invariant Model() == AddAbsent(start, cs[..j])
      {
        var c := cs[j];
        AddAbsentStep(start, cs, j);
        if !Has(Key(c)) {
          Set(Key(c), c);
        }
        j := j + 1;
      }
      assert cs[..j] == cs;
    }

    /** `map.values()`. */
    function Values(): seq<Character>
      reads this
      requires Model().Valid()
    {
      Model().Values()
    }
  }

  /** The Map after `forEach(char => map.set(key(char), char))`. */
  function SetAll(m: InsertionMap, cs: seq<Character>): (r: InsertionMap)
    requires m.Valid()
    ensures r.Valid()
    ensures |r.keys| <= |m.keys| + |cs|
    decreases |cs|
  {
    if cs == [] then m
    else
      var c := cs[|cs| - 1];
      SetAll(m, cs[..|cs| - 1]).Put(Key(c), c)
  }

  /** The Map after `forEach(char => { if (!map.has(key(char))) map.set(key(char), char) })`. */
  function AddAbsent(m: InsertionMap, cs: seq<Character>): (r: InsertionMap)
    requires m.Valid()
    ensures r.Valid()
    ensures |r.keys| <= |m.keys| + |cs|
    decreases |cs|
  {
    if cs == [] then m
    else
      var c := cs[|cs| - 1];
      var m' := AddAbsent(m, cs[..|cs| - 1]);
      if Key(c) in m'.vals then m' else m'.Put(Key(c), c)
  }

  /** The list that app.js caches for normalised Thrones and Ice & Fire
      records: at most one entry per record, numbered 1..N. */
  function GalleryMerge(thronesChars: seq<Character>, iceFireChars: seq<Character>): (r: seq<Character>)
    ensures |r| <= |thronesChars| + |iceFireChars|
    ensures forall i :: 0 <= i < |r| ==> r[i].id == Some(i + 1)
  {
    Renumber(AddAbsent(SetAll(Empty, thronesChars), iceFireChars).Values())
  }

  /** The guarded loop never overwrites: every key already in the Map
      keeps its value, and the keys it adds are keys of the new records. */
  lemma {:induction false} AddAbsentKeeps(m: InsertionMap, cs: seq<Character>)
    requires m.Valid()
    ensures var r := AddAbsent(m, cs);
      && (forall k :: k in m.vals ==> k in r.vals && r.vals[k] == m.vals[k])
      && (forall k :: k in r.vals ==> k in m.vals || k in Keys(cs))
  {
    if cs != [] {
      var p := cs[..|cs| - 1];
      AddAbsentKeeps(m, p);
      KeysSnoc(cs);
    }
  }

  /** One more `set` call of the first `forEach`. */
  lemma SetAllStep(m: InsertionMap, cs: seq<Character>, i: int)
    requires m.Valid() && 0 <= i < |cs|
    ensures SetAll(m, cs[..i + 1]) == SetAll(m, cs[..i]).Put(Key(cs[i]), cs[i])
  {
    assert cs[..i + 1][..i] == cs[..i];
  }

  /** One more guarded `set` call of the second `forEach`. */
  lemma AddAbsentStep(m: InsertionMap, cs: seq<Character>, j: int)
    requires m.Valid() && 0 <= j < |cs|
    ensures var m' := AddAbsent(m, cs[..j]);
      AddAbsent(m, cs[..j + 1]) == if Key(cs[j]) in m'.vals then m' else m'.Put(Key(cs[j]), cs[j])
  {
    assert cs[..j + 1][..j] == cs[..j];
  }

  /** The merge of `getMergedCharacters`, as app.js runs it: two `forEach`
      loops over a fresh Map, then the values numbered from 1. */
  method MergeCharacters(thronesChars: seq<Character>, iceFireChars: seq<Character>)
    returns (merged: seq<Character>)
    ensures merged == GalleryMerge(thronesChars, iceFireChars)
  {
    var characterMap := new CharacterMap();
    characterMap.SetEach(thronesChars);
    characterMap.AddEachAbsent(iceFireChars);
    merged := Renumber(characterMap.Values());
  }

  // ---------------------------------------------------------------------
  // Reference definitions of the merge result

  function Keys(cs: seq<Character>): (ks: seq<string>)
    ensures |ks| == |cs|
  {
    seq(|cs|, i requires 0 <= i < |cs| => Key(cs[i]))
  }

  /** Each key once, at its first occurrence, in order. */
  function Dedup(ks: seq<string>): (r: seq<string>)
    ensures forall x :: x in r <==> x in ks
    ensures forall i, j :: 0 <= i < j < |r| ==> r[i] != r[j]
  {
    if ks == [] then []
    else
      var d := Dedup(ks[..|ks| - 1]);
      if ks[|ks| - 1] in ks[..|ks| - 1] then d else d + [ks[|ks| - 1]]
  }

  /** The last record with key k, if any. */
  function LastWithKey(cs: seq<Character>, k: string): (r: Option<Character>)
    ensures r.Some? <==> k in Keys(cs)
    ensures r.Some? ==> r.value in cs && Key(r.value) == k
  {
    if cs == [] then None
    else
      assert Keys(cs) == Keys(cs[..|cs| - 1]) + [Key(cs[|cs| - 1])];
      if Key(cs[|cs| - 1]) == k then Some(cs[|cs| - 1])
      else LastWithKey(cs[..|cs| - 1], k)
  }

  /** The first record with key k, if any. */
  function FirstWithKey(cs: seq<Character>, k: string): (r: Option<Character>)
    ensures r.Some? <==> k in Keys(cs)
    ensures r.Some? ==> r.value in cs && Key(r.value) == k
  {
    if cs == [] then None
    else
      assert Keys(cs) == Keys(cs[..|cs| - 1]) + [Key(cs[|cs| - 1])];
      var f := FirstWithKey(cs[..|cs| - 1], k);
      if f.Some? then f
      else if Key(cs[|cs| - 1]) == k then Some(cs[|cs| - 1])
      else None
  }

  /** The record that ends up under key k: the last Thrones record with
      that key if there is one, otherwise the first Ice & Fire record. */
  function Winner(thronesChars: seq<Character>, iceFireChars: seq<Character>, k: string): (c: Character)
    requires k in Keys(thronesChars) + Keys(iceFireChars)
    ensures Key(c) == k
  {
    if k in Keys(thronesChars) then LastWithKey(thronesChars, k).value
    else FirstWithKey(iceFireChars, k).value
  }

  lemma KeysSnoc(cs: seq<Character>)
    requires cs != []
    ensures Keys(cs) == Keys(cs[..|cs| - 1]) + [Key(cs[|cs| - 1])]
  {
  }

  /** After the Thrones loop the Map holds each key once, in order of first
      occurrence, with the value of its last occurrence. */
  lemma {:induction false} SetAllContents(cs: seq<Character>)
    ensures var m := SetAll(Empty, cs);
      && m.keys == Dedup(Keys(cs))
      && (forall k :: k in m.vals <==> k in Keys(cs))
      && (forall k :: k in m.vals ==> LastWithKey(cs, k) == Some(m.vals[k]))
  {
    if cs != [] {
      var p := cs[..|cs| - 1];
      SetAllContents(p);
      KeysSnoc(cs);
      assert Keys(cs)[..|cs| - 1] == Keys(p);
    }
  }

  /** After the Ice & Fire loop the Map holds the keys of both sources once
      each, in order of first occurrence, Thrones values winning. */
  lemma {:induction false} AddAbsentContents(thronesChars: seq<Character>, cs: seq<Character>)
    ensures var m := AddAbsent(SetAll(Empty, thronesChars), cs);
      && m.keys == Dedup(Keys(thronesChars) + Keys(cs))
      && (forall k :: k in m.vals <==> k in Keys(thronesChars) + Keys(cs))
      && (forall k :: k in m.vals ==>
            Some(m.vals[k]) == if k in Keys(thronesChars) then LastWithKey(thronesChars, k)
                               else FirstWithKey(cs, k))
  {
    if cs == [] {
      SetAllContents(thronesChars);
      assert Keys(thronesChars) + Keys(cs) == Keys(thronesChars);
    } else {
      var p := cs[..|cs| - 1];
      var c := cs[|cs| - 1];
      AddAbsentContents(thronesChars, p);
      KeysSnoc(cs);
      var m' := AddAbsent(SetAll(Empty, thronesChars), p);
      var before := Keys(thronesChars) + Keys(p);
      var all := Keys(thronesChars) + Keys(cs);
      assert all == before + [Key(c)];
      assert all[..|all| - 1] == before;
      forall k | k in Keys(p)
        ensures FirstWithKey(cs, k) == FirstWithKey(p, k)
      {
      }
      if Key(c) !in m'.vals {
        assert Key(c) !in Keys(p);
        assert FirstWithKey(cs, Key(c)) == Some(c);
      }
    }
  }

  /** The Map after both loops, stated through the reference definitions:
      its keys are the distinct keys of both sources and each holds its
      winner. */
  lemma MergedMap(thronesChars: seq<Character>, iceFireChars: seq<Character>)
    ensures var m := AddAbsent(SetAll(Empty, thronesChars), iceFireChars);
      && m.keys == Dedup(Keys(thronesChars) + Keys(iceFireChars))
      && forall k :: k in m.keys ==>
           k in Keys(thronesChars) + Keys(iceFireChars) && k in m.vals
           && m.vals[k] == Winner(thronesChars, iceFireChars, k)
  {
    AddAbsentContents(thronesChars, iceFireChars);
  }

  /** Numbering the values of a Map: the i-th element is the value under
      the i-th key, numbered i + 1. */
  lemma RenumberValues(m: InsertionMap)
    requires m.Valid()
    ensures var out := Renumber(m.Values());
      && |out| == |m.keys|
      && forall i :: 0 <= i < |out| ==> out[i] == m.vals[m.keys[i]].(id := Some(i + 1))
  {
  }

  /** The merged list, element by element: the i-th element is the record
      that won key d[i], numbered i + 1, where d lists the Thrones keys and
      then the new Ice & Fire keys, each at its first occurrence. */
  lemma GalleryMergeContents(thronesChars: seq<Character>, iceFireChars: seq<Character>)
    ensures var out := GalleryMerge(thronesChars, iceFireChars);
      var d := Dedup(Keys(thronesChars) + Keys(iceFireChars));
      && |out| == |d|
      && forall i :: 0 <= i < |out| ==>
           Key(out[i]) == d[i] && out[i] == Winner(thronesChars, iceFireChars, d[i]).(id := Some(i + 1))
  {
    MergedMap(thronesChars, iceFireChars);
    var m := AddAbsent(SetAll(Empty, thronesChars), iceFireChars);
    RenumberValues(m);
    forall i | 0 <= i < |m.keys|
      ensures m.keys[i] in m.keys
    {
    }
  }

  /** Keys of the merged list are pairwise distinct. */
  lemma GalleryKeysDistinct(thronesChars: seq<Character>, iceFireChars: seq<Character>)
    ensures var out := GalleryMerge(thronesChars, iceFireChars);
      forall i, j :: 0 <= i < j < |out| ==> Key(out[i]) != Key(out[j])
  {
    GalleryMergeContents(thronesChars, iceFireChars);
  }

  /** A key occurs in the merged list exactly when some record of either
      source has it: every Thrones key is there. */
  lemma GalleryKeysPresent(thronesChars: seq<Character>, iceFireChars: seq<Character>, k: string)
    ensures var out := GalleryMerge(thronesChars, iceFireChars);
      (exists i :: 0 <= i < |out| && Key(out[i]) == k) <==> k in Keys(thronesChars) + Keys(iceFireChars)
  {
    GalleryMergeContents(thronesChars, iceFireChars);
    var out := GalleryMerge(thronesChars, iceFireChars);
    var d := Dedup(Keys(thronesChars) + Keys(iceFireChars));
    if k in d {
      var i :| 0 <= i < |d| && d[i] == k;
      assert Key(out[i]) == k;
    }
  }

  /** Worked example of source priority: a character known to both sources
      appears once, carrying the Thrones record's data. */
  lemma GalleryThronesWins(a: Character, b: Character)
    requires Key(a) == Key(b)
    ensures GalleryMerge([a], [b]) == [a.(id := Some(1))]
  {
    var ks := Keys([a]) + Keys([b]);
    assert ks == [Key(a), Key(a)];
    DedupTwice(Key(a));
    assert LastWithKey([a], Key(a)) == Some(a);
    GalleryMergeContents([a], [b]);
  }

  lemma DedupTwice(k: string)
    ensures Dedup([k, k]) == [k]
  {
    var ks := [k, k];
    assert ks[..|ks| - 1] == [k] && ks[|ks| - 1] in [k];
    assert [k][..0] == [];
    assert Dedup([k]) == [k];
  }

  /** Source priority in general: an entry whose key some Thrones record
      has carries the last such Thrones record; any other entry carries
      the first Ice & Fire record with its key. */
  lemma GalleryThronesPriority(thronesChars: seq<Character>, iceFireChars: seq<Character>, i: int)
    requires 0 <= i < |GalleryMerge(thronesChars, iceFireChars)|
    ensures var out := GalleryMerge(thronesChars, iceFireChars); var k := Key(out[i]);
      && (k in Keys(thronesChars) ==> out[i] == LastWithKey(thronesChars, k).value.(id := Some(i + 1)))
      && (k !in Keys(thronesChars) ==>
            k in Keys(iceFireChars) && out[i] == FirstWithKey(iceFireChars, k).value.(id := Some(i + 1)))
  {
    GalleryMergeContents(thronesChars, iceFireChars);
    var d := Dedup(Keys(thronesChars) + Keys(iceFireChars));
    assert d[i] in d;
  }

  /** Dedup of a concatenation starts with the Dedup of the first part. */
  lemma {:induction false} DedupPrefix(p: seq<string>, q: seq<string>)
    ensures |Dedup(p)| <= |Dedup(p + q)| && Dedup(p + q)[..|Dedup(p)|] == Dedup(p)
  {
    if q == [] {
      assert p + q == p;
    } else {
      var q' := q[..|q| - 1];
      DedupPrefix(p, q');
      assert (p + q)[..|p + q| - 1] == p + q';
    }
  }

  /** Output order: the Thrones keys come first, in order of first
      occurrence, before any key that only Ice & Fire has. */
  lemma GalleryThronesFirst(thronesChars: seq<Character>, iceFireChars: seq<Character>)
    ensures var out := GalleryMerge(thronesChars, iceFireChars);
      var a := Dedup(Keys(thronesChars));
      |a| <= |out| && Keys(out)[..|a|] == a
      && forall i :: |a| <= i < |out| ==> Key(out[i]) !in Keys(thronesChars)
  {
    GalleryMergeContents(thronesChars, iceFireChars);
    DedupPrefix(Keys(thronesChars), Keys(iceFireChars));
    var out := GalleryMerge(thronesChars, iceFireChars);
    var a := Dedup(Keys(thronesChars));
    var d := Dedup(Keys(thronesChars) + Keys(iceFireChars));
    assert Keys(out) == d;
  }

  // ---------------------------------------------------------------------
  // The cache

  /** The module-level `cachedCharacters`, with `getMergedCharacters`.
      The two responses stand for the two `axios.get` calls; None is a
      rejected request. */
  class Gallery {
    var cachedCharacters: Option<seq<Character>>

    constructor ()
      ensures cachedCharacters == None
    {
      cachedCharacters := None;
    }

    method GetMergedCharacters(thronesResponse: Option<seq<RawThrones>>, iceFireResponse: Option<seq<RawIce>>)
      returns (characters: seq<Character>)
      modifies this
      ensures old(cachedCharacters).Some? ==>
        characters == old(cachedCharacters).value && cachedCharacters == old(cachedCharacters)
      ensures old(cachedCharacters).None? && thronesResponse.Some? && iceFireResponse.Some? ==>
        characters == GalleryMerge(ThronesChars(thronesResponse.value), IceFireChars(iceFireResponse.value))
        && cachedCharacters == Some(characters)
      ensures old(cachedCharacters).None? && (thronesResponse.None? || iceFireResponse.None?) ==>
        characters == [] && cachedCharacters == None
    {
      if cachedCharacters.Some? {
        return cachedCharacters.value;
      }
      if thronesResponse.None? || iceFireResponse.None? {
        return [];
      }
      var thronesChars := ThronesChars(thronesResponse.value);
      var iceFireChars := IceFireChars(iceFireResponse.value);
      var merged := MergeCharacters(thronesChars, iceFireChars);
      cachedCharacters := Some(merged);
      characters := merged;
    }
  }

  /** Two requests served by one fresh cache. Once a merge succeeds, even
      with an empty result, the next request gets the same list whatever
      the sources answer; a failed fetch gives [] and the next request
      fetches again. */
  method TwoRequests(thrones1: Option<seq<RawThrones>>, ice1: Option<seq<RawIce>>,
                     thrones2: Option<seq<RawThrones>>, ice2: Option<seq<RawIce>>)
    returns (first: seq<Character>, second: seq<Character>)
    ensures thrones1.Some? && ice1.Some? ==> second == first
    ensures thrones1.None? || ice1.None? ==> first == []
    ensures (thrones1.None? || ice1.None?) && thrones2.Some? && ice2.Some? ==>
      second == GalleryMerge(ThronesChars(thrones2.value), IceFireChars(ice2.value))
  {
    var gallery := new Gallery();
    first := gallery.GetMergedCharacters(thrones1, ice1);
    second := gallery.GetMergedCharacters(thrones2, ice2);
  }

  // ---------------------------------------------------------------------
  // Routes

  /** What `/search/:name` shows: several matches as a gallery, a single
      match as its detail card, or no match. */
  datatype SearchOutcome = Several(found: seq<Character>) | Single(character: Character) | NoMatch

  /** `char.fullName.toLowerCase().includes(term)`. */
  predicate NameContains(c: Character, term: string) {
    Includes(ToLower(c.fullName), term)
  }

  /** The characters `filter` keeps for a search term, in list order. */
  function Matches(all: seq<Character>, term: string): (found: seq<Character>)
    ensures forall i :: 0 <= i < |found| ==> found[i] in all && NameContains(found[i], term)
    ensures forall i :: 0 <= i < |all| && NameContains(all[i], term) ==> all[i] in found
    ensures found == [] <==> forall i :: 0 <= i < |all| ==> !NameContains(all[i], term)
    ensures |found| == 1 ==> forall i :: 0 <= i < |all| && NameContains(all[i], term) ==> all[i] == found[0]
  {
    var p := (c: Character) => NameContains(c, term);
    var found := Filter(all, p);
    assert found != [] ==> found[0] in all;
    if |found| == 1 then FilterSingle(all, p); found else found
  }

  /** `/search/:name` on the decoded name: the term is lower-cased and
      trimmed, and every character whose lower-cased name contains it
      matches. */
  function Search(all: seq<Character>, name: string): (r: SearchOutcome)
    ensures var term := Trim(ToLower(name));
      && (r.Several? ==> r.found == Matches(all, term) && |r.found| > 1)
      && (r.Single? ==>
            r.character in all && NameContains(r.character, term)
            && (forall i :: 0 <= i < |all| && NameContains(all[i], term) ==> all[i] == r.character))
      && (r.NoMatch? <==> forall i :: 0 <= i < |all| ==> !NameContains(all[i], term))
  {
    var found := Matches(all, Trim(ToLower(name)));
    if |found| > 1 then Several(found)
    else if |found| == 1 then Single(found[0])
    else NoMatch
  }

  /** An empty or blank search term matches every character. */
  lemma SearchBlankMatchesAll(all: seq<Character>, name: string)
    requires Trim(ToLower(name)) == ""
    ensures Matches(all, Trim(ToLower(name))) == all
    ensures |all| > 1 ==> Search(all, name) == Several(all)
    ensures |all| == 1 ==> Search(all, name) == Single(all[0])
    ensures all == [] ==> Search(all, name) == NoMatch
  {
    forall c: Character
      ensures NameContains(c, "")
    {
      assert OccursAt(ToLower(c.fullName), "", 0);
    }
    FilterAll(all, (c: Character) => NameContains(c, Trim(ToLower(name))));
    assert Matches(all, Trim(ToLower(name))) == all;
  }

  /** `/api/character/navigate/:direction/:currentId`: 404 for an unknown
      id; "next" steps forwards and any other direction backwards, both
      wrapping around. */
  function Navigate(all: seq<Character>, direction: string, currentId: string): (r: NavResult)
    ensures !r.InvalidDirection?
    ensures r.NotFound? <==> forall i :: 0 <= i < |all| ==> !SameNumber(all[i].id, ParseInt(currentId))
    ensures r.Moved? ==> r.character in all
  {
    var i := IndexOfId(all, ParseInt(currentId));
    if i == -1 then NotFound
    else if direction == "next" then Moved(all[NextIndex(i, |all|)])
    else Moved(all[PrevIndexWrap(i, |all|)])
  }

  /** On a numbered list the route finds an id that parses to k at
      position k - 1 and steps from there. */
  lemma NavigateFromRank(cs: seq<Character>, currentId: string, k: int, direction: string)
    requires 1 <= k <= |cs| && ParseInt(currentId) == Some(k)
    ensures var r := Renumber(cs);
      Navigate(r, direction, currentId)
      == Moved(r[if direction == "next" then NextIndex(k - 1, |r|) else PrevIndexWrap(k - 1, |r|)])
  {
    IndexOfIdRenumbered(cs, Some(k));
  }

  /** On a numbered list "next" from character k goes to k + 1, from the
      last back to the first. */
  lemma NavigateNextRenumbered(cs: seq<Character>, k: nat)
    requires 1 <= k <= |cs|
    ensures var r := Renumber(cs);
      Navigate(r, "next", NatToString(k)) == Moved(r[if k == |r| then 0 else k])
  {
    ParseNatToString(k);
    NavigateFromRank(cs, NatToString(k), k, "next");
  }

  /** On a numbered list any direction but "next" from character k goes to
      k - 1, from the first to the last. */
  lemma NavigateBackRenumbered(cs: seq<Character>, k: nat, direction: string)
    requires 1 <= k <= |cs| && direction != "next"
    ensures var r := Renumber(cs);
      Navigate(r, direction, NatToString(k)) == Moved(r[if k == 1 then |r| - 1 else k - 2])
  {
    ParseNatToString(k);
    NavigateFromRank(cs, NatToString(k), k, direction);
  }

  /** On a numbered list "prev" undoes "next": from the character after k
      (the first one after the last) it comes back to k. */
  lemma NavigatePrevUndoesNext(cs: seq<Character>, k: nat)
    requires 1 <= k <= |cs|
    ensures var r := Renumber(cs);
      Navigate(r, "prev", NatToString(if k == |r| then 1 else k + 1)) == Moved(r[k - 1])
  {
    if k == |cs| {
      NavigateBackRenumbered(cs, 1, "prev");
    } else {
      NavigateBackRenumbered(cs, k + 1, "prev");
    }
  }
}
