/** The paginated variants (backend/app.js and pruebas/app.js, whose core
    code is the same): the Thrones records are normalised, a fixed number
    of Ice & Fire pages is fetched in order, Ice & Fire records whose
    trimmed, lower-cased name a Thrones record already has are dropped,
    the concatenation is numbered 1..N and cached. */
module PagedApp {
  import opened Js
  import opened Characters

  /** Pages requested by `getMergedCharacters`: `getIceAndFireCharacters(10)`. */
  const IcePages := 10

  const Unknown := "Unknown"
  const NotAvailable := "N/A"
  const NoTitle := "No title"
  const NoAliases := "No aliases"
  const SeeAllegiances := "See allegiances"

  // ---------------------------------------------------------------------
  // Record normalisers

  /** `Array.isArray(t) ? t.join(", ") : (t || "No title")`: an array is
      joined, a non-empty string kept, and an absent or empty title becomes
      "No title". */
  function ThronesTitles(t: TitleValue): (r: string)
    ensures t.List? ==> r == Join(t.items, ", ")
    ensures t.Text? && t.text != "" ==> r == t.text
    ensures !TitleTruthy(t) ==> r == NoTitle
    ensures !t.List? ==> r != ""
  {
    match t
    case List(items) => Join(items, ", ")
    case Text(s) => if s != "" then s else NoTitle
    case Missing => NoTitle
  }

  /** The mapping in `getThronesCharacters`. */
  function MapThrones(c: RawThrones): (r: Character)
    ensures Truthy(c.fullName) ==> r.fullName == c.fullName.value
    ensures !Truthy(c.fullName) ==> r.fullName == Interpolate(c.firstName) + " " + Interpolate(c.lastName)
    ensures r.fullName != ""
    ensures r.id == Some(c.id) && r.source == Some("thrones")
    ensures r.firstName == Some(Or(c.firstName, Unknown)) && r.firstName.value != ""
    ensures r.lastName == Some(Or(c.lastName, ""))
    ensures r.image == (if Truthy(c.imageUrl) then c.imageUrl else if Truthy(c.image) then c.image else None)
    ensures r.familyCrest == (if Truthy(c.imageUrl) then c.imageUrl else None)
    ensures r.titles == Text(ThronesTitles(c.title))
    ensures r.born == Or(c.born, Unknown) && r.died == Or(c.died, NotAvailable)
    ensures r.aliases == Or(c.aliases, NoAliases) && r.family == Or(c.family, Unknown)
  {
    Character(
      id := Some(c.id),
      image := if Truthy(c.imageUrl) then c.imageUrl else OrNull(c.image),
      firstName := Some(Or(c.firstName, Unknown)),
      lastName := Some(Or(c.lastName, "")),
      fullName := if Truthy(c.fullName) then c.fullName.value
                  else Interpolate(c.firstName) + " " + Interpolate(c.lastName),
      born := Or(c.born, Unknown),
      died := Or(c.died, NotAvailable),
      titles := Text(ThronesTitles(c.title)),
      aliases := Or(c.aliases, NoAliases),
      family := Or(c.family, Unknown),
      familyCrest := OrNull(c.imageUrl),
      source := Some("thrones"))
  }

  /** A Thrones record with first and last name but no full name gets
      "first last"; one with no names at all gets "Unknown" as first name
      but "undefined undefined" as full name, because the full name
      interpolates the raw properties. */
  lemma ThronesNameFallback(c: RawThrones)
    requires !Truthy(c.fullName)
    ensures c.firstName.Some? && c.lastName.Some? ==>
      MapThrones(c).fullName == c.firstName.value + " " + c.lastName.value
    ensures c.firstName == None && c.lastName == None ==>
      MapThrones(c).fullName == "undefined undefined" && MapThrones(c).firstName == Some(Unknown)
  {
  }

  /** An array title is joined even when that gives "", while an absent or
      empty scalar title becomes "No title". */
  lemma ThronesTitleCases(items: seq<string>)
    ensures ThronesTitles(List(items)) == Join(items, ", ")
    ensures ThronesTitles(List([])) == "" && ThronesTitles(Text("")) == NoTitle
    ensures ThronesTitles(Missing) == NoTitle
  {
  }

  /** The mapping in `getIceAndFireCharacters`, applied to named records. */
  function MapIce(c: RawIce): (r: Character)
    requires Truthy(c.name)
    ensures r.fullName == c.name.value
    ensures r.source == Some("iceandfire") && r.image == None && r.familyCrest == None
    ensures r.titles == Text(JoinOr(c.titles, NoTitle)) && r.titles.text != ""
    ensures r.aliases == JoinOr(c.aliases, NoAliases) && r.aliases != ""
    ensures r.born == Or(c.born, Unknown) && r.died == Or(c.died, NotAvailable)
    ensures |c.allegiances| > 0 ==> r.family == SeeAllegiances
    ensures |c.allegiances| == 0 ==> r.family == Unknown
  {
    var parts := Split(c.name.value, ' ');
    Character(
      id := ParseInt(LastSegment(c.url, '/')),
      image := None,
      firstName := Some(if parts[0] != "" then parts[0] else Unknown),
      lastName := Some(Join(parts[1..], " ")),
      fullName := c.name.value,
      born := Or(c.born, Unknown),
      died := Or(c.died, NotAvailable),
      titles := Text(JoinOr(c.titles, NoTitle)),
      aliases := JoinOr(c.aliases, NoAliases),
      family := if |c.allegiances| > 0 then SeeAllegiances else Unknown,
      familyCrest := None,
      source := Some("iceandfire"))
  }

  /** First and last name: a name without a space is all first name; otherwise
      the first name is what precedes the first space ("Unknown" if that is
      empty) and the last name is everything after it. */
  lemma IceNameSplit(c: RawIce)
    requires Truthy(c.name)
    ensures var n := c.name.value; var r := MapIce(c);
      && (' ' !in n ==> r.firstName == Some(n) && r.lastName == Some(""))
      && (' ' in n ==>
            var k := IndexOfChar(n, ' ');
            r.lastName == Some(n[k + 1..]) && r.firstName == Some(if k == 0 then Unknown else n[..k]))
  {
    var n := c.name.value;
    if ' ' in n {
      SplitAtFirst(n, ' ');
    } else {
      SplitNoSeparator(n, ' ');
    }
  }

  /** The id is the number after the last '/' of the record's url; a url
      ending in '/' gives NaN. */
  lemma IceIdFromUrl(c: RawIce, prefix: string, n: nat)
    requires Truthy(c.name)
    ensures c.url == prefix + "/" + NatToString(n) ==> MapIce(c).id == Some(n)
    ensures c.url == prefix + "/" ==> MapIce(c).id == None
  {
    if c.url == prefix + "/" + NatToString(n) {
      LastSegmentAfter(prefix, '/', NatToString(n));
      ParseNatToString(n);
    }
    if c.url == prefix + "/" {
      assert prefix + "/" == prefix + ['/'] + "";
      LastSegmentAfter(prefix, '/', "");
    }
  }

  // ---------------------------------------------------------------------
  // Source adapters

  /** `getThronesCharacters`: None is a failed request, which gives []. */
  function ThronesCharacters(response: Option<seq<RawThrones>>): (r: seq<Character>)
    ensures response.None? ==> r == []
    ensures response.Some? ==> (|r| == |response.value|
      && forall i :: 0 <= i < |r| ==> r[i] == MapThrones(response.value[i]))
  {
    if response.None? then []
    else seq(|response.value|, i requires 0 <= i < |response.value| => MapThrones(response.value[i]))
  }

  /** What `allChars` holds once pages 1..n have been appended, or None if
      one of those requests failed. `fetch(p)` is the answer to the request
      for page p. */
  function FetchedPages(fetch: int -> Option<seq<RawIce>>, n: int): (r: Option<seq<RawIce>>)
    ensures n <= 0 ==> r == Some([])
    ensures r.Some? ==> forall p :: 1 <= p <= n ==> fetch(p).Some?
    decreases n
  {
    if n <= 0 then Some([])
    else
      match FetchedPages(fetch, n - 1)
      case None => None
      case Some(acc) =>
        match fetch(n)
        case None => None
        case Some(page) => Some(acc + page)
  }

  /** `.filter(char => char.name && char.name !== "").map(...)`. */
  function NamedIce(all: seq<RawIce>): (r: seq<Character>)
    ensures |r| <= |all|
    ensures forall i :: 0 <= i < |r| ==> r[i].fullName != "" && r[i].source == Some("iceandfire")
  {
    var named := Filter(all, HasName);
    seq(|named|, i requires 0 <= i < |named| => MapIce(named[i]))
  }

  /** Exactly the named Ice & Fire records are normalised: each output
      comes from a record with a truthy name, and each such record yields
      an output. */
  lemma NamedIceNamed(all: seq<RawIce>)
    ensures var r := NamedIce(all);
      && (forall i :: 0 <= i < |r| ==> MappedFromNamed(all, r[i]))
      && (forall j :: 0 <= j < |all| && Truthy(all[j].name) ==> MapIce(all[j]) in r)
  {
    forall i | 0 <= i < |NamedIce(all)|
      ensures MappedFromNamed(all, NamedIce(all)[i])
    {
      NamedIceSource(all, i);
    }
    NamedIceComplete(all);
  }

  /** `c` is the normalisation of some record of `all` with a truthy name. */
  predicate MappedFromNamed(all: seq<RawIce>, c: Character) {
    exists j :: 0 <= j < |all| && Truthy(all[j].name) && c == MapIce(all[j])
  }

  lemma NamedIceSource(all: seq<RawIce>, i: int)
    requires 0 <= i < |NamedIce(all)|
    ensures MappedFromNamed(all, NamedIce(all)[i])
  {
    var named := Filter(all, HasName);
    var x := named[i];
    assert x in all && HasName(x);
    assert NamedIce(all)[i] == MapIce(x);
    var j :| 0 <= j < |all| && all[j] == x;
  }

  lemma NamedIceComplete(all: seq<RawIce>)
    ensures forall j :: 0 <= j < |all| && Truthy(all[j].name) ==> MapIce(all[j]) in NamedIce(all)
  {
    var named := Filter(all, HasName);
    var r := NamedIce(all);
    forall j | 0 <= j < |all| && Truthy(all[j].name)
      ensures MapIce(all[j]) in r
    {
      var x := all[j];
      assert HasName(x) && x in named;
      var i :| 0 <= i < |named| && named[i] == x;
      assert r[i] == MapIce(x);
    }
  }

  /** Normalisation keeps page order: the records of a concatenation are
      normalised part by part, so each named record appears once, where it
      stood in the fetched pages. */
  lemma NamedIceConcat(xs: seq<RawIce>, ys: seq<RawIce>)
    ensures NamedIce(xs + ys) == NamedIce(xs) + NamedIce(ys)
  {
    FilterConcat(xs, ys, HasName);
    var a, b := Filter(xs, HasName), Filter(ys, HasName);
    var r, s := NamedIce(xs + ys), NamedIce(xs) + NamedIce(ys);
    assert |r| == |a| + |b| == |s|;
    forall i | 0 <= i < |r|
      ensures r[i] == s[i]
    {
      if i < |a| {
        assert (a + b)[i] == a[i];
      } else {
        assert (a + b)[i] == b[i - |a|];
      }
    }
  }

  /** A single record gives its normalisation when it is named, else nothing. */
  lemma NamedIceSingle(x: RawIce)
    ensures NamedIce([x]) == if Truthy(x.name) then [MapIce(x)] else []
  {
    assert [x][1..] == [];
    assert Filter([x], HasName) == if HasName(x) then [x] else [];
  }

  /** `getIceAndFireCharacters(pages)`: nothing if a page failed, otherwise
      at most one normalised character per fetched record, each named and
      tagged as coming from Ice & Fire. */
  function IceCharacters(fetch: int -> Option<seq<RawIce>>, pages: int): (r: seq<Character>)
    ensures FetchedPages(fetch, pages).None? ==> r == []
    ensures FetchedPages(fetch, pages).Some? ==> |r| <= |FetchedPages(fetch, pages).value|
    ensures forall i :: 0 <= i < |r| ==> r[i].fullName != "" && r[i].source == Some("iceandfire")
  {
    match FetchedPages(fetch, pages)
    case None => []
    case Some(all) => NamedIce(all)
  }

  /** A failed page makes every longer run fail. */
  lemma {:induction false} FailureSticks(fetch: int -> Option<seq<RawIce>>, m: int, n: int)
    requires m <= n && FetchedPages(fetch, m).None?
    ensures FetchedPages(fetch, n).None?
    decreases n - m
  {
    if m < n {
      FailureSticks(fetch, m, n - 1);
    }
  }

  /** The run succeeds exactly when every page 1..n answers. */
  lemma {:induction false} FetchedPagesSucceed(fetch: int -> Option<seq<RawIce>>, n: int)
    ensures FetchedPages(fetch, n).Some? <==> forall p :: 1 <= p <= n ==> fetch(p).Some?
    decreases n
  {
    if n > 0 {
      FetchedPagesSucceed(fetch, n - 1);
    }
  }

  /** Pages are appended in page order: the records of the first m pages
      are a prefix of the records of the first n pages, followed by page
      m + 1's records when m < n. */
  lemma {:induction false} FetchedPagesInOrder(fetch: int -> Option<seq<RawIce>>, m: int, n: int)
    requires 0 <= m <= n && FetchedPages(fetch, n).Some?
    ensures FetchedPages(fetch, m).Some?
    ensures FetchedPages(fetch, m).value <= FetchedPages(fetch, n).value
    ensures m < n ==> (fetch(m + 1).Some?
      && FetchedPages(fetch, m).value + fetch(m + 1).value <= FetchedPages(fetch, n).value)
    decreases n - m
  {
    if m < n {
      FetchedPagesInOrder(fetch, m + 1, n);
    }
  }

  /** The characters of page n + 1 follow those of pages 1..n, in page order. */
  lemma IceCharactersStep(fetch: int -> Option<seq<RawIce>>, n: nat)
    requires FetchedPages(fetch, n + 1).Some?
    ensures IceCharacters(fetch, n + 1) == IceCharacters(fetch, n) + NamedIce(fetch(n + 1).value)
  {
    var acc := FetchedPages(fetch, n);
    assert acc.Some?;
    assert FetchedPages(fetch, n + 1).value == acc.value + fetch(n + 1).value;
    NamedIceConcat(acc.value, fetch(n + 1).value);
  }

  /** With `size` records on every page, n pages give n * size records. */
  lemma {:induction false} FetchedPagesCount(fetch: int -> Option<seq<RawIce>>, n: nat, size: nat)
    requires forall p :: 1 <= p <= n ==> fetch(p).Some? && |fetch(p).value| == size
    ensures FetchedPages(fetch, n).Some? && |FetchedPages(fetch, n).value| == n * size
  {
    if n > 0 {
      FetchedPagesCount(fetch, n - 1, size);
      assert (n - 1) * size + size == n * size;
    }
  }

  /** `getIceAndFireCharacters(pages)`: requests pages 1, 2, ... in order,
      appending each answer, and stops at the first failed request with [];
      `requested` lists the pages asked for. */
  method GetIceAndFireCharacters(fetch: int -> Option<seq<RawIce>>, pages: int)
    returns (characters: seq<Character>, requested: seq<int>)
    ensures characters == IceCharacters(fetch, pages)
    ensures forall i :: 0 <= i < |requested| ==> requested[i] == i + 1
    ensures FetchedPages(fetch, pages).Some? ==> |requested| == (if pages < 0 then 0 else pages)
    ensures FetchedPages(fetch, pages).None? ==>
      (1 <= |requested| <= pages && fetch(|requested|).None? && FetchedPages(fetch, |requested| - 1).Some?)
  {
    var allChars: seq<RawIce> := [];
    requested := [];
    var page := 1;
    while page <= pages
      invariant 1 <= page <= (if pages < 1 then 1 else pages + 1)
      invariant |requested| == page - 1
      invariant forall i :: 0 <= i < |requested| ==> requested[i] == i + 1
      invariant FetchedPages(fetch, page - 1) == Some(allChars)
    {
      requested := requested + [page];
      var response := fetch(page);
      if response.None? {
        assert FetchedPages(fetch, page) == None;
        FailureSticks(fetch, page, pages);
        return [], requested;
      }
      assert FetchedPages(fetch, page) == Some(allChars + response.value);
      allChars := allChars + response.value;
      page := page + 1;
    }
    assert FetchedPages(fetch, pages) == Some(allChars);
    characters := NamedIce(allChars);
  }

  // ---------------------------------------------------------------------
  // Merge

  /** `char.fullName.toLowerCase().trim()`: no longer than the name, and
      neither starting nor ending with white space. */
  function MergeKey(c: Character): (k: string)
    ensures |k| <= |c.fullName|
    ensures k != [] ==> !IsSpace(k[0]) && !IsSpace(k[|k| - 1])
  {
    Trim(ToLower(c.fullName))
  }

  /** `new Set(thronesChars.map(c => c.fullName.toLowerCase().trim()))`. */
  function ThronesNames(thronesChars: seq<Character>): (names: set<string>)
    ensures forall i :: 0 <= i < |thronesChars| ==> MergeKey(thronesChars[i]) in names
    ensures forall k :: k in names ==> exists i :: 0 <= i < |thronesChars| && MergeKey(thronesChars[i]) == k
  {
    set c | c in thronesChars :: MergeKey(c)
  }

  /** `iceChars.filter(char => !thronesNames.has(key(char)))`. */
  function UniqueIce(thronesChars: seq<Character>, iceChars: seq<Character>): (r: seq<Character>)
    ensures |r| <= |iceChars|
    ensures forall i :: 0 <= i < |r| ==> r[i] in iceChars && MergeKey(r[i]) !in ThronesNames(thronesChars)
  {
    var names := ThronesNames(thronesChars);
    Filter(iceChars, (c: Character) => MergeKey(c) !in names)
  }

  /** The list `getMergedCharacters` caches. */
  function SetMerge(thronesChars: seq<Character>, iceChars: seq<Character>): (r: seq<Character>)
    ensures |thronesChars| <= |r| <= |thronesChars| + |iceChars|
    ensures forall i :: 0 <= i < |thronesChars| ==> r[i] == thronesChars[i].(id := Some(i + 1))
    ensures forall i :: 0 <= i < |r| ==> r[i].id == Some(i + 1)
  {
    Renumber(thronesChars + UniqueIce(thronesChars, iceChars))
  }

  /** Exactly the Ice & Fire records whose key no Thrones record has
      survive the filter. */
  lemma UniqueIceIff(thronesChars: seq<Character>, iceChars: seq<Character>)
    ensures var u := UniqueIce(thronesChars, iceChars);
      && (forall k :: 0 <= k < |u| ==> MergeKey(u[k]) !in ThronesNames(thronesChars))
      && (forall j :: 0 <= j < |iceChars| ==>
            (iceChars[j] in u <==> MergeKey(iceChars[j]) !in ThronesNames(thronesChars)))
  {
    var names := ThronesNames(thronesChars);
    var p := (c: Character) => MergeKey(c) !in names;
    var u := Filter(iceChars, p);
    forall k | 0 <= k < |u|
      ensures MergeKey(u[k]) !in names
    {
      assert p(u[k]);
    }
    forall j | 0 <= j < |iceChars|
      ensures iceChars[j] in u <==> p(iceChars[j])
    {
      if iceChars[j] in u {
        var k :| 0 <= k < |u| && u[k] == iceChars[j];
        assert p(u[k]);
      }
    }
  }

  /** The merged list starts with every Thrones record in order, numbered
      1..|A|; after them come the surviving Ice & Fire records in their
      order, numbered on from |A| + 1, none of them with a Thrones key. */
  lemma SetMergeContents(thronesChars: seq<Character>, iceChars: seq<Character>)
    ensures var out := SetMerge(thronesChars, iceChars); var u := UniqueIce(thronesChars, iceChars);
      && |out| == |thronesChars| + |u|
      && (forall i :: 0 <= i < |thronesChars| ==> out[i] == thronesChars[i].(id := Some(i + 1)))
      && (forall i :: |thronesChars| <= i < |out| ==>
            out[i] == u[i - |thronesChars|].(id := Some(i + 1))
            && MergeKey(out[i]) !in ThronesNames(thronesChars))
  {
    var u := UniqueIce(thronesChars, iceChars);
    UniqueIceIff(thronesChars, iceChars);
    RenumberConcat(thronesChars, u);
  }

  /** Source priority: a merged character whose key some Thrones record has
      is that Thrones record. */
  lemma SetMergeThronesWin(thronesChars: seq<Character>, iceChars: seq<Character>, i: int)
    requires var out := SetMerge(thronesChars, iceChars); 0 <= i < |out|
    requires MergeKey(SetMerge(thronesChars, iceChars)[i]) in ThronesNames(thronesChars)
    ensures i < |thronesChars| && SetMerge(thronesChars, iceChars)[i] == thronesChars[i].(id := Some(i + 1))
  {
    SetMergeContents(thronesChars, iceChars);
  }

  /** Splitting the Ice & Fire list splits its surviving part the same way:
      the filter keeps the relative order of Ice & Fire records. */
  lemma UniqueIceInOrder(thronesChars: seq<Character>, xs: seq<Character>, ys: seq<Character>)
    ensures UniqueIce(thronesChars, xs + ys) == UniqueIce(thronesChars, xs) + UniqueIce(thronesChars, ys)
  {
    var names := ThronesNames(thronesChars);
    FilterConcat(xs, ys, (c: Character) => MergeKey(c) !in names);
  }

  /** Neither source is deduplicated within itself: when no Ice & Fire
      record shares a name with a Thrones record, every record of both
      sources is kept, repeated names included. */
  lemma SetMergeNoClash(thronesChars: seq<Character>, iceChars: seq<Character>)
    requires forall j :: 0 <= j < |iceChars| ==> MergeKey(iceChars[j]) !in ThronesNames(thronesChars)
    ensures SetMerge(thronesChars, iceChars) == Renumber(thronesChars + iceChars)
  {
    var names := ThronesNames(thronesChars);
    FilterAll(iceChars, (c: Character) => MergeKey(c) !in names);
  }

  /** When every Ice & Fire record's name is already a Thrones name, the
      merged list is the Thrones list alone. */
  lemma SetMergeAllClash(thronesChars: seq<Character>, iceChars: seq<Character>)
    requires forall j :: 0 <= j < |iceChars| ==> MergeKey(iceChars[j]) in ThronesNames(thronesChars)
    ensures SetMerge(thronesChars, iceChars) == Renumber(thronesChars)
  {
    var names := ThronesNames(thronesChars);
    FilterNone(iceChars, (c: Character) => MergeKey(c) !in names);
    assert thronesChars + [] == thronesChars;
  }

  // ---------------------------------------------------------------------
  // The cache

  /** The module-level `mergedCharacters`, with `getMergedCharacters`.
      `thronesResponse` is the Thrones request's answer (None: it failed)
      and `fetchIcePage(p)` the answer to the request for Ice & Fire page p. */
  class PagedGallery {
    var mergedCharacters: Option<seq<Character>>

    constructor ()
      ensures mergedCharacters == None
    {
      mergedCharacters := None;
    }

    method GetMergedCharacters(thronesResponse: Option<seq<RawThrones>>, fetchIcePage: int -> Option<seq<RawIce>>)
      returns (characters: seq<Character>)
      modifies this
      ensures old(mergedCharacters).Some? ==>
        characters == old(mergedCharacters).value && mergedCharacters == old(mergedCharacters)
      ensures old(mergedCharacters).None? ==>
        characters == SetMerge(ThronesCharacters(thronesResponse), IceCharacters(fetchIcePage, IcePages))
        && mergedCharacters == Some(characters)
    {
      if mergedCharacters.Some? {
        return mergedCharacters.value;
      }
      var thronesChars := ThronesCharacters(thronesResponse);
      var iceChars, _ := GetIceAndFireCharacters(fetchIcePage, IcePages);
      var thronesNames := ThronesNames(thronesChars);
      var uniqueIceChars := Filter(iceChars, (c: Character) => MergeKey(c) !in thronesNames);
      mergedCharacters := Some(thronesChars + uniqueIceChars);
      mergedCharacters := Some(Renumber(mergedCharacters.value));
      characters := mergedCharacters.value;
    }
  }

  /** Two requests served by one fresh cache: the second always gets the
      first one's list, and when both sources fail the list is [] and it
      stays cached. */
  method TwoRequests(thrones1: Option<seq<RawThrones>>, fetch1: int -> Option<seq<RawIce>>,
                     thrones2: Option<seq<RawThrones>>, fetch2: int -> Option<seq<RawIce>>)
    returns (first: seq<Character>, second: seq<Character>)
    ensures second == first
    ensures thrones1.None? && fetch1(1).None? ==> first == []
  {
    var gallery := new PagedGallery();
    first := gallery.GetMergedCharacters(thrones1, fetch1);
    second := gallery.GetMergedCharacters(thrones2, fetch2);
    if fetch1(1).None? {
      FailureSticks(fetch1, 1, IcePages);
    }
  }

  // ---------------------------------------------------------------------
  // Routes

  /** `String(char.id)`; a NaN id prints as "NaN". */
  function IdText(id: Option<int>): string {
    if id.Some? then IntToString(id.value) else "NaN"
  }

  /** backend/app.js `/api/characters/:id`: `String(char.id) === id`, the
      first character whose printed id is the parameter, or none. */
  function FindByIdText(cs: seq<Character>, id: string): (r: Option<Character>)
    ensures r.None? <==> forall i :: 0 <= i < |cs| ==> IdText(cs[i].id) != id
    ensures r.Some? ==> r.value in cs && IdText(r.value.id) == id
  {
    Find(cs, (c: Character) => IdText(c.id) == id)
  }

  /** On a numbered list the text of any k in 1..N finds something. */
  lemma FindByIdTextSome(cs: seq<Character>, id: string, k: int)
    requires 1 <= k <= |cs| && id == NatToString(k)
    ensures FindByIdText(Renumber(cs), id).Some?
  {
    var r := Renumber(cs);
    assert r[k - 1].id == Some(k);
    assert IdText(r[k - 1].id) == id;
  }

  /** On a numbered list whatever a text finds is found under the text of
      its own position. */
  lemma FindByIdTextPosition(cs: seq<Character>, id: string)
    ensures var r := Renumber(cs); var found := FindByIdText(r, id);
      found.Some? ==> exists k :: 1 <= k <= |r| && id == NatToString(k) && found == Some(r[k - 1])
  {
    var r := Renumber(cs);
    var i := IndexWhere(r, (c: Character) => IdText(c.id) == id);
    if i >= 0 {
      assert r[i].id == Some(i + 1);
      assert id == NatToString(i + 1);
    }
  }

  /** On a numbered list the text of k finds the k-th character, and any
      text that finds something is the text of one of 1..N; so a text with
      a non-digit in it, such as "12abc" or "-1", finds nothing. */
  lemma FindByIdTextRenumbered(cs: seq<Character>, id: string)
    ensures var r := Renumber(cs); var found := FindByIdText(r, id);
      && (forall k :: 1 <= k <= |r| && id == NatToString(k) ==> found == Some(r[k - 1]))
      && (found.Some? ==> exists k :: 1 <= k <= |r| && id == NatToString(k) && found == Some(r[k - 1]))
      && ((exists j :: 0 <= j < |id| && !IsDecimalDigit(id[j])) ==> found == None)
  {
    var r := Renumber(cs);
    var found := FindByIdText(r, id);
    FindByIdTextPosition(cs, id);
    forall k | 1 <= k <= |r| && id == NatToString(k)
      ensures found == Some(r[k - 1])
    {
      FindByIdTextSome(cs, id, k);
      var k0 :| 1 <= k0 <= |r| && id == NatToString(k0) && found == Some(r[k0 - 1]);
      NatToStringInjective(k, k0);
    }
  }

  /** backend/app.js registers `/api/characters/:id` before
      `/api/characters/count`, so a request for "count" reaches the id
      route, which finds no character with that id. */
  lemma CountRouteShadowed(cs: seq<Character>)
    ensures FindByIdText(Renumber(cs), "count") == None
  {
    FindByIdTextRenumbered(cs, "count");
    assert !IsDecimalDigit("count"[0]);
  }

  /** pruebas/app.js `/search/:name`: the first character whose trimmed,
      lower-cased name equals the trimmed, lower-cased query. */
  function SearchByName(cs: seq<Character>, name: string): (r: Option<Character>)
    ensures var q := Trim(ToLower(name));
      && (r.None? <==> forall i :: 0 <= i < |cs| ==> MergeKey(cs[i]) != q)
      && (r.Some? ==> exists i :: 0 <= i < |cs| && r.value == cs[i] && MergeKey(cs[i]) == q
                        && forall j :: 0 <= j < i ==> MergeKey(cs[j]) != q)
  {
    var q := Trim(ToLower(name));
    Find(cs, (c: Character) => MergeKey(c) == q)
  }

  /** `/api/character/navigate/:direction/:currentId` of both variants:
      404 for an unknown id first, then "next" and "prev" step with wrap-
      around and any other direction is a 400. */
  function NavigatePaged(all: seq<Character>, direction: string, currentId: string): (r: NavResult)
    ensures r.NotFound? <==> forall i :: 0 <= i < |all| ==> !SameNumber(all[i].id, ParseInt(currentId))
    ensures r.InvalidDirection? <==> !r.NotFound? && direction != "next" && direction != "prev"
    ensures r.Moved? ==> r.character in all
  {
    var i := IndexOfId(all, ParseInt(currentId));
    if i == -1 then NotFound
    else if direction == "next" then Moved(all[NextIndex(i, |all|)])
    else if direction == "prev" then Moved(all[PrevIndex(i, |all|)])
    else InvalidDirection
  }

  /** backend/app.js answers with the character's fields except `source`. */
  function BackendNavigate(all: seq<Character>, direction: string, currentId: string): (r: NavResult)
    ensures r.Moved? ==> (r.character.source == None
      && exists i :: 0 <= i < |all| && r.character == all[i].(source := None))
    ensures NavigatePaged(all, direction, currentId).Moved? ==>
      r == Moved(NavigatePaged(all, direction, currentId).character.(source := None))
    ensures r.NotFound? == NavigatePaged(all, direction, currentId).NotFound?
    ensures r.InvalidDirection? == NavigatePaged(all, direction, currentId).InvalidDirection?
  {
    match NavigatePaged(all, direction, currentId)
    case Moved(c) => Moved(c.(source := None))
    case other => other
  }

  /** On a numbered list the route finds an id that parses to k at
      position k - 1 and steps from there, or rejects the direction. */
  lemma NavigatePagedFrom(cs: seq<Character>, currentId: string, k: int, direction: string)
    requires 1 <= k <= |cs| && ParseInt(currentId) == Some(k)
    ensures var r := Renumber(cs);
      NavigatePaged(r, direction, currentId)
      == if direction == "next" then Moved(r[NextIndex(k - 1, |r|)])
         else if direction == "prev" then Moved(r[PrevIndex(k - 1, |r|)])
         else InvalidDirection
  {
    var r := Renumber(cs);
    IndexOfIdRenumbered(cs, Some(k));
    assert IndexOfId(r, ParseInt(currentId)) == k - 1;
    if direction == "next" {
    } else if direction == "prev" {
    } else {
    }
  }

  /** On a numbered list "next" from k reaches k + 1 and "prev" from k + 1
      comes back to k, wrapping at the ends. */
  lemma NavigatePagedRenumbered(cs: seq<Character>, k: nat)
    requires 1 <= k <= |cs|
    ensures var r := Renumber(cs); var n := |r|;
      && NavigatePaged(r, "next", NatToString(k)) == Moved(r[if k == n then 0 else k])
      && NavigatePaged(r, "prev", NatToString(if k == n then 1 else k + 1)) == Moved(r[k - 1])
      && NavigatePaged(r, "up", NatToString(k)) == InvalidDirection
  {
    ParseNatToString(k);
    NavigatePagedFrom(cs, NatToString(k), k, "next");
    NavigatePagedFrom(cs, NatToString(k), k, "up");
    if k == |cs| {
      ParseNatToString(1);
      NavigatePagedFrom(cs, NatToString(1), 1, "prev");
    } else {
      ParseNatToString(k + 1);
      NavigatePagedFrom(cs, NatToString(k + 1), k + 1, "prev");
    }
  }
}
