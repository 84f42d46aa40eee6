/** The record shapes shared by the three server variants, and the list
    operations their routes use: renumbering, `findIndex`/`find`, `filter`
    and wrap-around navigation. */
module Characters {
  import opened Js

  /** A `title` property as the Thrones API may deliver it: absent, a
      string, or an array of strings. */
  datatype TitleValue = Missing | Text(text: string) | List(items: seq<string>)

  /** `value || ...` for a title: an array is truthy even when empty. */
  predicate TitleTruthy(t: TitleValue) {
    match t
    case Missing => false
    case Text(s) => s != ""
    case List(_) => true
  }

  /** A raw record of the Thrones API (one element of `response.data`). */
  datatype RawThrones = RawThrones(
    id: int,
    firstName: Option<string>,
    lastName: Option<string>,
    fullName: Option<string>,
    title: TitleValue,
    family: Option<string>,
    image: Option<string>,
    imageUrl: Option<string>,
    born: Option<string>,
    died: Option<string>,
    aliases: Option<string>)

  /** A raw record of the Ice & Fire API. Its `url`, `titles`, `aliases`
      and `allegiances` are always present in that API's answers. */
  datatype RawIce = RawIce(
    url: string,
    name: Option<string>,
    born: Option<string>,
    died: Option<string>,
    titles: seq<string>,
    aliases: seq<string>,
    allegiances: seq<string>)

  /** The record has a truthy name: `c => c.name` in app.js and
      `char => char.name && char.name !== ""` in the paginated variants. */
  predicate HasName(c: RawIce) {
    Truthy(c.name)
  }

  /** The normalised character. A property that a variant does not produce,
      or produces as `null`, is None; an `id` that is absent or NaN is None. */
  datatype Character = Character(
    id: Option<int>,
    image: Option<string>,
    firstName: Option<string>,
    lastName: Option<string>,
    fullName: string,
    born: string,
    died: string,
    titles: TitleValue,
    aliases: string,
    family: string,
    familyCrest: Option<string>,
    source: Option<string>)

  /** `list.map((char, index) => ({...char, id: index + 1}))`: the same
      characters in the same order, the i-th one carrying id i + 1. */
  function Renumber(cs: seq<Character>): (r: seq<Character>)
    ensures |r| == |cs|
    ensures forall i :: 0 <= i < |r| ==> r[i].id == Some(i + 1) && r[i].(id := cs[i].id) == cs[i]
  {
    seq(|cs|, i requires 0 <= i < |cs| => cs[i].(id := Some(i + 1)))
  }

  /** Some character of the list carries id k. */
  predicate HasId(cs: seq<Character>, k: int) {
    exists i :: 0 <= i < |cs| && cs[i].id == Some(k)
  }

  /** After renumbering the ids are exactly 1..N in list order, whatever ids
      the input carried, and every other property is kept. */
  lemma RenumberIds(cs: seq<Character>)
    ensures var r := Renumber(cs);
      |r| == |cs|
      && (forall i :: 0 <= i < |r| ==> r[i].id == Some(i + 1) && r[i].(id := cs[i].id) == cs[i])
      && (forall k :: HasId(r, k) <==> 1 <= k <= |r|)
  {
    var r := Renumber(cs);
    forall k
      ensures HasId(r, k) <==> 1 <= k <= |r|
    {
      if 1 <= k <= |r| {
        assert r[k - 1].id == Some(k);
      }
      if HasId(r, k) {
        var i :| 0 <= i < |r| && r[i].id == Some(k);
        assert r[i].id == Some(i + 1);
      }
    }
  }

  /** Renumbering a concatenation numbers the second part on from the
      length of the first. */
  lemma RenumberConcat(a: seq<Character>, b: seq<Character>)
    ensures var out := Renumber(a + b);
      && |out| == |a| + |b|
      && (forall i :: 0 <= i < |a| ==> out[i] == a[i].(id := Some(i + 1)))
      && (forall i :: |a| <= i < |out| ==> out[i] == b[i - |a|].(id := Some(i + 1)))
  {
    var out := Renumber(a + b);
    forall i | 0 <= i < |out|
      ensures out[i] == (a + b)[i].(id := Some(i + 1))
    {
    }
  }

  /** Renumbering ignores the ids it is given and is idempotent. */
  lemma RenumberIgnoresIds(cs: seq<Character>, ds: seq<Character>)
    requires |cs| == |ds|
    requires forall i :: 0 <= i < |cs| ==> cs[i].(id := None) == ds[i].(id := None)
    ensures Renumber(cs) == Renumber(ds)
    ensures Renumber(Renumber(cs)) == Renumber(cs)
  {
    assert forall i :: 0 <= i < |cs| ==> cs[i].(id := Some(i + 1)) == ds[i].(id := None).(id := Some(i + 1));
  }

  // ---------------------------------------------------------------------
  // findIndex, find and filter

  /** `xs.findIndex(p)`: the first index satisfying `p`, or -1. */
  function IndexWhere<T>(xs: seq<T>, p: T -> bool): (r: int)
    ensures -1 <= r < |xs|
    ensures r == -1 <==> forall i :: 0 <= i < |xs| ==> !p(xs[i])
    ensures r >= 0 ==> p(xs[r]) && forall i :: 0 <= i < r ==> !p(xs[i])
  {
    if xs == [] then -1
    else if p(xs[0]) then 0
    else
      var k := IndexWhere(xs[1..], p);
      if k == -1 then -1 else k + 1
  }

  /** `xs.find(p)`: the first element satisfying `p`, or undefined. */
  function Find<T>(xs: seq<T>, p: T -> bool): (r: Option<T>)
    ensures r.None? <==> forall i :: 0 <= i < |xs| ==> !p(xs[i])
    ensures r.Some? ==>
      exists k :: 0 <= k < |xs| && xs[k] == r.value && p(xs[k]) && forall i :: 0 <= i < k ==> !p(xs[i])
  {
    var k := IndexWhere(xs, p);
    if k < 0 then None else Some(xs[k])
  }

  /** `xs.filter(p)`: the elements satisfying `p`, in their order. */
  function Filter<T>(xs: seq<T>, p: T -> bool): (r: seq<T>)
    ensures |r| <= |xs|
    ensures forall i :: 0 <= i < |r| ==> r[i] in xs && p(r[i])
    ensures forall i :: 0 <= i < |xs| && p(xs[i]) ==> xs[i] in r
  {
    if xs == [] then []
    else (if p(xs[0]) then [xs[0]] else []) + Filter(xs[1..], p)
  }

  /** Filtering distributes over concatenation: it keeps relative order. */
  lemma {:induction false} FilterConcat<T>(xs: seq<T>, ys: seq<T>, p: T -> bool)
    ensures Filter(xs + ys, p) == Filter(xs, p) + Filter(ys, p)
  {
    if xs != [] {
      var head := if p(xs[0]) then [xs[0]] else [];
      assert (xs + ys)[0] == xs[0];
      assert (xs + ys)[1..] == xs[1..] + ys;
      FilterConcat(xs[1..], ys, p);
      assert Filter(xs + ys, p) == head + Filter(xs[1..] + ys, p);
      assert Filter(xs, p) == head + Filter(xs[1..], p);
      assert head + (Filter(xs[1..], p) + Filter(ys, p)) == (head + Filter(xs[1..], p)) + Filter(ys, p);
    } else {
      assert xs + ys == ys;
    }
  }

  /** When the filter keeps a single element, every element satisfying
      the predicate is that one. */
  lemma FilterSingle<T>(xs: seq<T>, p: T -> bool)
    requires |Filter(xs, p)| == 1
    ensures forall i :: 0 <= i < |xs| && p(xs[i]) ==> xs[i] == Filter(xs, p)[0]
  {
  }

  /** Filtering with a predicate that holds everywhere keeps everything. */
  lemma {:induction false} FilterAll<T>(xs: seq<T>, p: T -> bool)
    requires forall i :: 0 <= i < |xs| ==> p(xs[i])
    ensures Filter(xs, p) == xs
  {
    if xs != [] {
      FilterAll(xs[1..], p);
    }
  }

  /** Filtering with a predicate that holds nowhere keeps nothing. */
  lemma {:induction false} FilterNone<T>(xs: seq<T>, p: T -> bool)
    requires forall i :: 0 <= i < |xs| ==> !p(xs[i])
    ensures Filter(xs, p) == []
  {
    if xs != [] {
      FilterNone(xs[1..], p);
    }
  }

  /** `xs.filter(t => t !== "")`; app.js writes `t => t`, the same on strings. */
  function NonEmpty(xs: seq<string>): seq<string> {
    Filter(xs, (s: string) => s != "")
  }

  /** `xs.filter(...).join(", ") || fallback`: the fallback exactly when no
      entry is non-empty, otherwise the non-empty entries joined, which is
      then itself non-empty. */
  function JoinOr(xs: seq<string>, fallback: string): (r: string)
    ensures (forall i :: 0 <= i < |xs| ==> xs[i] == "") ==> r == fallback
    ensures (exists i :: 0 <= i < |xs| && xs[i] != "") ==> r == Join(NonEmpty(xs), ", ") && r != ""
    ensures fallback != "" ==> r != ""
  {
    var kept := NonEmpty(xs);
    assert (exists i :: 0 <= i < |xs| && xs[i] != "") ==> |kept| > 0;
    var joined := Join(kept, ", ");
    if joined != "" then joined else fallback
  }

  // ---------------------------------------------------------------------
  // Lookup by id

  /** `a === b` on numbers, where None stands for NaN, which equals nothing. */
  predicate SameNumber(a: Option<int>, b: Option<int>) {
    a.Some? && b.Some? && a.value == b.value
  }

  /** `characters.findIndex(char => char.id === id)`: the first position
      whose id equals `id`, or -1 when there is none (always for NaN). */
  function IndexOfId(cs: seq<Character>, id: Option<int>): (r: int)
    ensures -1 <= r < |cs|
    ensures r == -1 <==> forall i :: 0 <= i < |cs| ==> !SameNumber(cs[i].id, id)
    ensures r >= 0 ==> SameNumber(cs[r].id, id) && forall i :: 0 <= i < r ==> !SameNumber(cs[i].id, id)
    ensures id.None? ==> r == -1
  {
    IndexWhere(cs, (c: Character) => SameNumber(c.id, id))
  }

  /** `characters.find(char => char.id === parseInt(param))`: a character
      whose id is the parsed parameter, the first one, or none at all when
      no id matches or the parameter is not a number. */
  function FindByIdParam(cs: seq<Character>, param: string): (r: Option<Character>)
    ensures r.None? <==> forall i :: 0 <= i < |cs| ==> !SameNumber(cs[i].id, ParseInt(param))
    ensures r.Some? ==> r.value in cs && SameNumber(r.value.id, ParseInt(param))
    ensures ParseInt(param).None? ==> r.None?
  {
    Find(cs, (c: Character) => SameNumber(c.id, ParseInt(param)))
  }

  /** In a renumbered list the character with id k sits at index k - 1,
      and an id outside 1..N (or NaN) is not found. */
  lemma IndexOfIdRenumbered(cs: seq<Character>, id: Option<int>)
    ensures var r := Renumber(cs);
      IndexOfId(r, id) == if id.Some? && 1 <= id.value <= |r| then id.value - 1 else -1
  {
    var r := Renumber(cs);
    var k := IndexOfId(r, id);
    if id.Some? && 1 <= id.value <= |r| {
      assert SameNumber(r[id.value - 1].id, id);
    }
  }

  /** Looking up `String(k)` in a renumbered list gives its k-th character. */
  lemma FindByIdParamRenumbered(cs: seq<Character>, k: nat)
    ensures var r := Renumber(cs);
      FindByIdParam(r, NatToString(k)) == if 1 <= k <= |r| then Some(r[k - 1]) else None
  {
    ParseNatToString(k);
    IndexOfIdRenumbered(cs, Some(k));
    assert IndexWhere(Renumber(cs), (c: Character) => SameNumber(c.id, ParseInt(NatToString(k))))
        == IndexOfId(Renumber(cs), Some(k));
  }

  // ---------------------------------------------------------------------
  // Navigation

  /** The outcome of the navigation route: 404, 400, or the new character. */
  datatype NavResult = NotFound | InvalidDirection | Moved(character: Character)

  /** `(i + 1) % n`. */
  function NextIndex(i: int, n: int): (r: int)
    requires 0 <= i < n
    ensures 0 <= r < n
    ensures r == if i == n - 1 then 0 else i + 1
  {
    (i + 1) % n
  }

  /** `(i - 1 + n) % n`, the app.js step backwards. */
  function PrevIndexWrap(i: int, n: int): (r: int)
    requires 0 <= i < n
    ensures 0 <= r < n
    ensures r == if i == 0 then n - 1 else i - 1
  {
    (i - 1 + n) % n
  }

  /** `i === 0 ? n - 1 : i - 1`, the step backwards of the paged variants. */
  function PrevIndex(i: int, n: int): (r: int)
    requires 0 <= i < n
    ensures 0 <= r < n
  {
    if i == 0 then n - 1 else i - 1
  }

  /** The two ways of stepping backwards agree, and stepping forwards and
      backwards undo each other. */
  lemma StepsInverse(i: int, n: int)
    requires 0 <= i < n
    ensures PrevIndex(i, n) == PrevIndexWrap(i, n)
    ensures PrevIndex(NextIndex(i, n), n) == i
    ensures NextIndex(PrevIndex(i, n), n) == i
  {
  }
}
