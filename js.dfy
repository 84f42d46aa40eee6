/** The small part of JavaScript's value and string semantics that the
    character pipeline relies on: truthiness of `||`, template literals,
    `toLowerCase`, `trim`, `split`, `join`, `parseInt` and `String(n)`. */
module Js {

  datatype Option<+T> = None | Some(value: T)

  /** Truthiness of a string-valued property that may be absent
      (`undefined` or `null`): only a non-empty string is truthy. */
  predicate Truthy(o: Option<string>) {
    o.Some? && o.value != ""
  }

  /** `o || fallback` for a string property. */
  function Or(o: Option<string>, fallback: string): string {
    if Truthy(o) then o.value else fallback
  }

  /** `o || null`: keeps a truthy string, otherwise null. */
  function OrNull(o: Option<string>): Option<string> {
    if Truthy(o) then o else None
  }

  /** A property interpolated into a template literal: an absent one
      prints as "undefined". */
  function Interpolate(o: Option<string>): string {
    if o.Some? then o.value else "undefined"
  }

  // ---------------------------------------------------------------------
  // toLowerCase (ASCII letters only)

  function LowerChar(c: char): char {
    if 'A' <= c <= 'Z' then (c as int + 32) as char else c
  }

  /** `s.toLowerCase()`: the same length, every ASCII capital replaced by
      its small letter and every other character kept. */
  function ToLower(s: string): (r: string)
    ensures |r| == |s|
    ensures forall i :: 0 <= i < |s| ==> !('A' <= r[i] <= 'Z')
    ensures forall i :: 0 <= i < |s| && 'A' <= s[i] <= 'Z' ==> r[i] as int == s[i] as int + 32
    ensures forall i :: 0 <= i < |s| && !('A' <= s[i] <= 'Z') ==> r[i] == s[i]
  {
    seq(|s|, i requires 0 <= i < |s| => LowerChar(s[i]))
  }

  // ---------------------------------------------------------------------
  // trim: JavaScript strips WhiteSpace and LineTerminator code points

  predicate IsSpace(c: char) {
    var n := c as int;
    n == 0x09 || n == 0x0A || n == 0x0B || n == 0x0C || n == 0x0D || n == 0x20
    || n == 0xA0 || n == 0x1680 || (0x2000 <= n <= 0x200A) || n == 0x2028
    || n == 0x2029 || n == 0x202F || n == 0x205F || n == 0x3000 || n == 0xFEFF
  }

  /** Drops the leading white space: the result is the suffix of `s`
      that starts at its first non-space character. */
  function TrimStart(s: string): (r: string)
    ensures |r| <= |s| && r == s[|s| - |r|..]
    ensures forall i :: 0 <= i < |s| - |r| ==> IsSpace(s[i])
    ensures r != [] ==> !IsSpace(r[0])
    decreases |s|
  {
    if s != [] && IsSpace(s[0]) then TrimStart(s[1..]) else s
  }

  /** Drops the trailing white space: the result is the prefix of `s`
      that ends at its last non-space character. */
  function TrimEnd(s: string): (r: string)
    ensures |r| <= |s| && r == s[..|r|]
    ensures forall i :: |r| <= i < |s| ==> IsSpace(s[i])
    ensures r != [] ==> !IsSpace(r[|r| - 1])
    decreases |s|
  {
    if s != [] && IsSpace(s[|s| - 1]) then TrimEnd(s[..|s| - 1]) else s
  }

  /** `s.trim()`: neither starts nor ends with white space; `TrimIsSlice`
      shows it is what lies between the leading and trailing white space. */
  function Trim(s: string): (r: string)
    ensures |r| <= |s|
    ensures r != [] ==> !IsSpace(r[0]) && !IsSpace(r[|r| - 1])
  {
    TrimEnd(TrimStart(s))
  }

  /** The trimmed string is the slice of `s` with only white space before
      and after it. */
  lemma TrimIsSlice(s: string)
    ensures exists k :: TrimmedAt(s, Trim(s), k)
  {
    TrimSlice(s, TrimStart(s), TrimEnd(TrimStart(s)));
    assert TrimmedAt(s, Trim(s), |s| - |TrimStart(s)|);
  }

  /** Composes the contracts of `TrimStart` and `TrimEnd`. */
  lemma TrimSlice(s: string, t: string, r: string)
    requires |t| <= |s| && t == s[|s| - |t|..]
    requires forall i :: 0 <= i < |s| - |t| ==> IsSpace(s[i])
    requires |r| <= |t| && r == t[..|r|]
    requires forall i :: |r| <= i < |t| ==> IsSpace(t[i])
    ensures TrimmedAt(s, r, |s| - |t|)
  {
    SliceOfSuffix(s, t, r);
    TrailingSpace(s, t, r);
  }

  lemma SliceOfSuffix<T>(s: seq<T>, t: seq<T>, r: seq<T>)
    requires |t| <= |s| && t == s[|s| - |t|..]
    requires |r| <= |t| && r == t[..|r|]
    ensures r == s[|s| - |t|..|s| - |t| + |r|]
  {
  }

  lemma TrailingSpace(s: string, t: string, r: string)
    requires |t| <= |s| && t == s[|s| - |t|..]
    requires |r| <= |t| && forall i :: |r| <= i < |t| ==> IsSpace(t[i])
    ensures forall i :: |s| - |t| + |r| <= i < |s| ==> IsSpace(s[i])
  {
    var k := |s| - |t|;
    forall i | k + |r| <= i < |s|
      ensures IsSpace(s[i])
    {
      assert s[i] == t[i - k];
    }
  }

  /** `r` is the slice of `s` at offset `k`, with only white space before
      and after it. */
  predicate TrimmedAt(s: string, r: string, k: int) {
    0 <= k <= |s| - |r| && r == s[k..k + |r|]
    && (forall i :: 0 <= i < k ==> IsSpace(s[i]))
    && (forall i :: k + |r| <= i < |s| ==> IsSpace(s[i]))
  }

  /** `trim` removes nothing from a string that neither starts nor ends
      with white space, and trimming twice changes nothing more. */
  lemma TrimIdempotent(s: string)
    ensures Trim(Trim(s)) == Trim(s)
  {
    var t := Trim(s);
    if t != [] {
      assert !IsSpace(t[0]) && !IsSpace(t[|t| - 1]);
      assert TrimStart(t) == t;
      assert TrimEnd(t) == t;
    }
  }

  /** A trailing blank makes no difference once trimmed, for a string that
      does not start with white space. */
  lemma TrimTrailingBlank(t: string)
    requires t != [] && !IsSpace(t[0])
    ensures Trim(t + " ") == Trim(t)
  {
    var u := t + " ";
    assert TrimStart(u) == u;
    assert TrimStart(t) == t;
    assert u[..|u| - 1] == t;
  }

  /** Lower-casing keeps the length, keeps a trailing blank and never turns
      a first character into white space. */
  lemma ToLowerTrailingBlank(s: string)
    ensures |ToLower(s)| == |s|
    ensures ToLower(s + " ") == ToLower(s) + " "
    ensures s != [] && !IsSpace(s[0]) ==> !IsSpace(ToLower(s)[0])
  {
    var a := ToLower(s + " ");
    var b := ToLower(s) + " ";
    assert |a| == |b|;
    forall i | 0 <= i < |a| ensures a[i] == b[i] {
      if i < |s| {
        assert (s + " ")[i] == s[i];
      }
    }
  }

  // ---------------------------------------------------------------------
  // `s.includes(t)`

  predicate OccursAt(s: string, t: string, i: int) {
    0 <= i <= |s| - |t| && s[i..i + |t|] == t
  }

  /** `s.includes(t)`: `t` occurs somewhere in `s`; the empty string
      occurs in every string, and nothing longer than `s` occurs in it. */
  predicate Includes(s: string, t: string): (b: bool)
    ensures b ==> |t| <= |s|
    ensures t == [] ==> b
    ensures t == s ==> b
  {
    assert t == [] ==> OccursAt(s, t, 0);
    assert t == s ==> OccursAt(s, t, 0);
    exists i | 0 <= i <= |s| :: OccursAt(s, t, i)
  }

  // ---------------------------------------------------------------------
  // split(sep) and join(sep)

  /** `s.split(sep)` for a one-character separator: the pieces between
      separators, in order; an empty string gives `[""]`. */
  function Split(s: string, sep: char): (parts: seq<string>)
    ensures |parts| >= 1
    ensures forall i :: 0 <= i < |parts| ==> sep !in parts[i]
  {
    if s == [] then [""]
    else
      var rest := Split(s[1..], sep);
      if s[0] == sep then [""] + rest
      else [[s[0]] + rest[0]] + rest[1..]
  }

  /** `parts.join(sep)`. */
  function Join(parts: seq<string>, sep: string): string {
    if |parts| == 0 then ""
    else if |parts| == 1 then parts[0]
    else parts[0] + sep + Join(parts[1..], sep)
  }

  /** A join starts with the first piece and ends with the last one. */
  lemma {:induction false} JoinEnds(parts: seq<string>, sep: string)
    requires |parts| >= 1
    ensures var r := Join(parts, sep);
      |parts[0]| <= |r| && r[..|parts[0]|] == parts[0]
    ensures var r := Join(parts, sep); var l := parts[|parts| - 1];
      |l| <= |r| && r[|r| - |l|..] == l
  {
    if |parts| > 1 {
      JoinEnds(parts[1..], sep);
      var tail := Join(parts[1..], sep);
      assert Join(parts, sep) == parts[0] + sep + tail;
      assert parts[1..][|parts[1..]| - 1] == parts[|parts| - 1];
    }
  }

  /** `arr.pop()` on the result of `split`: the last piece, that is the
      suffix of `s` after its last separator (all of `s` if it has none). */
  function LastSegment(s: string, sep: char): (r: string)
    ensures |r| <= |s| && r == s[|s| - |r|..]
    ensures sep !in r
    ensures |r| < |s| ==> s[|s| - |r| - 1] == sep
  {
    SplitLast(s, sep);
    var parts := Split(s, sep);
    parts[|parts| - 1]
  }

  /** The last piece of a split is the suffix after the last separator. */
  predicate LastPieceOk(s: string, parts: seq<string>, sep: char) {
    |parts| >= 1 &&
    var l := parts[|parts| - 1];
    |l| <= |s| && l == s[|s| - |l|..] && (|l| < |s| ==> s[|s| - |l| - 1] == sep)
    && (|parts| == 1 ==> l == s) && (|parts| > 1 ==> |l| < |s|)
  }

  lemma {:induction false} SplitLast(s: string, sep: char)
    ensures LastPieceOk(s, Split(s, sep), sep)
  {
    if s != [] {
      SplitLast(s[1..], sep);
      var rest := Split(s[1..], sep);
      if s[0] == sep {
        LastAfterSeparator(s, rest, sep);
      } else {
        LastAfterOther(s, rest, sep);
      }
    }
  }

  lemma LastAfterSeparator(s: string, rest: seq<string>, sep: char)
    requires s != [] && s[0] == sep && LastPieceOk(s[1..], rest, sep)
    ensures LastPieceOk(s, [""] + rest, sep)
  {
    var l := rest[|rest| - 1];
    assert ([""] + rest)[|rest|] == l;
    assert s[1..][|s[1..]| - |l|..] == s[|s| - |l|..];
  }

  lemma LastAfterOther(s: string, rest: seq<string>, sep: char)
    requires s != [] && s[0] != sep && LastPieceOk(s[1..], rest, sep)
    ensures LastPieceOk(s, [[s[0]] + rest[0]] + rest[1..], sep)
  {
    var l := rest[|rest| - 1];
    var parts := [[s[0]] + rest[0]] + rest[1..];
    if |rest| == 1 {
      assert [s[0]] + s[1..] == s;
    } else {
      assert parts[|parts| - 1] == l;
      assert s[1..][|s[1..]| - |l|..] == s[|s| - |l|..];
    }
  }



  /** Joining the pieces of a split with the separator gives the string back. */
  lemma {:induction false} JoinSplit(s: string, sep: char)
    ensures Join(Split(s, sep), [sep]) == s
  {
    if s != [] {
      var rest := Split(s[1..], sep);
      JoinSplit(s[1..], sep);
      if s[0] == sep {
        assert Split(s, sep) == [""] + rest;
        assert ([""] + rest)[1..] == rest;
      } else if |rest| > 1 {
        var parts := [[s[0]] + rest[0]] + rest[1..];
        assert parts[1..] == rest[1..];
        assert Join(rest, [sep]) == rest[0] + [sep] + Join(rest[1..], [sep]);
      }
    }
  }

  /** A string without the separator splits into itself alone. */
  lemma {:induction false} SplitNoSeparator(s: string, sep: char)
    requires sep !in s
    ensures Split(s, sep) == [s]
  {
    if s != [] {
      SplitNoSeparator(s[1..], sep);
      assert [s[0]] + s[1..] == s;
    }
  }

  /** Splitting at a separator splits the two sides independently. */
  lemma {:induction false} SplitConcat(x: string, sep: char, y: string)
    ensures Split(x + [sep] + y, sep) == Split(x, sep) + Split(y, sep)
  {
    if x == [] {
      assert ([] + [sep] + y)[1..] == y;
    } else {
      var s := x + [sep] + y;
      assert s[1..] == x[1..] + [sep] + y;
      SplitConcat(x[1..], sep, y);
    }
  }

  /** Splitting a join of separator-free pieces gives the pieces back. */
  lemma {:induction false} SplitJoin(parts: seq<string>, sep: char)
    requires |parts| >= 1
    requires forall i :: 0 <= i < |parts| ==> sep !in parts[i]
    ensures Split(Join(parts, [sep]), sep) == parts
  {
    if |parts| == 1 {
      SplitNoSeparator(parts[0], sep);
    } else {
      var tail := Join(parts[1..], [sep]);
      assert Join(parts, [sep]) == parts[0] + [sep] + tail;
      SplitJoin(parts[1..], sep);
      SplitConcat(parts[0], sep, tail);
      SplitNoSeparator(parts[0], sep);
      assert Split(Join(parts, [sep]), sep) == [parts[0]] + parts[1..];
      assert [parts[0]] + parts[1..] == parts;
    }
  }

  /** The last piece of `prefix + "/" + seg` is `seg` when `seg` holds no separator. */
  lemma LastSegmentAfter(prefix: string, sep: char, seg: string)
    requires sep !in seg
    ensures LastSegment(prefix + [sep] + seg, sep) == seg
  {
    SplitConcat(prefix, sep, seg);
    SplitNoSeparator(seg, sep);
  }

  /** Position of the first occurrence of `c` in `s`. */
  function IndexOfChar(s: string, c: char): (k: nat)
    requires c in s
    ensures k < |s| && s[k] == c && c !in s[..k]
  {
    if s[0] == c then 0
    else
      var k := IndexOfChar(s[1..], c);
      assert s[..k + 1] == [s[0]] + s[1..][..k];
      k + 1
  }

  /** The first piece of a split is everything before the first separator,
      and joining the other pieces gives everything after it. */
  lemma SplitAtFirst(s: string, sep: char)
    requires sep in s
    ensures var k := IndexOfChar(s, sep);
      Split(s, sep)[0] == s[..k] && Join(Split(s, sep)[1..], [sep]) == s[k + 1..]
  {
    var k := IndexOfChar(s, sep);
    assert s == s[..k] + [sep] + s[k + 1..];
    SplitConcat(s[..k], sep, s[k + 1..]);
    SplitNoSeparator(s[..k], sep);
    assert Split(s, sep)[1..] == Split(s[k + 1..], sep);
    JoinSplit(s[k + 1..], sep);
  }

  // ---------------------------------------------------------------------
  // parseInt (no radix argument) and String(n)

  predicate IsDecimalDigit(c: char) { '0' <= c <= '9' }

  predicate IsHexDigit(c: char) {
    '0' <= c <= '9' || 'a' <= c <= 'f' || 'A' <= c <= 'F'
  }

  function DigitValue(c: char): nat
    requires IsHexDigit(c)
  {
    if '0' <= c <= '9' then c as int - '0' as int
    else if 'a' <= c <= 'f' then c as int - 'a' as int + 10
    else c as int - 'A' as int + 10
  }

  /** The longest prefix of `s` made of digits of the given base. */
  function DigitPrefix(s: string, hex: bool): (d: string)
    ensures |d| <= |s| && d == s[..|d|]
    ensures forall i :: 0 <= i < |d| ==> (if hex then IsHexDigit(d[i]) else IsDecimalDigit(d[i]))
    ensures |d| < |s| ==> !(if hex then IsHexDigit(s[|d|]) else IsDecimalDigit(s[|d|]))
  {
    if s != [] && (if hex then IsHexDigit(s[0]) else IsDecimalDigit(s[0]))
    then [s[0]] + DigitPrefix(s[1..], hex)
    else ""
  }

  /** The value of a digit string, most significant digit first. */
  function DigitsValue(d: string, base: nat): nat
    requires forall i :: 0 <= i < |d| ==> IsHexDigit(d[i])
  {
    if d == [] then 0
    else DigitsValue(d[..|d| - 1], base) * base + DigitValue(d[|d| - 1])
  }

  /** `parseInt(s)`: optional leading white space and sign, then a `0x`
      prefix selects base 16; the longest digit prefix is read and the rest
      ignored; no digit at all gives NaN, represented as None. */
  function ParseInt(s: string): (r: Option<int>)
    ensures r.Some? ==> exists i :: 0 <= i < |s| && IsDecimalDigit(s[i])
    ensures |s| > 0 && !IsSpace(s[0]) && !IsDecimalDigit(s[0]) && s[0] != '-' && s[0] != '+'
      ==> r == None
  {
    var t := TrimStart(s);
    var negative := |t| > 0 && t[0] == '-';
    var unsigned := if |t| > 0 && (t[0] == '-' || t[0] == '+') then t[1..] else t;
    var hex := |unsigned| >= 2 && unsigned[0] == '0' && (unsigned[1] == 'x' || unsigned[1] == 'X');
    var body := if hex then unsigned[2..] else unsigned;
    var digits := DigitPrefix(body, hex);
    assert unsigned == s[|s| - |unsigned|..];
    assert digits != [] ==> unsigned[0] == s[|s| - |unsigned|] && IsDecimalDigit(unsigned[0]);
    if digits == [] then None
    else
      var v: int := DigitsValue(digits, if hex then 16 else 10);
      Some(if negative then -v else v)
  }

  function DigitChar(d: nat): char
    requires d < 10
  {
    ('0' as int + d) as char
  }

  /** `String(n)` for a non-negative integer: its decimal digits. */
  function NatToString(n: nat): (s: string)
    ensures |s| >= 1 && forall i :: 0 <= i < |s| ==> IsDecimalDigit(s[i])
  {
    if n < 10 then [DigitChar(n)] else NatToString(n / 10) + [DigitChar(n % 10)]
  }

  /** `String(n)` for an integer. */
  function IntToString(n: int): string {
    if n < 0 then "-" + NatToString(-n) else NatToString(n)
  }

  lemma {:induction false} NatToStringValue(n: nat)
    ensures DigitsValue(NatToString(n), 10) == n
  {
    if n >= 10 {
      var s := NatToString(n);
      assert s[..|s| - 1] == NatToString(n / 10);
      NatToStringValue(n / 10);
    }
  }

  lemma {:induction false} DigitPrefixAll(s: string)
    requires forall i :: 0 <= i < |s| ==> IsDecimalDigit(s[i])
    ensures DigitPrefix(s, false) == s
  {
    if s != [] {
      DigitPrefixAll(s[1..]);
    }
  }

  /** `parseInt(String(n))` is `n`: printing an id and parsing it back is the identity. */
  lemma ParseNatToString(n: nat)
    ensures ParseInt(NatToString(n)) == Some(n)
  {
    var s := NatToString(n);
    assert !IsSpace(s[0]);
    assert TrimStart(s) == s;
    DigitPrefixAll(s);
    NatToStringValue(n);
  }

  /** Distinct numbers print as distinct strings. */
  lemma NatToStringInjective(m: nat, n: nat)
    requires NatToString(m) == NatToString(n)
    ensures m == n
  {
    ParseNatToString(m);
    ParseNatToString(n);
  }
}
