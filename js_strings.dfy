/** The pieces of JavaScript string semantics the CSV graph view relies on:
    `toLowerCase` (on ASCII), `trim`, the decimal rendering of an index in a
    template literal, and the "array index" test that decides where a key
    goes in an object's property order. */
module JsStrings {
  import opened Seqs

  /** `toLowerCase` on one character; only ASCII capitals change. */
  function LowerChar(c: char): char
  {
    if 'A' <= c <= 'Z' then (c as int - 'A' as int + 'a' as int) as char else c
  }

  function Lower(s: string): (r: string)
    ensures |r| == |s|
  {
    seq(|s|, i requires 0 <= i < |s| => LowerChar(s[i]))
  }

  predicate HasNoCapitals(s: string)
  {
    forall i :: 0 <= i < |s| ==> !('A' <= s[i] <= 'Z')
  }

  /** Lower-casing leaves a string without ASCII capitals unchanged, and
      lower-casing twice is lower-casing once. */
  lemma LowerFixesLowercase(s: string)
    ensures HasNoCapitals(s) ==> Lower(s) == s
    ensures HasNoCapitals(Lower(s))
    ensures Lower(Lower(s)) == Lower(s)
  {
    assert HasNoCapitals(Lower(s));
    if HasNoCapitals(s) {
      assert forall i :: 0 <= i < |s| ==> Lower(s)[i] == s[i];
    }
    assert forall i :: 0 <= i < |s| ==> Lower(Lower(s))[i] == Lower(s)[i];
  }

  /** The characters `String.prototype.trim` removes: ECMAScript's
      WhiteSpace and LineTerminator code points. */
  predicate IsJsWhitespace(c: char)
  {
    var x := c as int;
    x == 0x09 || x == 0x0A || x == 0x0B || x == 0x0C || x == 0x0D || x == 0x20 ||
    x == 0xA0 || x == 0x1680 || (0x2000 <= x <= 0x200A) || x == 0x2028 || x == 0x2029 ||
    x == 0x202F || x == 0x205F || x == 0x3000 || x == 0xFEFF
  }

  function TrimStart(s: string): (r: string)
    ensures r == [] || !IsJsWhitespace(r[0])
    ensures r == [] <==> forall i :: 0 <= i < |s| ==> IsJsWhitespace(s[i])
  {
    if s == [] then []
    else if IsJsWhitespace(s[0]) then
      assert forall i :: 1 <= i < |s| ==> s[i] == s[1..][i - 1];
      TrimStart(s[1..])
    else s
  }

  function TrimEnd(s: string): (r: string)
    ensures r == [] <==> forall i :: 0 <= i < |s| ==> IsJsWhitespace(s[i])
    ensures r != [] ==> r[0] == s[0]
  {
    if s == [] then []
    else if IsJsWhitespace(s[|s| - 1]) then
      assert forall i :: 0 <= i < |s| - 1 ==> s[i] == s[..|s| - 1][i];
      TrimEnd(s[..|s| - 1])
    else s
  }

  /** `s.trim()`. The view only compares the result with `''`, so the
      contracts of TrimStart and TrimEnd state emptiness and the first
      character, and TrimEmptyIff states the comparison; what remains in
      the middle of the string is not specified further. */
  function Trim(s: string): string
  {
    TrimEnd(TrimStart(s))
  }

  /** A string trims to nothing exactly when it is all whitespace. */
  lemma TrimEmptyIff(s: string)
    ensures Trim(s) == "" <==> forall i :: 0 <= i < |s| ==> IsJsWhitespace(s[i])
  {
    var t := TrimStart(s);
    if t != [] {
      assert !IsJsWhitespace(t[0]);
    }
  }

  function DigitChar(d: nat): (c: char)
    requires d < 10
    ensures '0' <= c <= '9'
  {
    ('0' as int + d) as char
  }

  /** The decimal digits of `n`, as a template literal renders a number.
      The view builds `node-<index>` only for a record without a title, and
      the `filter` right after drops every such record, so these ids never
      reach the stored rows. */
  function NatToString(n: nat): (r: string)
    ensures |r| > 0
    ensures forall i :: 0 <= i < |r| ==> '0' <= r[i] <= '9'
    ensures r[0] == '0' ==> n == 0
  {
    if n < 10 then [DigitChar(n)]
    else NatToString(n / 10) + [DigitChar(n % 10)]
  }

  function DigitsValue(s: string): nat
    requires forall i :: 0 <= i < |s| ==> '0' <= s[i] <= '9'
  {
    if s == [] then 0
    else DigitsValue(s[..|s| - 1]) * 10 + (s[|s| - 1] as int - '0' as int)
  }

  /** NatToString and DigitsValue are inverse. */
  lemma {:induction false} NatToStringRoundTrip(n: nat)
    ensures DigitsValue(NatToString(n)) == n
  {
    if n >= 10 {
      var r := NatToString(n);
      NatToStringRoundTrip(n / 10);
      assert r[..|r| - 1] == NatToString(n / 10);
    }
  }

  /** An "array index" property key: the canonical decimal form of an
      integer below 2^32 - 1. JavaScript lists such keys of an ordinary
      object first, in ascending numeric order, and all other string keys
      after them in insertion order. */
  predicate IsArrayIndex(s: string)
  {
    |s| > 0 && (forall i :: 0 <= i < |s| ==> '0' <= s[i] <= '9') && (s[0] == '0' ==> |s| == 1)
    && DigitsValue(s) < 0xFFFF_FFFF
  }

  predicate NotArrayIndex(s: string)
  {
    !IsArrayIndex(s)
  }

  function ArrayIndexKey(s: string): real
  {
    if IsArrayIndex(s) then DigitsValue(s) as real else 0.0
  }

  /** `Object.keys`/`Object.values` order for keys inserted in the order
      `keys`. */
  function PropertyOrder(keys: seq<string>): (r: seq<string>)
    ensures multiset(r) == multiset(keys)
  {
    FilterPartition(keys, IsArrayIndex, NotArrayIndex);
    SortBy(Filter(keys, IsArrayIndex), ArrayIndexKey) + Filter(keys, NotArrayIndex)
  }

  /** Keys that are not array indices keep their insertion order. */
  lemma PropertyOrderKeepsInsertionOrder(keys: seq<string>)
    ensures PropertyOrder(keys)[|Filter(keys, IsArrayIndex)|..] == Filter(keys, NotArrayIndex)
    ensures SortedBy(PropertyOrder(keys)[..|Filter(keys, IsArrayIndex)|], ArrayIndexKey)
    ensures forall i :: 0 <= i < |PropertyOrder(keys)| ==>
      (IsArrayIndex(PropertyOrder(keys)[i]) <==> i < |Filter(keys, IsArrayIndex)|)
  {
    var a := Filter(keys, IsArrayIndex);
    var s := SortBy(a, ArrayIndexKey);
    var b := Filter(keys, NotArrayIndex);
    SortBySorted(a, ArrayIndexKey);
    assert PropertyOrder(keys)[..|a|] == s;
    assert PropertyOrder(keys)[|a|..] == b;
    FilterMembers(keys, IsArrayIndex);
    FilterMembers(keys, NotArrayIndex);
    forall i | 0 <= i < |s| ensures IsArrayIndex(s[i]) {
      assert s[i] in multiset(s);
      assert s[i] in a;
    }
  }
}
