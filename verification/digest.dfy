/**
 * The part of `_hash` in code/hashtable.py that follows the digest: the
 * first `2 * m` hexadecimal characters of the digest are read as a base-16
 * number, the home slot of the key in a table of `256^m` slots.  The MD5
 * digest itself is an input here.
 */
module Digest {
  import opened Wrappers
  import HashTable

  /** Python's ValueError from `int(s, 16)` on a string that is not a hexadecimal numeral. */
  datatype ParseError = ValueError

  predicate IsHexDigit(c: char) {
    '0' <= c <= '9' || 'a' <= c <= 'f' || 'A' <= c <= 'F'
  }

  predicate AllHex(s: string) {
    forall i :: 0 <= i < |s| ==> IsHexDigit(s[i])
  }

  function DigitValue(c: char): (d: nat)
    requires IsHexDigit(c)
    ensures d < 16
  {
    if '0' <= c <= '9' then c as nat - '0' as nat
    else if 'a' <= c <= 'f' then c as nat - 'a' as nat + 10
    else c as nat - 'A' as nat + 10
  }

  /** The lower-case digit of value `d`, as `hexdigest` writes it. */
  function HexDigit(d: nat): (c: char)
    requires d < 16
    ensures IsHexDigit(c) && DigitValue(c) == d
  {
    if d < 10 then ('0' as nat + d) as char else ('a' as nat + d - 10) as char
  }

  function Pow(b: nat, e: nat): nat {
    if e == 0 then 1 else b * Pow(b, e - 1)
  }

  /** The number a string of hexadecimal digits denotes, most significant first. */
  function HexValue(s: string): (n: nat)
    requires AllHex(s)
    ensures n < Pow(16, |s|)
  {
    if s == [] then 0
    else HexValue(s[..|s| - 1]) * 16 + DigitValue(s[|s| - 1])
  }

  /** `n` written with exactly `w` lower-case hexadecimal digits (the low `w` digits when it needs more). */
  function ToHex(n: nat, w: nat): (s: string)
    ensures |s| == w && AllHex(s)
  {
    if w == 0 then [] else ToHex(n / 16, w - 1) + [HexDigit(n % 16)]
  }

  /** Reading back `w` digits written for a number below `16^w` gives the number. */
  lemma {:induction false} HexRoundTrip(n: nat, w: nat)
    requires n < Pow(16, w)
    ensures HexValue(ToHex(n, w)) == n
  {
    if w > 0 {
      var s := ToHex(n, w);
      assert s[..|s| - 1] == ToHex(n / 16, w - 1);
      HexRoundTrip(n / 16, w - 1);
    }
  }

  /** `int(s, 16)` on the characters a digest can hold: an error on the empty string or a non-digit. */
  function ParseHex(s: string): (r: Result<nat, ParseError>)
    ensures r.Ok? <==> s != [] && AllHex(s)
    ensures r.Ok? ==> r.value < Pow(16, |s|)
  {
    if s != [] && AllHex(s) then Ok(HexValue(s)) else Err(ValueError)
  }

  lemma {:induction false} PowSquare(m: nat)
    ensures Pow(16, 2 * m) == Pow(256, m)
  {
    if m > 0 {
      PowSquare(m - 1);
      assert Pow(16, 2 * m) == 16 * (16 * Pow(16, 2 * (m - 1)));
    }
  }

  /**
   * `_hash(k, m)` after the digest: the value of the first `2 * m` characters
   * (fewer when the digest is shorter, as slicing allows).
   */
  function HashIndex(digest: string, m: nat): (r: Result<nat, ParseError>)
    ensures r.Ok? <==> m > 0 && digest != [] && AllHex(digest[..if 2 * m <= |digest| then 2 * m else |digest|])
    ensures r.Ok? ==> r.value < Pow(256, m)
  {
    var prefix := digest[..if 2 * m <= |digest| then 2 * m else |digest|];
    var r := ParseHex(prefix);
    if r.Ok? then
      PowSquare(m);
      PowMonotone(|prefix|, 2 * m);
      r
    else r
  }

  lemma {:induction false} PowMonotone(e1: nat, e2: nat)
    requires e1 <= e2
    ensures Pow(16, e1) <= Pow(16, e2)
    decreases e2
  {
    if e1 < e2 {
      PowMonotone(e1, e2 - 1);
      assert Pow(16, e2) == 16 * Pow(16, e2 - 1);
    }
  }

  /**
   * Every slot of a table of `256^m` slots is the home of some digest: the
   * digest that starts with the slot's `2 * m`-digit numeral.  With the bound
   * of `HashIndex`, the homes are exactly the slots of the table.
   */
  lemma EverySlotIsAHome(idx: nat, m: nat, rest: string)
    requires m > 0 && idx < Pow(256, m) && AllHex(rest)
    ensures HashIndex(ToHex(idx, 2 * m) + rest, m) == Ok(idx)
  {
    var d := ToHex(idx, 2 * m) + rest;
    assert d[..2 * m] == ToHex(idx, 2 * m);
    PowSquare(m);
    HexRoundTrip(idx, 2 * m);
  }

  /** With two digest bytes, as the source uses, every home lies inside the 65536-slot table. */
  lemma HomeFitsReferenceTable(digest: string)
    requires |digest| == 32 && AllHex(digest)
    ensures HashIndex(digest, 2).Ok?
    ensures HashIndex(digest, 2).value < HashTable.ReferenceCapacity
  {
    assert Pow(256, 2) == HashTable.ReferenceCapacity;
  }
}
