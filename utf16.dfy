/** Decoding of the UTF-16LE strings the registry property call returns.
    The helpers utf16BytesToString and utf16BytesToSplitString are not part
    of this model's source; the behaviour below is an ASSUMPTION matching
    the registry's documented formats: bytes pair up little-endian into
    code units, code units decode as Go's utf16.Decode does (surrogate pairs
    combine, a lone surrogate becomes U+FFFD), a REG_SZ value ends at its
    first NUL, and a REG_MULTI_SZ value is a run of NUL-terminated strings
    ended by an empty one. */
module Utf16 {
  import opened Win32

  /** Little-endian byte pairs as code units; an odd trailing byte is
      ignored. */
  function Units(b: seq<uint8>): (u: seq<uint16>)
    ensures |u| == |b| / 2
    decreases |b|
  {
    if |b| < 2 then [] else [(b[0] as int + 0x100 * b[1] as int) as uint16] + Units(b[2..])
  }

  /** The bytes of code units, low byte first. */
  function UnitBytes(u: seq<uint16>): (b: seq<uint8>)
    ensures |b| == 2 * |u|
  {
    if u == [] then [] else [(u[0] as int % 0x100) as uint8, (u[0] as int / 0x100) as uint8] + UnitBytes(u[1..])
  }

  lemma {:induction false} UnitsOfUnitBytes(u: seq<uint16>)
    ensures Units(UnitBytes(u)) == u
  {
    if u != [] {
      UnitsOfUnitBytes(u[1..]);
      assert UnitBytes(u)[2..] == UnitBytes(u[1..]);
    }
  }

  function IsSurrogate(x: uint16): bool { 0xD800 <= x < 0xE000 }

  /** Go's utf16.Decode. */
  function DecodeUnits(u: seq<uint16>): string
    decreases |u|
  {
    if u == [] then []
    else if !IsSurrogate(u[0]) then [u[0] as int as char] + DecodeUnits(u[1..])
    else if u[0] < 0xDC00 && |u| > 1 && 0xDC00 <= u[1] < 0xE000 then
      [(0x1_0000 + (u[0] as int - 0xD800) * 0x400 + (u[1] as int - 0xDC00)) as char] + DecodeUnits(u[2..])
    else ['\U{FFFD}'] + DecodeUnits(u[1..])
  }

  /** Go's utf16.Encode of one character. */
  function EncodeChar(c: char): (u: seq<uint16>)
    ensures 1 <= |u| <= 2
  {
    if c as int < 0x1_0000 then [c as int as uint16]
    else [(0xD800 + (c as int - 0x1_0000) / 0x400) as uint16, (0xDC00 + (c as int - 0x1_0000) % 0x400) as uint16]
  }

  function EncodeUnits(s: string): seq<uint16> {
    if s == [] then [] else EncodeChar(s[0]) + EncodeUnits(s[1..])
  }

  lemma DecodeEncodeChar(c: char, rest: seq<uint16>)
    ensures DecodeUnits(EncodeChar(c) + rest) == [c] + DecodeUnits(rest)
  {
    var u := EncodeChar(c) + rest;
    if c as int < 0x1_0000 {
      assert u[1..] == rest;
    } else {
      var x := c as int - 0x1_0000;
      assert x == (x / 0x400) * 0x400 + x % 0x400;
      assert u[2..] == rest;
    }
  }

  /** Decoding undoes encoding. */
  lemma {:induction false} DecodeEncode(s: string)
    ensures DecodeUnits(EncodeUnits(s)) == s
  {
    if s != [] {
      DecodeEncodeChar(s[0], EncodeUnits(s[1..]));
      DecodeEncode(s[1..]);
    }
  }

  /** A NUL-free string encodes to NUL-free code units. */
  lemma {:induction false} EncodeHasNoNul(s: string)
    requires '\0' !in s
    ensures 0 !in EncodeUnits(s)
    ensures s != [] ==> EncodeUnits(s) != []
  {
    if s != [] {
      assert s[0] != '\0';
      EncodeHasNoNul(s[1..]);
    }
  }

  /** The code units before the first NUL (all of them when there is none). */
  function BeforeNul(u: seq<uint16>): (r: seq<uint16>)
    ensures r <= u && 0 !in r
    ensures |r| < |u| ==> u[|r|] == 0
  {
    if u == [] || u[0] == 0 then [] else [u[0]] + BeforeNul(u[1..])
  }

  lemma {:induction false} BeforeNulOfTerminated(a: seq<uint16>, rest: seq<uint16>)
    requires 0 !in a
    ensures BeforeNul(a + [0] + rest) == a
  {
    if a != [] {
      assert (a + [0] + rest)[1..] == a[1..] + [0] + rest;
      BeforeNulOfTerminated(a[1..], rest);
    }
  }

  /** utf16BytesToString (assumed): the characters before the first NUL. */
  function BytesToString(b: seq<uint8>): string {
    DecodeUnits(BeforeNul(Units(b)))
  }

  /** The NUL-terminated segments of a REG_MULTI_SZ value, up to the first
      empty one. */
  function SplitUnits(u: seq<uint16>): seq<string>
    decreases |u|
  {
    var seg := BeforeNul(u);
    if seg == [] then []
    else [DecodeUnits(seg)] + (if |seg| < |u| then SplitUnits(u[|seg| + 1..]) else [])
  }

  /** utf16BytesToSplitString (assumed). */
  function BytesToSplitString(b: seq<uint8>): seq<string> {
    SplitUnits(Units(b))
  }

  /** A REG_SZ value: the string followed by its NUL. */
  function EncodeString(s: string): seq<uint8> {
    UnitBytes(EncodeUnits(s) + [0])
  }

  /** The NUL-terminated strings of a REG_MULTI_SZ value, without the final
      empty string. */
  function JoinNul(xs: seq<string>): seq<uint16> {
    if xs == [] then [] else EncodeUnits(xs[0]) + [0] + JoinNul(xs[1..])
  }

  /** A REG_MULTI_SZ value: every string NUL-terminated, then one more NUL. */
  function EncodeMultiString(xs: seq<string>): seq<uint8> {
    UnitBytes(JoinNul(xs) + [0])
  }

  /** A NUL-free string survives encoding as REG_SZ and decoding. */
  lemma StringRoundTrip(s: string)
    requires '\0' !in s
    ensures BytesToString(EncodeString(s)) == s
  {
    UnitsOfUnitBytes(EncodeUnits(s) + [0]);
    EncodeHasNoNul(s);
    BeforeNulOfTerminated(EncodeUnits(s), []);
    assert EncodeUnits(s) + [0] + [] == EncodeUnits(s) + [0];
    DecodeEncode(s);
  }

  lemma {:induction false} SplitJoinNul(xs: seq<string>)
    requires forall x :: x in xs ==> x != [] && '\0' !in x
    ensures SplitUnits(JoinNul(xs) + [0]) == xs
  {
    if xs == [] {
      assert BeforeNul([0]) == [];
    } else {
      var x := xs[0];
      var rest := JoinNul(xs[1..]) + [0];
      var u := JoinNul(xs) + [0];
      assert u == EncodeUnits(x) + [0] + rest;
      EncodeHasNoNul(x);
      BeforeNulOfTerminated(EncodeUnits(x), rest);
      assert u[|EncodeUnits(x)| + 1..] == rest;
      DecodeEncode(x);
      assert forall y :: y in xs[1..] ==> y in xs;
      SplitJoinNul(xs[1..]);
    }
  }

  /** A list of non-empty NUL-free strings survives encoding as
      REG_MULTI_SZ and decoding, in order, with no trailing empty string. */
  lemma MultiStringRoundTrip(xs: seq<string>)
    requires forall x :: x in xs ==> x != [] && '\0' !in x
    ensures BytesToSplitString(EncodeMultiString(xs)) == xs
  {
    UnitsOfUnitBytes(JoinNul(xs) + [0]);
    SplitJoinNul(xs);
  }

  /** The bytes of "alpha", NUL, "beta", NUL, NUL decode to exactly
      ["alpha", "beta"]. */
  lemma MultiStringExample()
    ensures BytesToSplitString(EncodeMultiString(["alpha", "beta"])) == ["alpha", "beta"]
  {
    var xs := ["alpha", "beta"];
    assert forall x :: x in xs ==> x != [] && '\0' !in x by {
      assert '\0' !in "alpha" && '\0' !in "beta";
    }
    MultiStringRoundTrip(xs);
  }
}
