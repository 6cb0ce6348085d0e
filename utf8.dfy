/** Byte strings and UTF-8 well-formedness.

    A Rust `&str` is a byte slice that is always well-formed UTF-8; `as_bytes`
    exposes those bytes and `core::str::from_utf8` checks an arbitrary byte
    slice for well-formedness. Well-formedness follows the grammar in section 4
    of RFC 3629 (no overlong forms, no surrogates, nothing above U+10FFFF). */
module Utf8 {

  import opened Wrappers

  newtype byte = b: int | 0 <= b < 0x100

  type Bytes = seq<byte>

  /** A continuation byte, `UTF8-tail` in RFC 3629: 0x80..0xBF. */
  predicate IsTail(b: byte) {
    0x80 <= b <= 0xBF
  }

  /** The admissible range of the second byte of a three- or four-byte
      sequence, which depends on the lead byte (RFC 3629, section 4). */
  predicate SecondOk(lead: byte, b: byte) {
    if lead == 0xE0 then 0xA0 <= b <= 0xBF
    else if lead == 0xED then 0x80 <= b <= 0x9F
    else if lead == 0xF0 then 0x90 <= b <= 0xBF
    else if lead == 0xF4 then 0x80 <= b <= 0x8F
    else IsTail(b)
  }

  /** The number of bytes of the well-formed character at the start of `s`,
      or 0 when `s` does not start with one. */
  function CharWidth(s: Bytes): (n: nat)
    ensures n <= |s| && n <= 4
  {
    if |s| == 0 then 0
    else if s[0] <= 0x7F then 1
    else if 0xC2 <= s[0] <= 0xDF then
      if 2 <= |s| && IsTail(s[1]) then 2 else 0
    else if 0xE0 <= s[0] <= 0xEF then
      if 3 <= |s| && SecondOk(s[0], s[1]) && IsTail(s[2]) then 3 else 0
    else if 0xF0 <= s[0] <= 0xF4 then
      if 4 <= |s| && SecondOk(s[0], s[1]) && IsTail(s[2]) && IsTail(s[3]) then 4 else 0
    else 0
  }

  /** The width of a well-formed leading character only depends on that character. */
  lemma CharWidthPrefix(a: Bytes, b: Bytes)
    requires CharWidth(a) > 0
    ensures CharWidth(a + b) == CharWidth(a)
  {
    assert forall i :: 0 <= i < |a| ==> (a + b)[i] == a[i];
  }

  /** `s` is a sequence of well-formed UTF-8 characters. */
  predicate ValidUtf8(s: Bytes)
    decreases |s|
  {
    |s| == 0 || (CharWidth(s) > 0 && ValidUtf8(s[CharWidth(s)..]))
  }

  /** The bytes of a Rust `&str`. */
  type Str = s: Bytes | ValidUtf8(s) witness []

  /** Every byte is below 0x80: plain ASCII. */
  predicate IsAscii(s: Bytes) {
    forall i :: 0 <= i < |s| ==> s[i] <= 0x7F
  }

  /** ASCII text is well-formed UTF-8, one byte per character. */
  lemma {:induction false} AsciiValid(s: Bytes)
    requires IsAscii(s)
    ensures ValidUtf8(s)
    decreases |s|
  {
    if |s| > 0 {
      assert CharWidth(s) == 1;
      AsciiValid(s[1..]);
    }
  }

  /** `core::str::from_utf8(bytes).ok()`: the same bytes viewed as text when
      they are well-formed, no value otherwise. */
  function FromUtf8(bytes: Bytes): Option<Str> {
    if ValidUtf8(bytes) then Some(bytes) else None
  }

  /** Well-formed text followed by well-formed text is well-formed text. */
  lemma {:induction false} ValidConcat(a: Bytes, b: Bytes)
    requires ValidUtf8(a) && ValidUtf8(b)
    ensures ValidUtf8(a + b)
    decreases |a|
  {
    if |a| == 0 {
      assert a + b == b;
    } else {
      var n := CharWidth(a);
      CharWidthPrefix(a, b);
      assert (a + b)[n..] == a[n..] + b;
      ValidConcat(a[n..], b);
    }
  }

  /** The text made of `frags` one after another. */
  function Concat(frags: seq<Str>): (r: Str)
    decreases |frags|
  {
    if frags == [] then []
    else
      var rest := Concat(frags[1..]);
      ValidConcat(frags[0], rest);
      frags[0] + rest
  }

  lemma {:induction false} ConcatAppend(frags: seq<Str>, s: Str)
    ensures Concat(frags + [s]) == Concat(frags) + s
    decreases |frags|
  {
    if frags == [] {
      assert [] + [s] == [s];
      assert Concat([s][1..]) == [];
    } else {
      assert (frags + [s])[1..] == frags[1..] + [s];
      ConcatAppend(frags[1..], s);
    }
  }
}
