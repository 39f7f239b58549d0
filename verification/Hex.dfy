/** Lower-case base-16 printing (RFC 4648, section 8). */
module Hex {
  import opened Fnv
  import opened Modular
  import opened Text

  function HexDigit(n: int): char
    requires 0 <= n < 16
  {
    if n < 10 then (48 + n) as char else (97 + n - 10) as char
  }

  function HexByte(b: byte): string {
    [HexDigit(b / 16), HexDigit(b % 16)]
  }

  function HexOf(bytes: seq<byte>): (s: string)
    ensures |s| == 2 * |bytes|
  {
    if bytes == [] then "" else HexOf(bytes[..|bytes| - 1]) + HexByte(bytes[|bytes| - 1])
  }

  predicate IsLowerHex(c: char) {
    '0' <= c <= '9' || 'a' <= c <= 'f'
  }

  function DigitValue(c: char): int
    requires IsHexDigit(c)
  {
    if c <= '9' then c as int - 48 else if c <= 'F' then c as int - 55 else c as int - 87
  }

  /** The number written by big-endian base-16 digits. */
  function HexValue(s: string): nat
    requires forall i :: 0 <= i < |s| ==> IsHexDigit(s[i])
  {
    if s == "" then 0 else 16 * HexValue(s[..|s| - 1]) + DigitValue(s[|s| - 1])
  }

  /** The number written by big-endian bytes. */
  function BytesValue(bytes: seq<byte>): nat {
    if bytes == [] then 0 else 256 * BytesValue(bytes[..|bytes| - 1]) + bytes[|bytes| - 1]
  }

  lemma {:induction false} HexOfIsLower(bytes: seq<byte>)
    ensures forall i :: 0 <= i < |HexOf(bytes)| ==> IsLowerHex(HexOf(bytes)[i]) && IsHexDigit(HexOf(bytes)[i])
  {
    if bytes != [] { HexOfIsLower(bytes[..|bytes| - 1]); }
  }

  /** Digits 2i and 2i + 1 print the high and the low half of byte i. */
  lemma {:induction false} HexOfAt(bytes: seq<byte>, i: nat)
    requires i < |bytes|
    ensures HexOf(bytes)[2 * i] == "0123456789abcdef"[bytes[i] / 16]
    ensures HexOf(bytes)[2 * i + 1] == "0123456789abcdef"[bytes[i] % 16]
  {
    var n := |bytes| - 1;
    if i < n {
      HexOfAt(bytes[..n], i);
    } else {
      HexDigitIs(bytes[n] / 16);
      HexDigitIs(bytes[n] % 16);
    }
  }

  lemma HexDigitIs(n: int)
    requires 0 <= n < 16
    ensures HexDigit(n) == "0123456789abcdef"[n]
  {
  }

  /** Reading the digits back gives the number the bytes stand for. */
  lemma {:induction false} HexValueOfHex(bytes: seq<byte>)
    ensures forall i :: 0 <= i < |HexOf(bytes)| ==> IsHexDigit(HexOf(bytes)[i])
    ensures HexValue(HexOf(bytes)) == BytesValue(bytes)
  {
    HexOfIsLower(bytes);
    if bytes != [] {
      var n := |bytes| - 1;
      var s, low, b := HexOf(bytes), HexOf(bytes[..n]), bytes[n];
      HexValueOfHex(bytes[..n]);
      assert s[..|s| - 1] == low + [HexDigit(b / 16)];
      assert s[..|s| - 1][..|s| - 2] == low;
      assert b == 16 * (b / 16) + b % 16;
    }
  }

  /** Different byte strings print differently. */
  lemma HexInjective(a: seq<byte>, b: seq<byte>)
    requires HexOf(a) == HexOf(b)
    ensures a == b
  {
    assert |a| == |b|;
    forall i | 0 <= i < |a| ensures a[i] == b[i] {
      HexOfAt(a, i);
      HexOfAt(b, i);
      DigitsDiffer(a[i] / 16, b[i] / 16);
      DigitsDiffer(a[i] % 16, b[i] % 16);
    }
  }

  lemma DigitsDiffer(m: int, n: int)
    requires 0 <= m < 16 && 0 <= n < 16 && "0123456789abcdef"[m] == "0123456789abcdef"[n]
    ensures m == n
  {
  }

  /** Printed hex is unchanged by ASCII case folding. */
  lemma LowerOfHex(bytes: seq<byte>)
    ensures Lower(HexOf(bytes)) == HexOf(bytes)
  {
    HexOfIsLower(bytes);
  }

  // ---------- 64-bit words

  /** The eight bytes of a word, most significant first. */
  function WordBytes(h: word): (bytes: seq<byte>)
    ensures |bytes| == 8
  {
    [(h / 0x100_0000_0000_0000) % 256, (h / 0x1_0000_0000_0000) % 256, (h / 0x100_0000_0000) % 256,
     (h / 0x1_0000_0000) % 256, (h / 0x100_0000) % 256, (h / 0x1_0000) % 256, (h / 0x100) % 256, h % 256]
  }

  lemma WordBytesValue(h: word)
    ensures BytesValue(WordBytes(h)) == h
  {
    var b := WordBytes(h);
    assert b[..0] == [] && b[..8] == b;
    ByteStep(h, b, 0, 0x100_0000_0000_0000);
    ByteStep(h, b, 1, 0x1_0000_0000_0000);
    ByteStep(h, b, 2, 0x100_0000_0000);
    ByteStep(h, b, 3, 0x1_0000_0000);
    ByteStep(h, b, 4, 0x100_0000);
    ByteStep(h, b, 5, 0x1_0000);
    ByteStep(h, b, 6, 0x100);
    ByteStep(h, b, 7, 1);
  }

  lemma ByteStep(h: nat, b: seq<byte>, i: nat, c: nat)
    requires i < |b| && c > 0 && b[i] == (h / c) % 256 && BytesValue(b[..i]) == h / (c * 256)
    ensures BytesValue(b[..i + 1]) == h / c
  {
    assert b[..i + 1][..i] == b[..i];
    Shift(h, c);
  }

  /** Dropping one more byte of a word. */
  lemma Shift(h: nat, c: nat)
    requires c > 0
    ensures h / c == 256 * (h / (c * 256)) + (h / c) % 256
  {
    var q, r := h / c, h % c;
    var d, m := q / 256, q % 256;
    SplitTwice(h, c, q, r, d, m);
    QuotientUnique(h, d, c * m + r, c * 256);
  }

  lemma SplitTwice(h: nat, c: nat, q: nat, r: nat, d: nat, m: nat)
    requires h == c * q + r && r < c && q == 256 * d + m && m < 256
    ensures h == (c * 256) * d + (c * m + r) && 0 <= c * m + r < c * 256
  {
    assert c * q == (c * 256) * d + c * m;
    NonNegProduct(c, 255 - m);
    assert c * (255 - m) == c * 255 - c * m;
  }

  lemma NonNegProduct(x: nat, y: nat)
    ensures 0 <= x * y
  {
  }
}
