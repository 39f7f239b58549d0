/** Rust string operations of the zkVM guest: UTF-8 bytes, splitting, trimming, case folding. */
module Text {
  import opened Sequences
  import opened Fnv

  // ---------- UTF-8

  function EncodeChar(c: char): seq<byte> {
    var n := c as int;
    if n < 0x80 then [n]
    else if n < 0x800 then [0xC0 + n / 0x40, 0x80 + n % 0x40]
    else if n < 0x1_0000 then [0xE0 + n / 0x1000, 0x80 + (n / 0x40) % 0x40, 0x80 + n % 0x40]
    else [0xF0 + n / 0x4_0000, 0x80 + (n / 0x1000) % 0x40, 0x80 + (n / 0x40) % 0x40, 0x80 + n % 0x40]
  }

  function Utf8(s: string): seq<byte> {
    if s == [] then [] else EncodeChar(s[0]) + Utf8(s[1..])
  }

  /** The number with these base-64 digits, the highest first. */
  function Join64(digits: seq<int>): int {
    if digits == [] then 0 else 64 * Join64(digits[..|digits| - 1]) + digits[|digits| - 1]
  }

  lemma Join64Is(a: int, b: int, c: int, d: int)
    ensures Join64([a, b]) == 64 * a + b
    ensures Join64([a, b, c]) == 64 * (64 * a + b) + c
    ensures Join64([a, b, c, d]) == 64 * (64 * (64 * a + b) + c) + d
  {
    assert [a, b, c, d][..3] == [a, b, c] && [a, b, c][..2] == [a, b] && [a, b][..1] == [a] && [a][..0] == [];
    assert Join64([a]) == a;
    assert Join64([a, b]) == 64 * a + b;
  }

  /** One to four bytes by the size of the code point; the first gives the length and the top bits, and each
      further byte six bits (RFC 3629, section 3). */
  lemma EncodeCharReads(c: char)
    ensures var e, n := EncodeChar(c), c as int;
      && |e| == (if n < 128 then 1 else if n < 2048 then 2 else if n < 65536 then 3 else 4)
      && (forall i :: 1 <= i < |e| ==> 128 <= e[i] < 192)
      && (|e| == 1 ==> e[0] == n)
      && (|e| == 2 ==> 192 <= e[0] < 224 && n == Join64([e[0] as int - 192, e[1] as int - 128]))
      && (|e| == 3 ==> 224 <= e[0] < 240
                       && n == Join64([e[0] as int - 224, e[1] as int - 128, e[2] as int - 128]))
      && (|e| == 4 ==> 240 <= e[0] < 248
                       && n == Join64([e[0] as int - 240, e[1] as int - 128, e[2] as int - 128, e[3] as int - 128]))
  {
    var n, e := c as int, EncodeChar(c);
    if |e| == 2 { Join64Is(e[0] as int - 192, e[1] as int - 128, 0, 0); }
    if |e| == 3 { Join64Is(e[0] as int - 224, e[1] as int - 128, e[2] as int - 128, 0); }
    if |e| == 4 { Join64Is(e[0] as int - 240, e[1] as int - 128, e[2] as int - 128, e[3] as int - 128); }
    assert n == 64 * (n / 64) + n % 64;
    assert n / 64 == 64 * (n / 64 / 64) + n / 64 % 64 && n / 64 / 64 == n / 4096;
    assert n / 4096 == 64 * (n / 4096 / 64) + n / 4096 % 64 && n / 4096 / 64 == n / 262144;
  }

  /** Characters with the same bytes are the same, and no encoding starts another. */
  lemma EncodeCharPrefix(c: char, d: char, s: seq<byte>, t: seq<byte>)
    requires EncodeChar(c) + s == EncodeChar(d) + t
    ensures c == d && s == t
  {
    EncodeCharReads(c);
    EncodeCharReads(d);
    var a, b := EncodeChar(c), EncodeChar(d);
    assert (a + s)[0] == a[0] && (b + t)[0] == b[0];
    assert |a| == |b|;
    assert (a + s)[..|a|] == a && (b + t)[..|b|] == b;
    assert (a + s)[|a|..] == s && (b + t)[|b|..] == t;
  }

  /** Different texts have different bytes. */
  lemma {:induction false} Utf8Injective(s: string, t: string)
    requires Utf8(s) == Utf8(t)
    ensures s == t
  {
    if s != [] && t != [] {
      EncodeCharPrefix(s[0], t[0], Utf8(s[1..]), Utf8(t[1..]));
      Utf8Injective(s[1..], t[1..]);
    }
  }

  predicate IsAscii(s: string) {
    forall i :: 0 <= i < |s| ==> s[i] as int < 0x80
  }

  /** ASCII text is its own encoding. */
  lemma {:induction false} Utf8OfAscii(s: string)
    requires IsAscii(s)
    ensures |Utf8(s)| == |s| && forall i :: 0 <= i < |s| ==> Utf8(s)[i] == s[i] as int
  {
    if s != [] {
      assert forall i :: 0 <= i < |s[1..]| ==> s[1..][i] == s[i + 1];
      Utf8OfAscii(s[1..]);
      var t := Utf8(s);
      forall i | 0 <= i < |s| ensures t[i] == s[i] as int {
        if i > 0 { assert t[i] == Utf8(s[1..])[i - 1]; }
      }
    }
  }

  /** Text whose encoding has only bytes below 0x80 is ASCII. */
  lemma {:induction false} AsciiOfUtf8(s: string)
    requires forall b :: b in Utf8(s) ==> b < 0x80
    ensures IsAscii(s)
  {
    if s != [] {
      var e := EncodeChar(s[0]);
      assert e[0] in Utf8(s);
      assert forall b :: b in Utf8(s[1..]) ==> b in Utf8(s);
      AsciiOfUtf8(s[1..]);
      forall i | 0 <= i < |s| ensures s[i] as int < 0x80 {
        if i > 0 { assert s[i] == s[1..][i - 1]; }
      }
    }
  }

  // ---------- case folding

  function LowerChar(c: char): char {
    if 'A' <= c <= 'Z' then (c as int + 32) as char else c
  }

  /** The capital letters become small letters, and nothing else changes. */
  lemma LowerCharIs(c: char, i: nat)
    requires i < 26
    ensures LowerChar("ABCDEFGHIJKLMNOPQRSTUVWXYZ"[i]) == "abcdefghijklmnopqrstuvwxyz"[i]
    ensures c !in "ABCDEFGHIJKLMNOPQRSTUVWXYZ" ==> LowerChar(c) == c
  {
    var upper := "ABCDEFGHIJKLMNOPQRSTUVWXYZ";
    assert forall k :: 0 <= k < 26 ==> upper[k] as int == 65 + k;
    if 'A' <= c <= 'Z' { assert upper[c as int - 65] == c; }
  }

  function Lower(s: string): (t: string)
    ensures |t| == |s| && forall i :: 0 <= i < |s| ==> t[i] == LowerChar(s[i])
  {
    seq(|s|, i requires 0 <= i < |s| => LowerChar(s[i]))
  }

  /** Equal up to ASCII letter case. */
  predicate EqIgnoreCase(s: string, t: string) {
    |s| == |t| && forall i :: 0 <= i < |s| ==> LowerChar(s[i]) == LowerChar(t[i])
  }

  predicate IsHexDigit(c: char) {
    '0' <= c <= '9' || 'a' <= c <= 'f' || 'A' <= c <= 'F'
  }

  lemma IsHexDigitIff(c: char)
    ensures IsHexDigit(c) <==> c in "0123456789abcdefABCDEF"
  {
    var digits := "0123456789abcdefABCDEF";
    assert forall k :: 0 <= k < 10 ==> digits[k] as int == 48 + k;
    assert forall k :: 10 <= k < 16 ==> digits[k] as int == 87 + k;
    assert forall k :: 16 <= k < 22 ==> digits[k] as int == 49 + k;
    if '0' <= c <= '9' { assert digits[c as int - 48] == c; }
    if 'a' <= c <= 'f' { assert digits[c as int - 87] == c; }
    if 'A' <= c <= 'F' { assert digits[c as int - 49] == c; }
  }

  // ---------- splitting and joining

  /** The pieces between separators; always at least one piece. */
  function Split(s: string, sep: char): (pieces: seq<string>)
    ensures pieces != []
  {
    if s == [] then [""]
    else
      var rest := Split(s[1..], sep);
      if s[0] == sep then [""] + rest else [[s[0]] + rest[0]] + rest[1..]
  }

  function Join(pieces: seq<string>, sep: char): string {
    if pieces == [] then ""
    else if |pieces| == 1 then pieces[0]
    else pieces[0] + [sep] + Join(pieces[1..], sep)
  }

  lemma {:induction false} SplitPlain(p: string, sep: char)
    requires sep !in p
    ensures Split(p, sep) == [p]
  {
    if p != [] {
      SplitPlain(p[1..], sep);
      assert [p[0]] + p[1..] == p;
    }
  }

  lemma {:induction false} SplitFirst(p: string, rest: string, sep: char)
    requires sep !in p
    ensures Split(p + [sep] + rest, sep) == [p] + Split(rest, sep)
  {
    var s := p + [sep] + rest;
    if p == [] {
      assert s[1..] == rest;
    } else {
      assert s[1..] == p[1..] + [sep] + rest;
      SplitFirst(p[1..], rest, sep);
      assert [s[0]] + p[1..] == p;
    }
  }

  /** Splitting undoes joining separator-free pieces. */
  lemma {:induction false} SplitOfJoin(pieces: seq<string>, sep: char)
    requires pieces != [] && forall i :: 0 <= i < |pieces| ==> sep !in pieces[i]
    ensures Split(Join(pieces, sep), sep) == pieces
  {
    if |pieces| == 1 {
      SplitPlain(pieces[0], sep);
    } else {
      assert forall i :: 0 <= i < |pieces[1..]| ==> pieces[1..][i] == pieces[i + 1];
      SplitOfJoin(pieces[1..], sep);
      SplitFirst(pieces[0], Join(pieces[1..], sep), sep);
    }
  }

  /** Joining undoes splitting, and no piece contains the separator. */
  lemma {:induction false} JoinOfSplit(s: string, sep: char)
    ensures Join(Split(s, sep), sep) == s
    ensures forall i :: 0 <= i < |Split(s, sep)| ==> sep !in Split(s, sep)[i]
  {
    if s != [] {
      JoinOfSplit(s[1..], sep);
      var pieces, rest := Split(s, sep), Split(s[1..], sep);
      if s[0] == sep {
        assert pieces[1..] == rest;
      } else {
        assert pieces[1..] == rest[1..];
      }
      forall i | 0 <= i < |pieces| ensures sep !in pieces[i] {
        if s[0] == sep { if i > 0 { assert pieces[i] == rest[i - 1]; } }
        else if i > 0 { assert pieces[i] == rest[i]; }
        else { assert sep !in rest[0]; }
      }
    }
  }

  // ---------- trimming

  /** The characters of the Unicode property White_Space. */
  predicate IsWhitespace(c: char) {
    var n := c as int;
    || 0x09 <= n <= 0x0D || n == 0x20 || n == 0x85 || n == 0xA0 || n == 0x1680
    || 0x2000 <= n <= 0x200A || n == 0x2028 || n == 0x2029 || n == 0x202F || n == 0x205F || n == 0x3000
  }

  /** The 25 code points of the property. */
  lemma IsWhitespaceIff(c: char)
    ensures IsWhitespace(c) <==> c as int in {
      9, 10, 11, 12, 13, 32, 133, 160, 5760, 8192, 8193, 8194, 8195, 8196, 8197, 8198, 8199, 8200, 8201, 8202,
      8232, 8233, 8239, 8287, 12288}
  {
  }

  predicate Blank(s: string) {
    forall i :: 0 <= i < |s| ==> IsWhitespace(s[i])
  }

  function TrimStart(s: string): string {
    if s != [] && IsWhitespace(s[0]) then TrimStart(s[1..]) else s
  }

  function TrimEnd(s: string): string {
    if s != [] && IsWhitespace(s[|s| - 1]) then TrimEnd(s[..|s| - 1]) else s
  }

  function Trim(s: string): string {
    TrimEnd(TrimStart(s))
  }

  lemma {:induction false} TrimStartPad(pad: string, s: string)
    requires Blank(pad)
    ensures TrimStart(pad + s) == TrimStart(s)
  {
    if pad == [] {
      assert pad + s == s;
    } else {
      assert (pad + s)[1..] == pad[1..] + s;
      TrimStartPad(pad[1..], s);
    }
  }

  lemma {:induction false} TrimEndPad(s: string, pad: string)
    requires Blank(pad)
    ensures TrimEnd(s + pad) == TrimEnd(s)
  {
    if pad == [] {
      assert s + pad == s;
    } else {
      assert (s + pad)[..|s + pad| - 1] == s + pad[..|pad| - 1];
      TrimEndPad(s, pad[..|pad| - 1]);
    }
  }

  /** Text is a blank tail after its trimmed front, and a blank head before its trimmed rest. */
  lemma {:induction false} TrimEndSplits(s: string)
    ensures TrimEnd(s) <= s && Blank(s[|TrimEnd(s)|..])
    ensures TrimEnd(s) != [] ==> !IsWhitespace(TrimEnd(s)[|TrimEnd(s)| - 1])
  {
    if s != [] && IsWhitespace(s[|s| - 1]) {
      TrimEndSplits(s[..|s| - 1]);
      assert s == s[..|s| - 1] + [s[|s| - 1]];
    }
  }

  lemma {:induction false} TrimStartSplits(s: string)
    ensures |TrimStart(s)| <= |s| && TrimStart(s) == s[|s| - |TrimStart(s)|..] && Blank(s[..|s| - |TrimStart(s)|])
    ensures TrimStart(s) != [] ==> !IsWhitespace(TrimStart(s)[0])
  {
    if s != [] && IsWhitespace(s[0]) {
      TrimStartSplits(s[1..]);
    }
  }

  lemma BlankIsTrimmedAway(s: string)
    requires Blank(s)
    ensures TrimStart(s) == [] && TrimEnd(s) == []
  {
    TrimStartPad(s, []);
    TrimEndPad([], s);
    assert s + [] == s && [] + s == s;
  }

  /** Trimming takes away exactly the blank ends. */
  lemma TrimIs(s: string, a: string, t: string, b: string)
    requires s == a + t + b && Blank(a) && Blank(b)
    requires t != "" ==> !IsWhitespace(t[0]) && !IsWhitespace(t[|t| - 1])
    ensures Trim(s) == t
  {
    assert s == a + (t + b);
    TrimStartPad(a, t + b);
    if t == "" {
      assert t + b == b;
      BlankIsTrimmedAway(b);
    } else {
      assert TrimStart(t + b) == t + b;
      TrimEndPad(t, b);
      assert TrimEnd(t) == t;
    }
  }

  /** Every text is its trimmed text between blank ends. */
  lemma TrimParts(s: string) returns (a: string, t: string, b: string)
    ensures s == a + t + b && Blank(a) && Blank(b) && Trim(s) == t
    ensures t != "" ==> !IsWhitespace(t[0]) && !IsWhitespace(t[|t| - 1])
  {
    TrimStartSplits(s);
    var u := TrimStart(s);
    TrimEndSplits(u);
    a, t, b := s[..|s| - |u|], TrimEnd(u), u[|TrimEnd(u)|..];
    assert u == t + b && s == a + u;
  }

  /** Trimming the end first changes nothing. */
  lemma TrimAbsorbsEnd(s: string)
    ensures Trim(TrimEnd(s)) == Trim(s)
  {
    var a, t, b := TrimParts(s);
    TrimEndPad(a + t, b);
    if t == "" {
      assert a + t == a;
      BlankIsTrimmedAway(a);
    } else {
      assert TrimEnd(a + t) == a + t;
      assert a + t + "" == a + t;
      TrimIs(a + t, a, t, "");
    }
  }

  // ---------- prefixes

  function StripPrefix(s: string, pre: string): Option<string> {
    if pre <= s then Some(s[|pre|..]) else None
  }
}
