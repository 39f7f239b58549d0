/** FNV-1a over 64-bit words (draft-eastlake-fnv, section 2). */
module Fnv {
  import opened Modular

  type byte = x: int | 0 <= x < 256
  type word = x: int | 0 <= x < 0x1_0000_0000_0000_0000

  const MODULUS := 0x1_0000_0000_0000_0000
  const OFFSET_BASIS: word := 0xcbf2_9ce4_8422_2325
  const PRIME: word := 0x100_0000_01b3

  /** The inverse of PRIME modulo 2^64. */
  const PRIME_INVERSE: word := 0xce96_5057_aff6_957b

  // ---------- exclusive or

  function Pow2(k: nat): nat {
    if k == 0 then 1 else 2 * Pow2(k - 1)
  }

  /** The exclusive or of the low k bits. */
  function XorBits(a: nat, b: nat, k: nat): (r: nat)
    ensures r < Pow2(k)
  {
    if k == 0 then 0 else 2 * XorBits(a / 2, b / 2, k - 1) + (a + b) % 2
  }

  /** Bit i of a number. */
  predicate Bit(a: nat, i: nat) {
    if i == 0 then a % 2 == 1 else Bit(a / 2, i - 1)
  }

  /** Each bit of the exclusive or is set exactly when the two bits differ. */
  lemma {:induction false} XorBitwise(a: nat, b: nat, k: nat, i: nat)
    requires i < k
    ensures Bit(XorBits(a, b, k), i) <==> Bit(a, i) != Bit(b, i)
  {
    XorStep(a, b, k);
    if i == 0 {
      OddSum(a, b);
    } else {
      XorBitwise(a / 2, b / 2, k - 1, i - 1);
    }
  }

  lemma XorStep(a: nat, b: nat, k: nat)
    requires k > 0
    ensures XorBits(a, b, k) / 2 == XorBits(a / 2, b / 2, k - 1) && XorBits(a, b, k) % 2 == (a + b) % 2
  {
    HalfOf(XorBits(a / 2, b / 2, k - 1), (a + b) % 2);
  }

  lemma OddSum(a: nat, b: nat)
    ensures (a + b) % 2 == 1 <==> (a % 2 == 1) != (b % 2 == 1)
  {
  }

  lemma HalfOf(x: nat, c: nat)
    requires c < 2
    ensures (2 * x + c) / 2 == x && (2 * x + c) % 2 == c
  {
  }

  lemma {:induction false} XorBitsTwice(a: nat, b: nat, k: nat)
    requires a < Pow2(k)
    ensures XorBits(XorBits(a, b, k), b, k) == a
  {
    if k > 0 {
      XorBitsTwice(a / 2, b / 2, k - 1);
      ParityBack(a, b, XorBits(a / 2, b / 2, k - 1));
    }
  }

  lemma ParityBack(a: nat, b: nat, x: nat)
    ensures var r := 2 * x + (a + b) % 2; r / 2 == x && (r + b) % 2 == a % 2 && a == 2 * (a / 2) + a % 2
  {
    var c := (a + b) % 2;
    if c == 0 { assert (2 * x + b) % 2 == b % 2; } else { assert (2 * x + 1 + b) % 2 == (1 + b) % 2; }
  }

  lemma {:induction false} XorBitsInjective(a: nat, b: nat, c: nat, k: nat)
    requires b < Pow2(k) && c < Pow2(k) && XorBits(a, b, k) == XorBits(a, c, k)
    ensures b == c
  {
    if k > 0 {
      var r := XorBits(a, b, k);
      assert r / 2 == XorBits(a / 2, b / 2, k - 1) == XorBits(a / 2, c / 2, k - 1);
      assert r % 2 == (a + b) % 2 == (a + c) % 2;
      XorBitsInjective(a / 2, b / 2, c / 2, k - 1);
      SameParity(a, b, c);
    }
  }

  lemma SameParity(a: nat, b: nat, c: nat)
    requires (a + b) % 2 == (a + c) % 2 && b / 2 == c / 2
    ensures b == c
  {
  }

  lemma {:induction false} PowAdd(j: nat, k: nat)
    ensures Pow2(j + k) == Pow2(j) * Pow2(k)
  {
    if j > 0 { PowAdd(j - 1, k); }
  }

  lemma Pow64()
    ensures Pow2(64) == MODULUS
  {
    assert Pow2(2) == 4;
    PowAdd(2, 2);
    PowAdd(4, 4);
    PowAdd(8, 8);
    PowAdd(16, 16);
    PowAdd(32, 32);
  }

  function Xor(a: word, b: word): word {
    Pow64();
    XorBits(a, b, 64)
  }

  // ---------- multiplication modulo 2^64

  function WrappingMul(a: word, b: word): word {
    (a * b) % MODULUS
  }

  lemma InverseWorks(x: word)
    ensures WrappingMul(WrappingMul(x, PRIME), PRIME_INVERSE) == x
  {
    var p, q := (x * PRIME) % MODULUS, (x * PRIME) / MODULUS;
    assert x * PRIME == MODULUS * q + p;
    var c := (PRIME * PRIME_INVERSE) / MODULUS;
    assert PRIME * PRIME_INVERSE == MODULUS * c + 1;
    assert p * PRIME_INVERSE == x + MODULUS * (x * c - q * PRIME_INVERSE);
    ModShift(x, x * c - q * PRIME_INVERSE, MODULUS);
  }

  // ---------- the hash

  function Update(h: word, b: byte): word {
    WrappingMul(Xor(h, b), PRIME)
  }

  /** The state before `Update(_, b)` produced `h`. */
  function Downdate(h: word, b: byte): word {
    Xor(WrappingMul(h, PRIME_INVERSE), b)
  }

  function HashFrom(h: word, data: seq<byte>): word
    decreases |data|
  {
    if data == [] then h else HashFrom(Update(h, data[0]), data[1..])
  }

  function Hash(data: seq<byte>): word {
    HashFrom(OFFSET_BASIS, data)
  }

  method ComputeHash(data: seq<byte>) returns (hash: word)
    ensures hash == Hash(data)
  {
    hash := OFFSET_BASIS;
    for i := 0 to |data|
      invariant HashFrom(hash, data[i..]) == Hash(data)
    {
      hash := Xor(hash, data[i]);
      hash := WrappingMul(hash, PRIME);
    }
  }

  /** The hash of the draft: the offset basis for no bytes, and for each further byte the exclusive or, bit by
      bit, then the product with the prime modulo 2^64. */
  lemma HashIs(p: seq<byte>, b: byte)
    ensures Hash([]) == 14695981039346656037
    ensures Hash(p + [b]) == (Xor(Hash(p), b) * 1099511628211) % 18446744073709551616
    ensures forall i :: 0 <= i < 64 ==> (Bit(Xor(Hash(p), b), i) <==> Bit(Hash(p), i) != Bit(b, i))
  {
    HashFromAppend(OFFSET_BASIS, p, [b]);
    assert [b][1..] == [];
    assert HashFrom(Hash(p), [b]) == HashFrom(Update(Hash(p), b), []);
    forall i | 0 <= i < 64 ensures Bit(Xor(Hash(p), b), i) <==> Bit(Hash(p), i) != Bit(b, i) {
      XorBitwise(Hash(p), b, 64, i);
    }
  }

  /** For each byte the state update is a bijection of 64-bit words, with `Downdate` as its inverse. */
  lemma UpdateBijective(h: word, b: byte)
    ensures Downdate(Update(h, b), b) == h
    ensures Update(Downdate(h, b), b) == h
  {
    Pow64();
    InverseWorks(Xor(h, b));
    XorBitsTwice(h, b, 64);
    XorBitsTwice(WrappingMul(h, PRIME_INVERSE), b, 64);
    InverseCommutes(h);
  }

  lemma InverseCommutes(x: word)
    ensures WrappingMul(WrappingMul(x, PRIME_INVERSE), PRIME) == x
  {
    var p, q := (x * PRIME_INVERSE) % MODULUS, (x * PRIME_INVERSE) / MODULUS;
    assert x * PRIME_INVERSE == MODULUS * q + p;
    var c := (PRIME * PRIME_INVERSE) / MODULUS;
    assert PRIME * PRIME_INVERSE == MODULUS * c + 1;
    assert p * PRIME == x + MODULUS * (x * c - q * PRIME);
    ModShift(x, x * c - q * PRIME, MODULUS);
  }

  /** From any state, different bytes lead to different states. */
  lemma UpdateSeparatesBytes(h: word, b: byte, c: byte)
    requires Update(h, b) == Update(h, c)
    ensures b == c
  {
    Pow64();
    InverseWorks(Xor(h, b));
    InverseWorks(Xor(h, c));
    XorBitsInjective(h, b, c, 64);
  }

  lemma {:induction false} HashFromInjective(g: word, h: word, s: seq<byte>)
    ensures HashFrom(g, s) == HashFrom(h, s) <==> g == h
    decreases |s|
  {
    if s != [] {
      HashFromInjective(Update(g, s[0]), Update(h, s[0]), s[1..]);
      UpdateBijective(g, s[0]);
      UpdateBijective(h, s[0]);
    }
  }

  lemma {:induction false} HashFromAppend(h: word, p: seq<byte>, s: seq<byte>)
    ensures HashFrom(h, p + s) == HashFrom(HashFrom(h, p), s)
    decreases |p|
  {
    if p == [] {
      assert p + s == s;
    } else {
      assert (p + s)[1..] == p[1..] + s;
      HashFromAppend(Update(h, p[0]), p[1..], s);
    }
  }

  /** A common suffix neither creates nor removes a collision. */
  lemma CommonSuffix(p: seq<byte>, q: seq<byte>, s: seq<byte>)
    ensures Hash(p + s) == Hash(q + s) <==> Hash(p) == Hash(q)
  {
    HashFromAppend(OFFSET_BASIS, p, s);
    HashFromAppend(OFFSET_BASIS, q, s);
    HashFromInjective(Hash(p), Hash(q), s);
  }

  /** Two inputs of equal length that differ in exactly one byte never collide. */
  lemma OneByteNeverCollides(x: seq<byte>, y: seq<byte>, i: nat)
    requires |x| == |y| && i < |x| && x[i] != y[i]
    requires forall j :: 0 <= j < |x| && j != i ==> x[j] == y[j]
    ensures Hash(x) != Hash(y)
  {
    var p, s := x[..i], x[i + 1..];
    assert x == (p + [x[i]]) + s && y == (p + [y[i]]) + s;
    CommonSuffix(p + [x[i]], p + [y[i]], s);
    HashFromAppend(OFFSET_BASIS, p, [x[i]]);
    HashFromAppend(OFFSET_BASIS, p, [y[i]]);
    assert [x[i]][1..] == [] && [y[i]][1..] == [];
    if Hash(p + [x[i]]) == Hash(p + [y[i]]) {
      UpdateSeparatesBytes(Hash(p), x[i], y[i]);
    }
  }
}
