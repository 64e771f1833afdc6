/** Byte strings: fixed-width integer encodings and the lexicographic order of keys. */
module ByteStrings {

  import opened Arithmetic

  type Byte = b: int | 0 <= b < 256

  type Bytes = seq<Byte>

  /** 256 to the power `w`. */
  function Pow256(w: nat): (p: nat)
    ensures p > 0
  {
    if w == 0 then 1 else 256 * Pow256(w - 1)
  }

  /** The low `w` bytes of `n`, most significant first. */
  function BigEndian(n: nat, w: nat): (s: Bytes)
    ensures |s| == w
  {
    if w == 0 then [] else BigEndian(n / 256, w - 1) + [n % 256]
  }

  function FromBigEndian(s: Bytes): (n: nat)
    ensures n < Pow256(|s|)
  {
    if s == [] then 0 else FromBigEndian(s[..|s| - 1]) * 256 + s[|s| - 1]
  }

  /** The low `w` bytes of `n`, least significant first (the native order of the writers). */
  function LittleEndian(n: nat, w: nat): (s: Bytes)
    ensures |s| == w
  {
    if w == 0 then [] else [n % 256] + LittleEndian(n / 256, w - 1)
  }

  function FromLittleEndian(s: Bytes): nat {
    if s == [] then 0 else s[0] + 256 * FromLittleEndian(s[1..])
  }

  /** The two's complement reading of an unsigned `w`-byte value. */
  function Signed(n: nat, w: nat): int {
    if 2 * n < Pow256(w) then n else n - Pow256(w)
  }

  /** The unsigned `w`-byte value that stands for an integer. */
  function Unsigned(v: int, w: nat): (n: nat)
    ensures n < Pow256(w)
  {
    v % Pow256(w)
  }

  lemma SignedBack(v: int, w: nat)
    requires 0 - Pow256(w) <= 2 * v < Pow256(w)
    ensures Signed(Unsigned(v, w), w) == v
  {
    RemainderAround(v, Pow256(w));
  }

  lemma UnsignedBack(n: nat, w: nat)
    requires n < Pow256(w)
    ensures Unsigned(Signed(n, w), w) == n && 0 - Pow256(w) <= 2 * Signed(n, w) < Pow256(w)
  {
    RemainderAround(Signed(n, w), Pow256(w));
  }

  /** Signed 64-bit integers. */
  predicate IsVersion(v: int) {
    -0x8000_0000_0000_0000 <= v < 0x8000_0000_0000_0000
  }

  lemma {:induction false} BigEndianRoundTrip(n: nat, w: nat)
    requires n < Pow256(w)
    ensures FromBigEndian(BigEndian(n, w)) == n
  {
    if w > 0 {
      BigEndianRoundTrip(n / 256, w - 1);
      assert BigEndian(n, w)[..w - 1] == BigEndian(n / 256, w - 1);
    }
  }

  lemma {:induction false} LittleEndianRoundTrip(n: nat, w: nat)
    requires n < Pow256(w)
    ensures FromLittleEndian(LittleEndian(n, w)) == n
  {
    if w > 0 {
      LittleEndianRoundTrip(n / 256, w - 1);
      assert LittleEndian(n, w)[1..] == LittleEndian(n / 256, w - 1);
    }
  }

  /** A field is determined by its value. */
  lemma {:induction false} FromBigEndianBack(s: Bytes)
    ensures BigEndian(FromBigEndian(s), |s|) == s
  {
    if s != [] {
      var last := |s| - 1;
      FromBigEndianBack(s[..last]);
      assert FromBigEndian(s) / 256 == FromBigEndian(s[..last]) && FromBigEndian(s) % 256 == s[last];
      assert s == s[..last] + [s[last]];
    }
  }

  /** The sign bit of a big-endian field sits in its first byte. */
  lemma {:induction false} BigEndianTopByte(n: nat, w: nat)
    requires w > 0 && 2 * n < Pow256(w)
    ensures BigEndian(n, w)[0] < 0x80
  {
    if w > 1 {
      BigEndianTopByte(n / 256, w - 1);
    }
  }

  lemma Pow256Values()
    ensures Pow256(1) == 0x100 && Pow256(4) == 0x1_0000_0000 && Pow256(8) == 0x1_0000_0000_0000_0000
  {
    assert Pow256(2) == 0x1_0000;
    assert Pow256(3) == 0x100_0000;
    assert Pow256(5) == 0x100_0000_0000;
    assert Pow256(6) == 0x1_0000_0000_0000;
    assert Pow256(7) == 0x100_0000_0000_0000;
  }

  // ---------- The order of keys ----------

  /** Lexicographic order, as `StringRef::operator<`. */
  predicate Less(a: Bytes, b: Bytes) {
    b != [] && (a == [] || a[0] < b[0] || (a[0] == b[0] && Less(a[1..], b[1..])))
  }

  predicate AtMost(a: Bytes, b: Bytes) {
    !Less(b, a)
  }

  lemma {:induction false} LessIrreflexive(a: Bytes)
    ensures !Less(a, a)
  {
    if a != [] {
      LessIrreflexive(a[1..]);
    }
  }

  lemma {:induction false} LessTransitive(a: Bytes, b: Bytes, c: Bytes)
    requires Less(a, b) && Less(b, c)
    ensures Less(a, c)
  {
    if a != [] && a[0] == b[0] == c[0] {
      LessTransitive(a[1..], b[1..], c[1..]);
    }
  }

  lemma {:induction false} LessTotal(a: Bytes, b: Bytes)
    ensures Less(a, b) || Less(b, a) || a == b
  {
    if a != [] && b != [] && a[0] == b[0] {
      LessTotal(a[1..], b[1..]);
      assert a == [a[0]] + a[1..] && b == [b[0]] + b[1..];
    }
  }

  /** `Less` is a strict total order; the quantified form used by the proofs about key ranges. */
  lemma LessIsStrictTotalOrder()
    ensures forall a :: !Less(a, a)
    ensures forall a, b, c :: Less(a, b) && Less(b, c) ==> Less(a, c)
    ensures forall a, b :: Less(a, b) || Less(b, a) || a == b
  {
    forall a ensures !Less(a, a) { LessIrreflexive(a); }
    forall a, b, c | Less(a, b) && Less(b, c) ensures Less(a, c) { LessTransitive(a, b, c); }
    forall a, b ensures Less(a, b) || Less(b, a) || a == b { LessTotal(a, b); }
  }

  lemma {:induction false} LessAfterCommonPrefix(p: Bytes, a: Bytes, b: Bytes)
    requires Less(a, b)
    ensures Less(p + a, p + b)
  {
    if p == [] {
      assert p + a == a && p + b == b;
    } else {
      LessAfterCommonPrefix(p[1..], a, b);
      assert (p + a)[1..] == p[1..] + a && (p + b)[1..] == p[1..] + b;
    }
  }

  lemma {:induction false} LessBeforeSuffix(a: Bytes, b: Bytes, x: Bytes, y: Bytes)
    requires |a| == |b| && Less(a, b)
    ensures Less(a + x, b + y)
  {
    if a[0] == b[0] {
      LessBeforeSuffix(a[1..], b[1..], x, y);
      assert (a + x)[1..] == a[1..] + x && (b + y)[1..] == b[1..] + y;
    }
  }

  /** Big-endian fields of one width sort like the numbers they hold. */
  lemma {:induction false} BigEndianOrder(n: nat, m: nat, w: nat)
    requires n < m < Pow256(w)
    ensures Less(BigEndian(n, w), BigEndian(m, w))
  {
    if n / 256 < m / 256 {
      BigEndianOrder(n / 256, m / 256, w - 1);
      LessBeforeSuffix(BigEndian(n / 256, w - 1), BigEndian(m / 256, w - 1), [n % 256], [m % 256]);
    } else {
      LessAfterCommonPrefix(BigEndian(n / 256, w - 1), [n % 256], [m % 256]);
    }
  }

  lemma AtMostTransitive(a: Bytes, b: Bytes, c: Bytes)
    requires AtMost(a, b) && AtMost(b, c)
    ensures AtMost(a, c)
  {
    LessTotal(a, b);
    LessTotal(b, c);
    LessIrreflexive(a);
    if Less(c, a) {
      if Less(a, b) { LessTransitive(c, a, b); }
    }
  }

  lemma LessAsymmetric(a: Bytes, b: Bytes)
    requires Less(a, b)
    ensures AtMost(a, b)
  {
    LessIrreflexive(a);
    if Less(b, a) { LessTransitive(a, b, a); }
  }

  lemma LessThenAtMost(a: Bytes, b: Bytes, c: Bytes)
    requires Less(a, b) && AtMost(b, c)
    ensures Less(a, c)
  {
    LessTotal(b, c);
    if Less(b, c) { LessTransitive(a, b, c); }
  }

  lemma AtMostThenLess(a: Bytes, b: Bytes, c: Bytes)
    requires AtMost(a, b) && Less(b, c)
    ensures Less(a, c)
  {
    LessTotal(a, b);
    if Less(a, b) { LessTransitive(a, b, c); }
  }
}
