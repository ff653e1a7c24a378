/** Message digesting over an arbitrary block function: RFC 1321, sections 3.1, 3.2 and the use of 3.4. */
module Md5Spec {
  import opened Bytes
  import opened LittleEndian

  /** The words of a byte sequence, low-order byte first. */
  function Words(b: seq<byte>): (w: seq<nat>)
    ensures |w| == |b| / 4
  {
    seq(|b| / 4, i requires 0 <= i < |b| / 4 => LE(b[4 * i..4 * i + 4]))
  }

  /** The state after the blocks of b have been digested, one after the other. */
  function Absorb<S>(block: (S, seq<nat>) -> S, s: S, b: seq<byte>): S
    requires |b| % 64 == 0
    decreases |b|
  {
    if b == [] then s
    else block(Absorb(block, s, b[..|b| - 64]), Words(b[|b| - 64..]))
  }

  lemma AbsorbBlock<S>(block: (S, seq<nat>) -> S, s: S, a: seq<byte>, b: seq<byte>)
    requires |a| % 64 == 0 && |b| == 64
    ensures Absorb(block, s, a + b) == block(Absorb(block, s, a), Words(b))
  {
    var c := a + b;
    assert c[..|c| - 64] == a && c[|c| - 64..] == b;
  }

  function Zeros(n: nat): (z: seq<byte>)
    ensures |z| == n && forall i :: 0 <= i < n ==> z[i] == 0
  {
    seq(n, i => 0)
  }

  const MOD32 := 0x1_0000_0000

  const MOD64 := 0x1_0000_0000_0000_0000

  /** The padded message: a one bit, zeros up to 56 modulo 64 bytes, and the length in bits modulo 2^64. */
  function Pad(m: seq<byte>): (p: seq<byte>)
    ensures |p| % 64 == 0
  {
    m + [0x80] + Zeros((119 - |m| % 64) % 64) + BytesOf(8 * |m| % MOD64, 8)
  }

  // ---------- words of a partly filled block ----------

  /** The first n words are those of the bytes p. */
  ghost predicate Filled(data: seq<nat>, p: seq<byte>, n: nat) {
    4 * n <= |p| && n <= |data| && forall i :: 0 <= i < n ==> data[i] == LE(p[4 * i..4 * i + 4])
  }

  /** The words hold the bytes p, the unused bytes of the last word being zero. */
  ghost predicate Pending(data: seq<nat>, p: seq<byte>) {
    |data| == 16 && |p| < 64 && Filled(data, p, |p| / 4) &&
    (|p| % 4 != 0 ==> data[|p| / 4] == LE(p[4 * (|p| / 4)..]))
  }

  lemma FilledAll(data: seq<nat>, p: seq<byte>)
    requires |data| == 16 && |p| == 64 && Filled(data, p, 16)
    ensures data == Words(p)
  {
  }

  /** More bytes after the filled words do not matter. */
  lemma FilledPrefix(data: seq<nat>, p: seq<byte>, q: seq<byte>, n: nat)
    requires Filled(data, p, n)
    ensures Filled(data, p + q, n)
  {
    forall i | 0 <= i < n ensures data[i] == LE((p + q)[4 * i..4 * i + 4]) {
      assert (p + q)[4 * i..4 * i + 4] == p[4 * i..4 * i + 4];
    }
  }

  lemma ZeroWord(z: seq<byte>)
    requires forall i :: 0 <= i < |z| ==> z[i] == 0
    ensures LE(z) == 0
  {
  }

  // ---------- the bit count ----------

  /** The counters hold the number of bits of n bytes modulo 2^64. */
  ghost predicate Counts(nl: nat, nh: nat, n: nat) {
    nl < MOD32 && nh < MOD32 && nl + MOD32 * nh == 8 * n % MOD64
  }

  /** Adding 8 * len to the pair of 32-bit counters, as the carry test of the code does it. */
  lemma CountBits(nl: nat, nh: nat, len: nat, total: nat)
    requires Counts(nl, nh, total)
    ensures var l := (nl + 8 * len) % MOD32;
            Counts(l, (nh + (if l < nl then 1 else 0) + len / 0x2000_0000) % MOD32, total + len)
  {
    var l := (nl + 8 * len) % MOD32;
    var carry := if l < nl then 1 else 0;
    CarryTest(nl, 8 * len, len / 0x2000_0000, l);
    var h := nh + carry + len / 0x2000_0000;
    assert l + MOD32 * h == nl + MOD32 * nh + 8 * len;
    Wrap(l, h);
    ModAdd(8 * total, 8 * len);
    assert 8 * (total + len) == 8 * total + 8 * len;
  }

  lemma CarryTest(nl: nat, bits: nat, high: nat, l: nat)
    requires nl < MOD32 && high == bits / MOD32 && l == (nl + bits) % MOD32
    ensures l + MOD32 * ((if l < nl then 1 else 0) + high) == nl + bits
  {
    var low := bits % MOD32;
    assert bits == low + MOD32 * high;
    assert l == if nl + low < MOD32 then nl + low else nl + low - MOD32;
  }

  lemma Wrap(l: nat, h: nat)
    requires l < MOD32
    ensures l + MOD32 * (h % MOD32) == (l + MOD32 * h) % MOD64
  {
    var q := h / MOD32;
    assert l + MOD32 * h == l + MOD32 * (h % MOD32) + MOD64 * q;
  }

  lemma ModAdd(a: nat, b: nat)
    ensures (a % MOD64 + b) % MOD64 == (a + b) % MOD64
  {
  }

  lemma FourBytes(v: nat)
    ensures LE(BytesOf(v, 4)) == v % MOD32
  {
    var b := BytesOf(v, 4);
    assert b == [v % 256] + BytesOf(v / 256, 3);
    assert BytesOf(v / 256, 3) == [v / 256 % 256] + BytesOf(v / 256 / 256, 2);
    assert BytesOf(v / 256 / 256, 2) == [v / 256 / 256 % 256] + BytesOf(v / 256 / 256 / 256, 1);
    assert BytesOf(v / 256 / 256 / 256, 1) == [v / 256 / 256 / 256 % 256] + BytesOf(v / 256 / 256 / 256 / 256, 0);
    LE4(b);
    hide BytesOf, LE;
    assert b[0] == v % 256 && b[1] == v / 256 % 256 && b[2] == v / 256 / 256 % 256 && b[3] == v / 256 / 256 / 256 % 256;
  }

  lemma {:induction false} BytesSplit(v: nat, m: nat, n: nat)
    ensures BytesOf(v, m + n) == BytesOf(v, m) + BytesOf(Shr8(v, m), n)
    decreases m
  {
    if m > 0 {
      BytesSplit(v / 256, m - 1, n);
      assert [v % 256] + (BytesOf(v / 256, m - 1) + BytesOf(Shr8(v, m), n)) == BytesOf(v, m) + BytesOf(Shr8(v, m), n);
    }
  }

  lemma ShiftFour(v: nat)
    ensures Shr8(v, 4) == v / MOD32
  {
    assert Shr8(v, 4) == Shr8(v / 256, 3) && Shr8(v / 256, 3) == Shr8(v / 256 / 256, 2);
    assert Shr8(v / 256 / 256, 2) == Shr8(v / 256 / 256 / 256, 1);
  }

  /** The counters are the eight length bytes of the padding. */
  lemma LengthBytes(nl: nat, nh: nat, v: nat)
    requires nl < MOD32 && nh < MOD32 && v == nl + MOD32 * nh
    ensures LE(BytesOf(v, 8)[..4]) == nl && LE(BytesOf(v, 8)[4..]) == nh
  {
    BytesSplit(v, 4, 4);
    ShiftFour(v);
    FourBytes(v);
    FourBytes(nh);
    var a, b := BytesOf(v, 4), BytesOf(nh, 4);
    hide BytesOf, LE;
    assert v / MOD32 == nh && v % MOD32 == nl;
    assert (a + b)[..4] == a && (a + b)[4..] == b;
  }

  // ---------- the padding ----------

  /** The bytes that HASH_FINAL appends to complete the word in which the message ends. */
  const END: seq<byte> := [0x80, 0, 0, 0]

  function Stopped(t: seq<byte>): (u: seq<byte>)
    ensures |u| % 4 == 0 && |t| < |u| <= |t| + 4
  {
    t + END[0..4 - |t| % 4]
  }

  /** The block that holds the length, after the bytes q. */
  function LastBlock(q: seq<byte>, bits: nat): (b: seq<byte>)
    requires |q| <= 56
    ensures |b| == 64
  {
    q + Zeros(56 - |q|) + BytesOf(bits, 8)
  }

  /** The padded message, when the end of the message leaves room for the length in its block, ... */
  lemma PadOne(m: seq<byte>, n: nat)
    requires n == |m| % 64 && |Stopped(m[|m| - n..])| <= 56
    ensures Pad(m) == m[..|m| - n] + LastBlock(Stopped(m[|m| - n..]), 8 * |m| % MOD64)
  {
    var m0, t := m[..|m| - n], m[|m| - n..];
    var u, e := Stopped(t), BytesOf(8 * |m| % MOD64, 8);
    var r := 4 - n % 4;
    assert |u| == n + r && n < 56 && (119 - n) % 64 == 55 - n;
    assert END[0..r] == [0x80] + Zeros(r - 1);
    assert Zeros(55 - n) == Zeros(r - 1) + Zeros(56 - |u|);
    hide BytesOf;
    Assemble(m, m0, t, [0x80], Zeros(r - 1), Zeros(56 - |u|), e);
  }

  lemma Assemble(m: seq<byte>, m0: seq<byte>, t: seq<byte>, s: seq<byte>, y: seq<byte>, z: seq<byte>, e: seq<byte>)
    requires m == m0 + t
    ensures m + s + (y + z) + e == m0 + (t + (s + y) + z + e)
  {
  }

  /** ... and when it does not. */
  lemma PadTwo(m: seq<byte>, n: nat)
    requires n == |m| % 64 && |Stopped(m[|m| - n..])| > 56
    ensures var u := Stopped(m[|m| - n..]);
            |u| <= 64 && Pad(m) == m[..|m| - n] + (u + Zeros(64 - |u|)) + LastBlock([], 8 * |m| % MOD64)
  {
    var m0, t := m[..|m| - n], m[|m| - n..];
    var u, e := Stopped(t), BytesOf(8 * |m| % MOD64, 8);
    var r := 4 - n % 4;
    assert |u| == n + r && n >= 56 && (119 - n) % 64 == 119 - n;
    assert END[0..r] == [0x80] + Zeros(r - 1);
    assert Zeros(119 - n) == Zeros(r - 1) + (Zeros(64 - |u|) + Zeros(56));
    hide BytesOf;
    Assemble2(m, m0, t, [0x80], Zeros(r - 1), Zeros(64 - |u|), Zeros(56), e);
    assert LastBlock([], 8 * |m| % MOD64) == Zeros(56) + e;
  }

  lemma Assemble2(m: seq<byte>, m0: seq<byte>, t: seq<byte>, s: seq<byte>, y: seq<byte>, z: seq<byte>, f: seq<byte>,
                  e: seq<byte>)
    requires m == m0 + t
    ensures m + s + (y + (z + f)) + e == m0 + (t + (s + y) + z) + (f + e)
  {
  }

  /** Words of zero are zero bytes. */
  lemma FilledZero(data: seq<nat>, u: seq<byte>, z: nat, i: nat)
    requires 4 * i <= |u| + z && |u| % 4 == 0 && |u| <= 4 * i && i < |data| && 4 * i + 4 <= |u| + z
    requires Filled(data, u + Zeros(z), i)
    ensures Filled(data[i := 0], u + Zeros(z), i + 1)
  {
    ZeroWord((u + Zeros(z))[4 * i..4 * i + 4]);
  }

  /** The counters in the last two words are the length in the last eight bytes. */
  lemma FilledLength(data: seq<nat>, q: seq<byte>, nl: nat, nh: nat, n: nat)
    requires |data| == 16 && |q| == 56 && Filled(data, q, 14) && Counts(nl, nh, n)
    ensures data[14 := nl][15 := nh] == Words(q + BytesOf(8 * n % MOD64, 8))
  {
    var e := BytesOf(8 * n % MOD64, 8);
    LengthBytes(nl, nh, 8 * n % MOD64);
    hide BytesOf, LE, Counts;
    var p, d := q + e, data[14 := nl][15 := nh];
    FilledPrefix(data, q, e, 14);
    assert p[56..60] == e[..4] && p[60..64] == e[4..];
    assert Filled(d, p, 16);
    FilledAll(d, p);
  }
}
