/** What the key makes of the wheels: every exchange on the rotor and every pair on the reflector. */
module EnigmaSetup {
  import opened Bits
  import opened Bytes
  import opened EnigmaSpec

  const WORD := 0x1_0000_0000

  function Signed(b: byte): int { if b < 128 then b else b - 256 }

  /** The sum of the key's bytes. */
  function Total(key: seq<byte>): int {
    if key == [] then 0 else Total(key[..|key| - 1]) + Signed(key[|key| - 1])
  }

  // ---------- the numbers drawn ----------

  /** Of a key of more than 256 bytes the last ones count. */
  function LastPart(key: seq<byte>): (k: seq<byte>)
    requires key != []
    ensures k != []
  {
    if |key| > 256 then key[|key| - 256..] else key
  }

  /** What the first n bytes of the key, taken round and round, weigh after i steps: each step doubles all before it. */
  function Weight(k: seq<byte>, i: nat, n: nat): (w: int)
    requires k != [] && n <= i
  {
    if n == 0 then 0 else Weight(k, i, n - 1) + Pow2(i - n) * Signed(k[(n - 1) % |k|])
  }

  /** The seed after i steps: the checksum, doubled i times, and the weighed bytes. */
  function SeedAt(key: seq<byte>, crc: nat, i: nat): (s: nat)
    requires key != []
    ensures s < WORD
  {
    (Pow2(i) * crc + Weight(LastPart(key), i, i)) % WORD
  }

  /** The number drawn at step i. */
  function Draw(key: seq<byte>, crc: nat, i: nat): (r: nat)
    requires key != []
  {
    SeedAt(key, crc, i + 1) % 0x8000_0000 % 65529
  }

  lemma {:induction false} WeightDoubles(k: seq<byte>, i: nat, n: nat)
    requires k != [] && n <= i
    ensures Weight(k, i + 1, n) == 2 * Weight(k, i, n)
    decreases n
  {
    if n > 0 {
      WeightDoubles(k, i, n - 1);
      var p, b := Pow2(i - n), Signed(k[(n - 1) % |k|]);
      assert Pow2(i + 1 - n) == 2 * p;
      assert 2 * p * b == 2 * (p * b);
    }
  }

  /** One step of the seed, as the code makes it. */
  lemma SeedNext(key: seq<byte>, crc: nat, i: nat)
    requires key != []
    ensures SeedAt(key, crc, i + 1) == (2 * SeedAt(key, crc, i) + Signed(LastPart(key)[i % |LastPart(key)|])) % WORD
    ensures SeedAt(key, crc, 0) == crc % WORD
  {
    var k := LastPart(key);
    var b, x := Signed(k[i % |k|]), Pow2(i) * crc + Weight(k, i, i);
    WeightDoubles(k, i, i);
    assert Weight(k, i + 1, i + 1) == Weight(k, i + 1, i) + b by { assert Pow2(0) == 1; }
    assert Pow2(i + 1) * crc == 2 * (Pow2(i) * crc) by { assert Pow2(i + 1) == 2 * Pow2(i); }
    hide Weight, Pow2;
    DoubleMod(x, b);
    assert Pow2(0) * crc + Weight(k, 0, 0) == crc by { Nothing(k); }
  }

  lemma Nothing(k: seq<byte>)
    requires k != []
    ensures Pow2(0) == 1 && Weight(k, 0, 0) == 0
  {
  }

  lemma DoubleMod(x: int, b: int)
    ensures (2 * (x % WORD) + b) % WORD == (2 * x + b) % WORD
  {
    assert x == WORD * (x / WORD) + x % WORD;
    Shifted(2 * (x % WORD) + b, 2 * (x / WORD));
  }

  lemma Shifted(y: int, q: int)
    ensures (y + WORD * q) % WORD == y % WORD
  {
  }

  // ---------- the rotor ----------

  /** The rotor at its first turn. */
  function Turned(ic: int): (t: seq<byte>)
    ensures |t| == 256 && forall i :: 0 <= i < 256 ==> t[i] == Low(i + ic)
  {
    seq<byte>(256, i => Low(i + ic))
  }

  function Swap(s: seq<byte>, k: nat, j: nat): (r: seq<byte>)
    requires k < |s| && j < |s|
    ensures |r| == |s| && r[k] == s[j] && r[j] == s[k]
    ensures forall i :: 0 <= i < |s| && i != k && i != j ==> r[i] == s[i]
  {
    s[k := s[j]][j := s[k]]
  }

  /** The rotor after i exchanges, of the places 255, 254 and so on, each with a drawn one up to itself. */
  function RotorAt(key: seq<byte>, crc: nat, i: nat): (t: seq<byte>)
    requires key != [] && i <= 256
    ensures |t| == 256
  {
    if i == 0 then Turned(crc + Total(key))
    else Swap(RotorAt(key, crc, i - 1), 256 - i, Draw(key, crc, i - 1) % (257 - i))
  }

  // ---------- the reflector ----------

  /** The position d behind `start`, round and round below k. */
  function Ring(start: nat, d: nat, k: nat): (j: nat)
    requires k > 0
    ensures j < k
  {
    (start + d) % k
  }

  /** The first position of the ring that is not joined, from the d-th on. */
  function FirstFree(t3: seq<byte>, k: nat, start: nat, d: nat): (j: nat)
    requires 0 < k <= |t3| && d <= k
    ensures j < k
    decreases k - d
  {
    if d == k || t3[Ring(start, d, k)] == 0 then Ring(start, d, k) else FirstFree(t3, k, start, d + 1)
  }

  /** It is free, and none before it is, if any is. */
  lemma {:induction false} FirstFreeIs(t3: seq<byte>, k: nat, start: nat, d: nat, e: nat) returns (f: nat)
    requires 0 < k <= |t3| && d <= e < k && t3[Ring(start, e, k)] == 0
    ensures d <= f <= e && FirstFree(t3, k, start, d) == Ring(start, f, k) && t3[Ring(start, f, k)] == 0
    ensures forall x :: d <= x < f ==> t3[Ring(start, x, k)] != 0
    decreases k - d
  {
    hide Ring;
    f := d;
    if t3[Ring(start, d, k)] != 0 { f := FirstFreeIs(t3, k, start, d + 1, e); }
  }

  /** Position k is joined, unless it is already, with the first free one below it. */
  function Joining(t3: seq<byte>, k: nat, random: nat): (r: seq<byte>)
    requires |t3| == 256 && k < 256
    ensures |r| == 256
  {
    if t3[k] != 0 || k == 0 then t3
    else
      var j := FirstFree(t3, k, random % 256 % k, 0);
      t3[k := j][j := k]
  }

  function ReflectorAt(key: seq<byte>, crc: nat, i: nat): (t: seq<byte>)
    requires key != [] && i <= 256
    ensures |t| == 256
  {
    if i == 0 then seq<byte>(256, _ => 0) else Joining(ReflectorAt(key, crc, i - 1), 256 - i, Draw(key, crc, i - 1))
  }

  // ---------- the machine ----------

  /** The wheels that the key and its checksum make. */
  predicate SetUp(w: Wheels, key: seq<byte>, crc: nat) {
    key != [] && Wired(w) && w.t1 == RotorAt(key, crc, 256) && w.t3 == ReflectorAt(key, crc, 256)
  }

  /** There is one machine only for a key and a checksum. */
  lemma OneMachine(w: Wheels, w': Wheels, key: seq<byte>, crc: nat)
    requires SetUp(w, key, crc) && SetUp(w', key, crc)
    ensures w == w'
  {
    hide RotorAt, ReflectorAt;
    forall x | 0 <= x < 256 ensures w.t2[x] == w'.t2[x] {
      assert w.t1[w'.t2[x]] == x && w.t2[w.t1[w'.t2[x]]] == w'.t2[x];
    }
  }
}
