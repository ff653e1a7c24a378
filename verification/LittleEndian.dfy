/** Numbers written lowest byte first. */
module LittleEndian {
  import opened Bytes

  function LE(w: seq<byte>): (v: nat) {
    if w == [] then 0 else w[0] as int + 256 * LE(w[1..])
  }

  /** The n low bytes of v, lowest first. */
  function BytesOf(v: nat, n: nat): (r: seq<byte>)
    ensures |r| == n
  {
    if n == 0 then [] else [v % 256] + BytesOf(v / 256, n - 1)
  }

  /** b << (8 * j) and v >>> (8 * j) */
  function Shl8(b: nat, j: nat): nat { if j == 0 then b else 256 * Shl8(b, j - 1) }

  function Shr8(v: nat, j: nat): nat { if j == 0 then v else Shr8(v / 256, j - 1) }

  lemma {:induction false} LESnoc(w: seq<byte>, b: byte)
    ensures LE(w + [b]) == LE(w) + Shl8(b, |w|)
  {
    if w != [] {
      LESnoc(w[1..], b);
      assert (w + [b])[1..] == w[1..] + [b];
    }
  }

  lemma {:induction false} BytesOfAt(v: nat, n: nat, j: nat)
    requires j < n
    ensures BytesOf(v, n)[j] == Shr8(v, j) % 256
    decreases n
  {
    if j > 0 { BytesOfAt(v / 256, n - 1, j - 1); }
  }

  /** Reading back what was written, for numbers of up to four bytes. */
  lemma LEBytesOf(v: nat, n: nat)
    requires n <= 4 && v < Shl8(1, n)
    ensures LE(BytesOf(v, n)) == v
    decreases n
  {
    if n > 0 {
      LEBytesOf(v / 256, n - 1);
      assert BytesOf(v, n)[1..] == BytesOf(v / 256, n - 1);
    }
  }

  lemma LE3(w: seq<byte>)
    requires |w| == 3
    ensures LE(w) == w[0] as int + 256 * (w[1] as int) + 65536 * (w[2] as int) < 0x100_0000
  {
    assert LE(w[1..]) == w[1] as int + 256 * LE(w[1..][1..]);
    assert LE(w[1..][1..]) == w[2] as int + 256 * LE(w[1..][1..][1..]);
  }

  lemma LE4(w: seq<byte>)
    requires |w| == 4
    ensures LE(w) == w[0] as int + 256 * (w[1] as int) + 65536 * (w[2] as int) + 0x100_0000 * (w[3] as int)
                  < 0x1_0000_0000
  {
    LE3(w[1..]);
  }
}
