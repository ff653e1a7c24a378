/** The hash of QuickLZ, bit by bit, and where it stands in a match of level 1. */
module QuickLzHash {
  import opened Bits
  import opened Bytes
  import opened LittleEndian
  import opened QuickLzWord
  import opened QuickLzFormat

  /** Each of the twelve bits tells whether two bits of the fetched number, twelve apart, differ. */
  lemma HashBit(f: nat, i: nat)
    requires i < 12
    ensures BitAt(Hash(f), i) <==> BitAt(f, i) != BitAt(f, i + 12)
  {
    Pow12();
    XorBit(f / 4096 % 4096, f % 4096, 12, i);
    BitLow(f / 4096, 12, i);
    BitLow(f, 12, i);
    BitShifted(f, 12, i);
    ShrIs(f, 12);
    hide Xor, BitAt, Pow2, Shr;
  }

  lemma Pow12()
    ensures Pow2(12) == 4096
  {
    assert Pow2(6) == 64;
    PowAdd(6, 6);
  }

  /** No other number of twelve bits does. */
  lemma HashOnly(f: nat, h: nat)
    requires h < 4096 && forall i: nat :: i < 12 ==> (BitAt(h, i) <==> BitAt(f, i) != BitAt(f, i + 12))
    ensures h == Hash(f)
  {
    Pow12();
    hide BitAt, Hash, Pow2;
    forall i: nat | i < 12 ensures BitAt(h, i) <==> BitAt(Hash(f), i) { HashBit(f, i); }
    SameBits(h, Hash(f), 12);
  }

  lemma CodeBits(h: nat, low: nat, high: nat, i: nat)
    requires h < 4096 && low < 16 && i < 12
    ensures BitAt(16 * h + low + 65536 * high, i + 4) <==> BitAt(h, i)
  {
    var v := 16 * h + low + 65536 * high;
    assert Pow2(4) == 16;
    assert v / 16 == h + 4096 * high && (h + 4096 * high) % 4096 == h;
    BitShifted(v, 4, i);
    ShrIs(v, 4);
    Pow12();
    BitLow(h + 4096 * high, 12, i);
  }

  /** A match of level 1 as it stands in the stream: the lowest four bits hold the length less two, or 0 if the length has
      a byte of its own; the twelve bits above them are those of the hash of the three bytes that are copied first. */
  lemma MatchBytes1(st: State, t: Token, n: nat)
    requires Fits(1, st, t, n) && t.Match?
    ensures var w, f := UnitOf(1, st, t, n).bytes, Triple(st.out, |st.out| - t.offset);
            |w| == (if t.len < 18 then 2 else 3) && (t.len >= 18 ==> w[2] as int == t.len) &&
            w[0] % 16 == (if t.len < 18 then t.len - 2 else 0) &&
            forall i: nat :: i < 12 ==> (BitAt(w[0] + 256 * w[1] as nat, i + 4) <==> BitAt(f, i) != BitAt(f, i + 12))
  {
    var f := Triple(st.out, |st.out| - t.offset);
    var h, low := Hash(f), if t.len < 18 then t.len - 2 else 0;
    var v := if t.len < 18 then h * 16 + (t.len - 2) else h * 16 + t.len * 65536;
    UnitIs(st, t, n, v);
    hide *;
    TwoBytes(v, h, low, t.len);
    forall i: nat | i < 12 ensures BitAt(16 * h + low, i + 4) <==> BitAt(f, i) != BitAt(f, i + 12) {
      CodeBits(h, low, 0, i);
      HashBit(f, i);
    }
  }

  lemma UnitIs(st: State, t: Token, n: nat, v: nat)
    requires Fits(1, st, t, n) && t.Match?
    requires var h := Hash(Triple(st.out, |st.out| - t.offset));
             v == if t.len < 18 then h * 16 + (t.len - 2) else h * 16 + t.len * 65536
    ensures 3 <= t.len <= 255 && UnitOf(1, st, t, n).bytes == BytesOf(v, if t.len < 18 then 2 else 3)
  {
    hide Hash, Triple, Lookup, BytesOf;
  }

  lemma TwoBytes(v: nat, h: nat, low: nat, len: nat)
    requires h < 4096 && low < 16 && 3 <= len <= 255
    requires v == 16 * h + low || v == 16 * h + low + 65536 * len
    ensures v % 256 + 256 * (v / 256 % 256) == 16 * h + low && v % 256 % 16 == low
    ensures v == 16 * h + low + 65536 * len ==> v / 256 / 256 % 256 == len
    ensures BytesOf(v, 2) == [v % 256, v / 256 % 256] && BytesOf(v, 3) == [v % 256, v / 256 % 256, v / 256 / 256 % 256]
  {
    assert BytesOf(v / 256 / 256, 0) == [];
    assert BytesOf(v / 256 / 256, 1) == [v / 256 / 256 % 256];
    assert BytesOf(v / 256, 2) == [v / 256 % 256] + BytesOf(v / 256 / 256, 1);
    assert BytesOf(v / 256, 1) == [v / 256 % 256] + BytesOf(v / 256 / 256, 0);
  }
}
