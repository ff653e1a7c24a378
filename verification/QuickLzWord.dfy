/** The outer layer of a QuickLZ stream: little-endian numbers and control words of 31 flags. */
module QuickLzWord {
  import opened Bits
  import opened Bytes
  import opened LittleEndian

  // ---------- little-endian numbers ----------

  method FastRead(a: seq<byte>, i: nat, numbytes: nat) returns (l: nat)
    requires i + numbytes <= |a|
    ensures l == LE(a[i..i + numbytes])
  {
    l := 0;
    for j := 0 to numbytes
      invariant l == LE(a[i..i + j])
    {
      LESnoc(a[i..i + j], a[i + j]);
      assert a[i..i + j] + [a[i + j]] == a[i..i + j + 1];
      l := l + Shl8(a[i + j], j);
    }
  }

  method FastWrite(a: array<byte>, i: nat, value: nat, numbytes: nat)
    requires i + numbytes <= a.Length
    modifies a
    ensures a[..i] == old(a[..i]) && a[i + numbytes..] == old(a[i + numbytes..])
    ensures a[i..i + numbytes] == BytesOf(value, numbytes)
  {
    for j := 0 to numbytes
      invariant a[..i] == old(a[..i]) && a[i + numbytes..] == old(a[i + numbytes..])
      invariant forall k :: i <= k < i + j ==> a[k] == BytesOf(value, numbytes)[k - i]
    {
      BytesOfAt(value, numbytes, j);
      a[i + j] := Shr8(value, j) % 256;
    }
  }

  // ---------- units and control words ----------

  /** A token as it stands in the stream: its flag in the control word, and its bytes. */
  datatype Unit = Unit(flag: bool, bytes: seq<byte>)

  function Bit(f: bool): nat { if f then 1 else 0 }

  /** The control word when `left` flags of its 31 are still to be taken; the stop bit ends them. */
  function Word(us: seq<Unit>, left: nat): (w: nat)
    ensures w > 0
    decreases left
  {
    if left == 0 then 1
    else if us == [] then 2 * Word([], left - 1)
    else Bit(us[0].flag) + 2 * Word(us[1..], left - 1)
  }

  /** The stream from a point where `left` flags of the current control word are still to be taken. */
  function Rest(us: seq<Unit>, left: nat): (s: seq<byte>)
    decreases |us|, if left == 0 then 1 else 0
  {
    if us == [] then []
    else if left == 0 then BytesOf(Word(us, 31), 4) + Rest(us, 31)
    else us[0].bytes + Rest(us[1..], left - 1)
  }

  function Bodies(us: seq<Unit>): (s: seq<byte>) {
    if us == [] then [] else Bodies(us[..|us| - 1]) + us[|us| - 1].bytes
  }

  lemma {:induction false} WordBound(us: seq<Unit>, left: nat)
    ensures Pow2(left) <= Word(us, left) < 2 * Pow2(left)
    decreases left
  {
    if left > 0 {
      WordBound(if us == [] then [] else us[1..], left - 1);
    }
  }

  lemma WordFits(us: seq<Unit>)
    ensures Word(us, 31) < 0x1_0000_0000
    ensures LE(BytesOf(Word(us, 31), 4)) == Word(us, 31)
  {
    WordBound(us, 31);
    Pow31();
    assert Shl8(1, 4) == 0x1_0000_0000 by {
      assert Shl8(1, 2) == 65536;
      assert Shl8(1, 3) == 0x100_0000;
    }
    LEBytesOf(Word(us, 31), 4);
  }

  // ---------- the decoder's side: taking one flag ----------

  lemma TakeFlag(us: seq<Unit>, left: nat)
    requires us != [] && left > 0
    ensures (Word(us, left) % 2 == 1) == us[0].flag
    ensures Word(us, left) / 2 == Word(us[1..], left - 1)
    ensures Rest(us, left) == us[0].bytes + Rest(us[1..], left - 1)
  {
  }

  lemma Refill(us: seq<Unit>)
    requires us != []
    ensures Rest(us, 0) == BytesOf(Word(us, 31), 4) + Rest(us, 31)
    ensures LE(BytesOf(Word(us, 31), 4)) == Word(us, 31)
    ensures Word(us, 0) == 1
  {
    WordFits(us);
  }

  /** A control word is used up exactly when it has become 1. */
  lemma UsedUp(us: seq<Unit>, left: nat)
    ensures (Word(us, left) == 1) == (left == 0)
  {
  }

  // ---------- the encoder's side: complete groups and the group being filled ----------

  /** Flags of the group being filled, first flag lowest. */
  function Flags(us: seq<Unit>): nat {
    if us == [] then 0 else Flags(us[..|us| - 1]) + Bit(us[|us| - 1].flag) * Pow2(|us| - 1)
  }

  /** cword_val while the group is being filled: the flags at the top, below them the marker and zeros. */
  function Filling(us: seq<Unit>): nat
    requires |us| <= 31
  {
    Pow2(31 - |us|) * (1 + 2 * Flags(us))
  }

  lemma Halve(p: nat, g: nat)
    ensures 2 * p * g == 2 * (p * g) && 2 * p * g / 2 == p * g && 2 * p * g % 2 == 0
  {
    assert 2 * p * g == 2 * (p * g);
  }

  lemma Pow31()
    ensures Pow2(31) == 0x8000_0000
  {
    assert Pow2(8) == 256;
    PowAdd(8, 8);
    PowAdd(16, 8);
    PowAdd(24, 7);
  }

  lemma {:induction false} FlagsSnoc(us: seq<Unit>, u: Unit)
    ensures Flags(us + [u]) == Flags(us) + Bit(u.flag) * Pow2(|us|)
  {
    assert (us + [u])[..|us|] == us;
  }

  lemma PutFlag(us: seq<Unit>, u: Unit)
    requires |us| < 31
    ensures Filling(us + [u]) == Filling(us) / 2 + (if u.flag then 0x8000_0000 else 0)
  {
    var n := |us|;
    FlagsSnoc(us, u);
    PowAdd(30 - n, n + 1);
    Pow31();
    assert Pow2(31 - n) == 2 * Pow2(30 - n) && Pow2(n + 1) == 2 * Pow2(n);
    PutFlagAt(Pow2(30 - n), 1 + 2 * Flags(us), Pow2(n + 1), u.flag);
    hide Pow2, Flags;
  }

  lemma PutFlagAt(p: nat, g: nat, q: nat, f: bool)
    ensures p * (g + Bit(f) * q) == 2 * p * g / 2 + (if f then p * q else 0)
  {
    Halve(p, g);
    if f { assert p * (g + q) == p * g + p * q; } else { assert p * (g + 0) == p * g; }
  }

  /** The low bit of cword_val tells when the group is full. */
  lemma FullGroup(us: seq<Unit>)
    requires |us| <= 31
    ensures (Filling(us) % 2 == 1) == (|us| == 31)
    ensures |us| == 0 ==> Filling(us) == 0x8000_0000
  {
    if |us| == 0 { Pow31(); }
    if |us| < 31 {
      assert Pow2(31 - |us|) == 2 * Pow2(30 - |us|);
      Halve(Pow2(30 - |us|), 1 + 2 * Flags(us));
    }
    hide Pow2, Flags;
  }

  /** Word, seen from the encoder: the flags and the stop bit. */
  lemma {:induction false} WordOfGroup(us: seq<Unit>, left: nat)
    requires |us| <= left
    ensures Word(us, left) == Flags(us) + Pow2(left)
    decreases |us|
  {
    if us == [] {
      EmptyWord(left);
    } else {
      var init, u := us[..|us| - 1], us[|us| - 1];
      WordOfGroup(init, left);
      WordSnoc(init, u, left);
      assert init + [u] == us;
    }
  }

  lemma {:induction false} EmptyWord(left: nat)
    ensures Word([], left) == Pow2(left)
    decreases left
  {
    if left > 0 { EmptyWord(left - 1); }
  }

  lemma {:induction false} WordSnoc(us: seq<Unit>, u: Unit, left: nat)
    requires |us| < left
    ensures Word(us + [u], left) == Word(us, left) + Bit(u.flag) * Pow2(|us|)
    decreases left
  {
    if us == [] {
      assert ([u])[1..] == [];
      assert us + [u] == [u];
    } else {
      WordSnoc(us[1..], u, left - 1);
      assert (us + [u])[1..] == us[1..] + [u];
    }
  }

  /** Shifting the marker down to bit 0 and once more, with the stop bit set, gives the control word. */
  method FinishWord(cwordVal: nat, ghost us: seq<Unit>) returns (w: nat)
    requires |us| <= 31 && cwordVal == Filling(us)
    ensures w == Word(us, 31)
  {
    var v := cwordVal;
    ghost var k: nat := 31 - |us|;
    ghost var g := 1 + 2 * Flags(us);
    while v % 2 != 1
      invariant v == Pow2(k) * g
      decreases k
    {
      if k == 0 { assert false; }
      Halve(Pow2(k - 1), g);
      assert Pow2(k) == 2 * Pow2(k - 1);
      v := v / 2;
      k := k - 1;
    }
    if k > 0 { Halve(Pow2(k - 1), g); }
    assert v == g;
    WordOfGroup(us, 31);
    Pow31();
    hide Pow2, Flags, Word;
    w := v / 2 + 0x8000_0000;
  }

  // ---------- appending to the stream ----------

  lemma {:induction false} RestOfGroup(us: seq<Unit>, left: nat)
    requires |us| <= left
    ensures Rest(us, left) == Bodies(us)
    decreases |us|
  {
    if us != [] {
      var init, u := us[..|us| - 1], us[|us| - 1];
      RestOfGroup(init, left);
      RestSnoc(init, u, left);
      assert init + [u] == us;
    }
  }

  lemma {:induction false} RestSnoc(us: seq<Unit>, u: Unit, left: nat)
    requires |us| < left
    ensures Rest(us + [u], left) == Rest(us, left) + u.bytes
    decreases |us|
  {
    if us == [] {
      assert us + [u] == [u];
      assert ([u])[1..] == [];
    } else {
      RestSnoc(us[1..], u, left - 1);
      assert (us + [u])[1..] == us[1..] + [u];
    }
  }

  /** Only the first `left` units decide the rest of a control word. */
  lemma {:induction false} WordPrefix(us: seq<Unit>, vs: seq<Unit>, left: nat)
    requires left <= |us|
    ensures Word(us + vs, left) == Word(us, left)
    decreases left
  {
    if left > 0 {
      WordPrefix(us[1..], vs, left - 1);
      assert (us + vs)[1..] == us[1..] + vs;
    }
  }

  lemma ConcatAssoc<T>(a: seq<T>, b: seq<T>, c: seq<T>)
    ensures a + b + c == a + (b + c)
  {
  }

  /** A complete number of groups can be followed by anything. */
  lemma {:induction false} RestAppend(us: seq<Unit>, vs: seq<Unit>, left: nat, groups: nat)
    requires |us| == left + 31 * groups
    ensures Rest(us + vs, left) == Rest(us, left) + Rest(vs, 0)
    decreases |us|, if left == 0 then 1 else 0
  {
    if us == [] {
      assert us + vs == vs;
    } else if left == 0 {
      WordPrefix(us, vs, 31);
      RestAppend(us, vs, 31, groups - 1);
      ConcatAssoc(BytesOf(Word(us, 31), 4), Rest(us, 31), Rest(vs, 0));
    } else {
      assert (us + vs)[1..] == us[1..] + vs;
      RestAppend(us[1..], vs, left - 1, groups);
      ConcatAssoc(us[0].bytes, Rest(us[1..], left - 1), Rest(vs, 0));
    }
  }

  /** The whole stream: complete groups, and the group being filled with its control word. */
  lemma WholeStream(done: seq<Unit>, cur: seq<Unit>, groups: nat)
    requires |done| == 31 * groups && 0 < |cur| <= 31
    ensures Rest(done + cur, 0) == Rest(done, 0) + (BytesOf(Word(cur, 31), 4) + Bodies(cur))
  {
    RestAppend(done, cur, 0, groups);
    RestOfGroup(cur, 31);
  }
}
