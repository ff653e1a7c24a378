/** enigma2: two machines, a reversal, a chain and an exchange of blocks, in place. */
module Enigma2 {
  import opened Bits
  import opened Bytes
  import opened EnigmaSpec
  import opened EnigmaSetup
  import opened Enigma2Spec
  import E = Enigma

  /** b_revers */
  method Reverse(buf: array<byte>)
    modifies buf
    ensures buf[..] == Reversed(old(buf[..]))
  {
    if buf.Length < 2 { return; }
    ghost var s := buf[..];
    var p, p1 := 0, buf.Length - 1;
    while p1 > p
      invariant 0 <= p <= p1 + 1 && p + p1 == buf.Length - 1
      invariant forall i :: 0 <= i < p || p1 < i < buf.Length ==> buf[i] == s[buf.Length - 1 - i]
      invariant forall i :: p <= i <= p1 ==> buf[i] == s[i]
    {
      buf[p1], buf[p] := buf[p], buf[p1];
      p, p1 := p + 1, p1 - 1;
    }
  }

  /** The running exclusive or of enigma_rev. */
  method Chain(buf: array<byte>)
    modifies buf
    ensures buf[..] == Chained(old(buf[..]))
  {
    ghost var s := buf[..];
    var i := 0;
    while i < buf.Length - 1
      invariant 0 <= i <= buf.Length && (buf.Length > 0 ==> i < buf.Length)
      invariant forall j :: i < j < buf.Length ==> buf[j] == s[j]
      invariant forall j :: 0 <= j <= i < buf.Length ==> Link(s, buf[..], j)
    {
      ghost var b := buf[..];
      buf[i + 1] := Xor8(buf[i + 1], buf[i]);
      StillLinked(s, b, buf[..], i);
      i := i + 1;
    }
    ghost var r := buf[..];
    forall j | 0 <= j < |s| ensures r[j] == Chained(s)[j] { ChainedOnly(s, r, j); }
  }

  lemma StillLinked(s: seq<byte>, b: seq<byte>, b': seq<byte>, i: nat)
    requires |b| == |s| && i + 1 < |s| && s[i + 1] == b[i + 1] && b' == b[i + 1 := Xor8(b[i + 1], b[i])]
    requires forall j :: 0 <= j <= i ==> Link(s, b, j)
    ensures forall j :: 0 <= j <= i + 1 ==> Link(s, b', j)
  {
    forall j | 0 <= j <= i ensures Link(s, b', j) { assert Link(s, b, j); }
  }

  /** The exclusive or of rev_enigma. */
  method Unchain(buf: array<byte>)
    modifies buf
    ensures buf[..] == Unchained(old(buf[..]))
  {
    ghost var s := buf[..];
    var i := 0;
    while i < buf.Length - 1
      invariant 0 <= i <= buf.Length && (buf.Length > 0 ==> i < buf.Length)
      invariant forall j :: i <= j < buf.Length ==> buf[j] == s[j]
      invariant forall j :: 0 <= j < i ==> buf[j] == Unchained(s)[j]
    {
      buf[i] := Xor8(buf[i], buf[i + 1]);
      i := i + 1;
    }
  }

  /** Two bytes are exchanged by three exclusive ors. */
  method Exchange(str: array<byte>, p: nat, p1: nat)
    requires p < str.Length && p1 < str.Length && p != p1
    modifies str
    ensures str[..] == old(str[..])[p := old(str[p1])][p1 := old(str[p])]
  {
    Xor8Twice(str[p], str[p1]);
    str[p] := Xor8(str[p], str[p1]);
    str[p1] := Xor8(str[p1], str[p]);
    str[p] := Xor8(str[p], str[p1]);
  }

  /** The first i bytes of the two blocks have been exchanged. */
  ghost predicate Halfway(s: seq<byte>, x: seq<byte>, rotor: nat, i: nat)
    requires i <= rotor && rotor + i <= |s| == |x|
  {
    x[..i] == s[rotor..rotor + i] && x[i..rotor] == s[i..rotor] &&
    x[rotor..rotor + i] == s[..i] && x[rotor + i..] == s[rotor + i..]
  }

  lemma Further(s: seq<byte>, x: seq<byte>, x': seq<byte>, rotor: nat, i: nat)
    requires i < rotor && rotor + i < |s| == |x| && Halfway(s, x, rotor, i)
    requires x' == x[rotor + i := x[i]][i := x[rotor + i]]
    ensures Halfway(s, x', rotor, i + 1)
  {
    assert x[i] == x[i..rotor][0] && x[rotor + i] == x[rotor + i..][0];
    assert s[rotor..rotor + i + 1] == s[rotor..rotor + i] + [s[rotor + i]];
    assert s[..i + 1] == s[..i] + [s[i]];
    assert x'[..i + 1] == x[..i] + [x[rotor + i]];
    assert x'[rotor..rotor + i + 1] == x[rotor..rotor + i] + [x[i]];
    assert x'[i + 1..rotor] == x[i..rotor][1..] && s[i + 1..rotor] == s[i..rotor][1..];
    assert x'[rotor + i + 1..] == x[rotor + i..][1..] && s[rotor + i + 1..] == s[rotor + i..][1..];
  }

  lemma AllExchanged(s: seq<byte>, x: seq<byte>, rotor: nat)
    requires rotor <= |s| == |x| && Halfway(s, x, rotor, Exchanged(|s|, rotor))
    ensures x == Rotated(s, rotor)
  {
    var l := Exchanged(|s|, rotor);
    assert x == x[..l] + x[l..rotor] + x[rotor..rotor + l] + x[rotor + l..];
  }

  /** str_rotor */
  method StrRotor(str: array<byte>, rotor: nat)
    requires rotor <= str.Length
    modifies str
    ensures str[..] == Rotated(old(str[..]), rotor)
  {
    ghost var s := str[..];
    AllExchangedAtOnce(s, rotor);
    if rotor == 0 { return; }
    var l := Min(rotor, str.Length - rotor);
    for i := 0 to l
      invariant Halfway(s, str[..], rotor, i)
    {
      hide Halfway;
      ghost var x := str[..];
      Exchange(str, rotor + i, i);
      Further(s, x, str[..], rotor, i);
    }
    AllExchanged(s, str[..], rotor);
  }

  lemma AllExchangedAtOnce(s: seq<byte>, rotor: nat)
    ensures rotor == 0 ==> Rotated(s, rotor) == s
  {
  }

  /** enigma_rev */
  method EnigmaRev(ep: E.Enigma, buf: array<byte>)
    requires ep.Valid() && buf !in {ep.t1, ep.t2, ep.t3}
    modifies buf
    ensures ep.Valid() && ep.Wheels() == old(ep.Wheels()) && buf[..] == RevEncrypted(ep.Wheels(), old(buf[..]))
  {
    hide Wired, Reversed, Chained, Encrypted;
    ep.Encrypt(buf);
    Reverse(buf);
    Chain(buf);
  }

  /** rev_enigma */
  method RevEnigma(ep: E.Enigma, buf: array<byte>)
    requires ep.Valid() && buf !in {ep.t1, ep.t2, ep.t3}
    modifies buf
    ensures ep.Valid() && ep.Wheels() == old(ep.Wheels()) && buf[..] == RevDecrypted(ep.Wheels(), old(buf[..]))
  {
    hide Wired, Reversed, Unchained, Decrypted;
    Reverse(buf);
    Unchain(buf);
    ep.Decrypt(buf);
  }

  /** The key of the second machine. */
  ghost function SecondKey(t: Wheels, key: seq<byte>): (k: seq<byte>)
    requires Wired(t)
    ensures key != [] ==> k != []
  {
    EnigmaSpec.Encrypted(t, Reversed(if |key| > 256 then key[..256] else key))
  }

  method MakeSecondKey(t: E.Enigma, key: seq<byte>) returns (k: seq<byte>)
    requires t.Valid() && key != []
    ensures t.Valid() && k == SecondKey(t.Wheels(), key)
  {
    hide Wired;
    var len := Min(|key|, 256);
    var rk := new byte[len];
    CopyRaw(rk, key, len);
    assert rk[..] == rk[..len] == if |key| > 256 then key[..256] else key;
    Reverse(rk);
    t.Encrypt(rk);
    k := rk[..];
  }

  lemma SecondKeySome(t: E.Enigma, key: seq<byte>)
    requires t.Valid() && key != []
    ensures Wired(t.Wheels()) && SecondKey(t.Wheels(), key) != []
  {
  }

  ghost function AllWheels(w: Wheels): seq<byte> { w.t1 + w.t2 + w.t3 }

  class Enigma2 {
    const t: E.Enigma
    const r: E.Enigma
    const crc: nat

    ghost function Repr(): set<object> { {t.t1, t.t2, t.t3, r.t1, r.t2, r.t3} }

    ghost predicate Valid()
      reads Repr()
    {
      t.Valid() && r.Valid()
    }

    /** enigma2_init, with whatever checksum of the wheels: the second machine is that of the key, or its first 256 bytes,
        reversed and encrypted by the first. */
    constructor (key: seq<byte>, crc: seq<byte> -> nat, sum: (seq<byte>, seq<byte>) -> nat)
      requires key != []
      ensures Valid() && fresh(Repr()) && SetUp(t.Wheels(), key, crc(key))
      ensures var rk := SecondKey(t.Wheels(), key); SetUp(r.Wheels(), rk, crc(rk))
      ensures this.crc == sum(AllWheels(t.Wheels()), AllWheels(r.Wheels())) % 0x8000_0000
    {
      hide *;
      var t := new E.Enigma(key, crc);
      var rk := MakeSecondKey(t, key);
      SecondKeySome(t, key);
      var r := new E.Enigma(rk, crc);
      this.t := t;
      this.r := r;
      this.crc := sum(t.t1[..] + t.t2[..] + t.t3[..], r.t1[..] + r.t2[..] + r.t3[..]) % 0x8000_0000;
      new;
      BothValid();
    }

    lemma BothValid()
      requires t.Valid() && r.Valid()
      ensures Valid() && AllWheels(t.Wheels()) == t.t1[..] + t.t2[..] + t.t3[..]
      ensures AllWheels(r.Wheels()) == r.t1[..] + r.t2[..] + r.t3[..] && Repr() == {t.t1, t.t2, t.t3, r.t1, r.t2, r.t3}
    {
    }

    /** enigma2_encrypt */
    method Encrypt(buf: array<byte>)
      requires Valid() && buf !in Repr()
      modifies buf
      ensures Valid() && t.Wheels() == old(t.Wheels()) && r.Wheels() == old(r.Wheels())
      ensures old(buf[..]) == [] ==> buf[..] == []
      ensures old(buf[..]) != [] ==> buf[..] == Encrypted2(t.Wheels(), r.Wheels(), crc, old(buf[..]))
    {
      if buf.Length == 0 { return; }
      hide Wired, Rotated, RevEncrypted, Enigma;
      EnigmaRev(t, buf);
      StrRotor(buf, crc % buf.Length);
      r.Run(buf);
    }

    /** enigma2_decrypt */
    method Decrypt(buf: array<byte>)
      requires Valid() && buf !in Repr()
      modifies buf
      ensures Valid() && t.Wheels() == old(t.Wheels()) && r.Wheels() == old(r.Wheels())
      ensures old(buf[..]) == [] ==> buf[..] == []
      ensures old(buf[..]) != [] ==> buf[..] == Decrypted2(t.Wheels(), r.Wheels(), crc, old(buf[..]))
    {
      if buf.Length == 0 { return; }
      hide Wired, Rotated, RevDecrypted, Enigma;
      r.Run(buf);
      StrRotor(buf, crc % buf.Length);
      RevEnigma(t, buf);
    }
  }

  /** From key setup to decryption: for every key and buffer, the text comes back. */
  method RoundTrip(key: seq<byte>, crc: seq<byte> -> nat, sum: (seq<byte>, seq<byte>) -> nat, buf: array<byte>)
    requires key != []
    modifies buf
    ensures buf[..] == old(buf[..])
  {
    ghost var s := buf[..];
    var ep := new Enigma2(key, crc, sum);
    ep.Encrypt(buf);
    ep.Decrypt(buf);
    if s != [] { Cipher2Inverts(ep.t.Wheels(), ep.r.Wheels(), ep.crc, s); }
  }
}
