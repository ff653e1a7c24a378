/** The layers that enigma2 puts around the cipher machine. */
module Enigma2Spec {
  import opened Bits
  import opened Bytes
  import opened EnigmaSpec

  function Reversed<T>(s: seq<T>): (r: seq<T>)
    ensures |r| == |s| && forall i :: 0 <= i < |r| ==> r[i] == s[|s| - 1 - i]
  {
    seq(|s|, i requires 0 <= i < |s| => s[|s| - 1 - i])
  }

  lemma ReversedTwice<T>(s: seq<T>)
    ensures Reversed(Reversed(s)) == s
  {
  }

  /** Every byte is combined with the result before it. */
  function Chained(s: seq<byte>): (r: seq<byte>)
    ensures |r| == |s|
  {
    if |s| < 2 then s
    else
      var r := Chained(s[..|s| - 1]);
      r + [Xor8(s[|s| - 1], r[|s| - 2])]
  }

  /** r[i] is chained from s. */
  predicate Link(s: seq<byte>, r: seq<byte>, i: nat)
    requires i < |s| == |r|
  {
    r[i] == if i == 0 then s[0] else Xor8(s[i], r[i - 1])
  }

  lemma {:induction false} ChainedAt(s: seq<byte>, i: nat)
    requires i < |s|
    ensures Link(s, Chained(s), i)
    decreases |s|
  {
    if |s| >= 2 && i < |s| - 1 { ChainedAt(s[..|s| - 1], i); }
  }

  /** Only one sequence is chained from s. */
  lemma {:induction false} ChainedOnly(s: seq<byte>, r: seq<byte>, i: nat)
    requires |r| == |s| && i < |s| && forall j :: 0 <= j < |s| ==> Link(s, r, j)
    ensures r[i] == Chained(s)[i]
    decreases i
  {
    ChainedAt(s, i);
    assert Link(s, r, i);
    if i > 0 { ChainedOnly(s, r, i - 1); }
  }

  /** Every byte but the last is combined with the one after it. */
  function Unchained(s: seq<byte>): (r: seq<byte>)
    ensures |r| == |s|
    ensures forall i :: 0 <= i < |s| ==> r[i] == if i == |s| - 1 then s[i] else Xor8(s[i], s[i + 1])
  {
    seq<byte>(|s|, i requires 0 <= i < |s| => if i == |s| - 1 then s[i] else Xor8(s[i], s[i + 1]))
  }

  /** Backwards, the chain is undone. */
  lemma UnchainChained(s: seq<byte>)
    ensures Unchained(Reversed(Chained(s))) == Reversed(s)
  {
    hide Chained;
    var c := Chained(s);
    var r := Reversed(c);
    forall i | 0 <= i < |s| ensures Unchained(r)[i] == Reversed(s)[i] {
      var k := |s| - 1 - i;
      ChainedAt(s, k);
      if k > 0 {
        Xor8Twice(s[k], c[k - 1]);
        assert r[i] == c[k] && r[i + 1] == c[k - 1];
      }
    }
  }

  lemma ChainUnchained(s: seq<byte>)
    ensures Chained(Reversed(Unchained(Reversed(s)))) == s
  {
    var u := Reversed(Unchained(Reversed(s)));
    forall j | 0 <= j < |s| ensures Link(u, s, j) {
      if j > 0 { Xor8Twice(s[j], s[j - 1]); }
    }
    forall i | 0 <= i < |s| ensures s[i] == Chained(u)[i] { ChainedOnly(u, s, i); }
  }

  /** How many bytes str_rotor exchanges. */
  function Exchanged(n: nat, rotor: nat): (l: nat)
    requires rotor <= n
  {
    Min(rotor, n - rotor)
  }

  /** The bytes at the beginning and those from `rotor` on are exchanged, as many as there are on both sides. */
  function Rotated(s: seq<byte>, rotor: nat): (r: seq<byte>)
    requires rotor <= |s|
    ensures |r| == |s|
  {
    var l := Exchanged(|s|, rotor);
    s[rotor..rotor + l] + s[l..rotor] + s[..l] + s[rotor + l..]
  }

  lemma RotatedTwice(s: seq<byte>, rotor: nat)
    requires rotor <= |s|
    ensures Rotated(Rotated(s, rotor), rotor) == s
  {
    var l := Exchanged(|s|, rotor);
    var a, b, c, d := s[..l], s[l..rotor], s[rotor..rotor + l], s[rotor + l..];
    var r := Rotated(s, rotor);
    assert r == c + b + a + d;
    assert r[..l] == c && r[l..rotor] == b && r[rotor..rotor + l] == a && r[rotor + l..] == d;
    assert s == a + b + c + d;
  }

  // ---------- the whole cipher ----------

  function RevEncrypted(t: Wheels, s: seq<byte>): (r: seq<byte>)
    requires Wired(t)
    ensures |r| == |s|
  {
    Chained(Reversed(Encrypted(t, s)))
  }

  function RevDecrypted(t: Wheels, s: seq<byte>): (r: seq<byte>)
    requires Wired(t)
    ensures |r| == |s|
  {
    Decrypted(t, Unchained(Reversed(s)))
  }

  lemma RevInverts(t: Wheels, s: seq<byte>)
    requires Wired(t)
    ensures RevDecrypted(t, RevEncrypted(t, s)) == s && RevEncrypted(t, RevDecrypted(t, s)) == s
  {
    var e := Reversed(Encrypted(t, s));
    UnchainChained(e);
    ReversedTwice(Encrypted(t, s));
    CiphersInvert(t, s);
    CiphersInvert(t, Unchained(Reversed(s)));
    ChainUnchained(s);
    hide Encrypted, Decrypted, Chained, Unchained, Reversed;
  }

  function Encrypted2(t: Wheels, r: Wheels, crc: nat, s: seq<byte>): (c: seq<byte>)
    requires Wired(t) && Wired(r) && s != []
    ensures |c| == |s|
  {
    Enigma(r, Rotated(RevEncrypted(t, s), crc % |s|))
  }

  function Decrypted2(t: Wheels, r: Wheels, crc: nat, s: seq<byte>): (c: seq<byte>)
    requires Wired(t) && Wired(r) && s != []
    ensures |c| == |s|
  {
    RevDecrypted(t, Rotated(Enigma(r, s), crc % |s|))
  }

  /** Decryption undoes encryption, and encryption decryption, whatever the checksum. */
  lemma Cipher2Inverts(t: Wheels, r: Wheels, crc: nat, s: seq<byte>)
    requires Wired(t) && Wired(r) && s != []
    ensures Decrypted2(t, r, crc, Encrypted2(t, r, crc, s)) == s
    ensures Encrypted2(t, r, crc, Decrypted2(t, r, crc, s)) == s
  {
    var e := RevEncrypted(t, s);
    EnigmaTwice(r, Rotated(e, crc % |s|));
    RotatedTwice(e, crc % |s|);
    RevInverts(t, s);
    var d := Enigma(r, s);
    RevInverts(t, Rotated(d, crc % |s|));
    RotatedTwice(d, crc % |s|);
    EnigmaTwice(r, s);
    hide RevEncrypted, RevDecrypted, Rotated, Enigma, Wired;
  }
}
