/** The cipher machine as the code runs it: key setup, and the ciphers in place. */
module Enigma {
  import opened Bits
  import opened Bytes
  import opened EnigmaSpec
  import opened EnigmaSetup

  // ---------- key setup: the rotor ----------

  /** t1 is a permutation, `inverse` its inverse. */
  lemma Swapped(t1: seq<byte>, inverse: seq<byte>, k: byte, ic: byte)
    requires Inverse(t1, inverse)
    ensures Inverse(t1[k := t1[ic]][ic := t1[k]], inverse[t1[ic] := k][t1[k] := ic])
  {
    var u, v := t1[k := t1[ic]][ic := t1[k]], inverse[t1[ic] := k][t1[k] := ic];
    forall i | 0 <= i < 256 ensures v[u[i]] == i { }
    forall i | 0 <= i < 256 ensures u[v[i]] == i { }
  }

  lemma TurnedWheel(ic: int)
    ensures Inverse(Turned(ic), Turned(-ic))
  {
    var t1, t2 := Turned(ic), Turned(-ic);
    forall i | 0 <= i < 256 ensures t2[t1[i]] == i && t1[t2[i]] == i {
      LowBack(i, ic);
    }
  }

  /** An array that undoes t1 on one side, with an inverse known, is that inverse. */
  lemma OnlyInverse(t1: seq<byte>, t2: seq<byte>, inverse: seq<byte>)
    requires Inverse(t1, inverse) && |t2| == 256 && forall i :: 0 <= i < 256 ==> t2[t1[i]] == i
    ensures Inverse(t1, t2)
  {
    forall y | 0 <= y < 256 ensures t1[t2[y]] == y {
      assert t1[inverse[y]] == y && t2[t1[inverse[y]]] == inverse[y];
    }
  }

  // ---------- key setup: the reflector ----------

  /** How many of the positions below k are not yet joined. */
  function Unjoined(t3: seq<byte>, k: nat): (n: nat)
    requires k <= |t3|
    ensures n <= k
  {
    if k == 0 then 0 else Unjoined(t3, k - 1) + if t3[k - 1] == 0 then 1 else 0
  }

  /** Joining a position counts down by one, if it is below k. */
  lemma {:induction false} Join(t3: seq<byte>, k: nat, j: nat, v: byte)
    requires k <= |t3| && j < |t3| && t3[j] == 0 && v != 0
    ensures Unjoined(t3[j := v], k) == if j < k then Unjoined(t3, k) - 1 else Unjoined(t3, k)
    decreases k
  {
    if k > 0 { Join(t3, k - 1, j, v); }
  }

  lemma {:induction false} JoinAbove(t3: seq<byte>, k: nat, j: nat, v: byte)
    requires k <= j < |t3|
    ensures Unjoined(t3[j := v], k) == Unjoined(t3, k)
    decreases k
  {
    if k > 0 { JoinAbove(t3, k - 1, j, v); }
  }

  /** Some position is unjoined if the count says so. */
  lemma {:induction false} SomeUnjoined(t3: seq<byte>, k: nat) returns (j: nat)
    requires k <= |t3| && Unjoined(t3, k) > 0
    ensures j < k && t3[j] == 0
    decreases k
  {
    if t3[k - 1] == 0 { j := k - 1; } else { j := SomeUnjoined(t3, k - 1); }
  }

  lemma {:induction false} AllUnjoined(t3: seq<byte>, k: nat)
    requires k <= |t3| && forall j :: 0 <= j < |t3| ==> t3[j] == 0
    ensures Unjoined(t3, k) == k
    decreases k
  {
    if k > 0 { AllUnjoined(t3, k - 1); }
  }

  /** The positions from k on are joined in pairs, among themselves and with some below; those below that are not joined
      have a zero, and their number is even. */
  predicate Joined(t3: seq<byte>, k: nat) {
    |t3| == 256 && k <= 256 && Unjoined(t3, k) % 2 == 0 &&
    (forall j :: 0 <= j < 256 && (j >= k || t3[j] != 0) ==> t3[j] != j && t3[t3[j]] == j) &&
    (forall j :: 0 <= j < k && t3[j] != 0 ==> t3[j] >= k)
  }

  /** The highest position was joined before. */
  lemma JoinedBefore(t3: seq<byte>, k: nat)
    requires Joined(t3, k + 1) && t3[k] != 0
    ensures Joined(t3, k)
  {
  }

  /** An unjoined position leaves an odd number of others, so one to join it with. */
  lemma OddRest(t3: seq<byte>, k: nat)
    requires Joined(t3, k + 1) && t3[k] == 0
    ensures k > 0 && Unjoined(t3, k) % 2 == 1
  {
  }

  lemma NewPair(t3: seq<byte>, k: byte, ic: byte)
    requires Joined(t3, k + 1) && t3[k] == 0 && ic < k && t3[ic] == 0
    ensures Joined(t3[k := ic][ic := k], k)
  {
    var u := t3[k := ic];
    JoinAbove(t3, k, k, ic);
    Join(u, k, ic, k);
    hide Unjoined;
    var w := u[ic := k];
    forall j | 0 <= j < 256 && (j >= k || w[j] != 0) ensures w[j] != j && w[w[j]] == j {
      if j != k && j != ic { assert t3[j] == w[j]; }
    }
  }

  // ---------- the machine in memory ----------

  lemma RoundAbout(ic: nat, k: nat)
    requires ic < k
    ensures (ic + 1) % k == if ic + 1 == k then 0 else ic + 1
  {
    if ic + 1 < k { assert (ic + 1) / k == 0; }
  }

  lemma RingStarts(start: nat, k: nat)
    requires start < k
    ensures Ring(start, 0, k) == start
  {
    Small(start, k);
  }

  lemma Small(x: nat, k: nat)
    requires x < k
    ensures x % k == x
  {
    if x > 0 { RoundAbout(x - 1, k); }
  }

  lemma RingNext(start: nat, d: nat, k: nat)
    requires k > 0
    ensures Ring(start, d + 1, k) == (Ring(start, d, k) + 1) % k
  {
    ModNext(start + d, k);
  }

  /** Counting on and reducing go together. */
  lemma {:induction false} ModNext(x: nat, k: nat)
    requires k > 0
    ensures (x + 1) % k == (x % k + 1) % k
    decreases x
  {
    var q, r := x / k, x % k;
    assert x == k * q + r;
    if r + 1 < k {
      DivIs(x + 1, k, q, r + 1);
      DivIs(r + 1, k, 0, r + 1);
    } else {
      assert x + 1 == k * (q + 1);
      DivIs(x + 1, k, q + 1, 0);
      DivIs(r + 1, k, 1, 0);
    }
  }

  lemma SameTurn(ic: int, c: nat, total: int)
    requires ic == (c % WORD + total) % 256
    ensures Turned(ic) == Turned(c + total)
  {
    hide Turned;
    forall i | 0 <= i < 256 ensures Turned(ic)[i] == Turned(c + total)[i] { SameLow(i, ic, c, total); }
  }

  lemma SameLow(i: nat, ic: int, c: nat, total: int)
    requires ic == (c % WORD + total) % 256
    ensures Low(i + ic) == Low(i + (c + total))
  {
    var sum := c % WORD + total;
    assert c == WORD * (c / WORD) + c % WORD;
    assert i + (c + total) == i + ic + 256 * (sum / 256 + 0x100_0000 * (c / WORD));
  }

  /** The wheels before anything is drawn. */
  lemma FirstWheels(key: seq<byte>, c: nat, ic: int, t3: seq<byte>)
    requires key != [] && 0 <= ic == (c % WORD + Total(key)) % 256 && |t3| == 256 && forall j :: 0 <= j < 256 ==> t3[j] == 0
    ensures Turned(ic) == RotorAt(key, c, 0) && t3 == ReflectorAt(key, c, 0) && SeedAt(key, c, 0) == c % WORD
    ensures Inverse(Turned(ic), Turned(0 - ic)) && Joined(t3, 256)
  {
    SameTurn(ic, c, Total(key));
    SeedNext(key, c, 0);
    TurnedWheel(ic);
    AllUnjoined(t3, 256);
    hide Inverse, Turned, SeedAt;
  }

  lemma AllJoined(w: Wheels, key: seq<byte>, c: nat)
    requires Inverse(w.t1, w.t2) && Joined(w.t3, 0) && key != []
    requires w.t1 == RotorAt(key, c, 256) && w.t3 == ReflectorAt(key, c, 256)
    ensures Wired(w) && SetUp(w, key, c)
  {
    hide RotorAt, ReflectorAt;
  }

  lemma NextWheels(key: seq<byte>, c: nat, i: nat)
    requires key != [] && i < 256
    ensures RotorAt(key, c, i + 1) == Swap(RotorAt(key, c, i), 255 - i, Draw(key, c, i) % (256 - i))
    ensures ReflectorAt(key, c, i + 1) == Joining(ReflectorAt(key, c, i), 255 - i, Draw(key, c, i))
  {
  }

  class Enigma {
    const t1: array<byte>
    const t2: array<byte>
    const t3: array<byte>

    ghost function Wheels(): Wheels
      reads t1, t2, t3
    {
      EnigmaSpec.Wheels.Wheels(t1[..], t2[..], t3[..])
    }

    ghost predicate Valid()
      reads t1, t2, t3
    {
      t1.Length == t2.Length == t3.Length == 256 && t1 != t2 && t2 != t3 && t1 != t3 && Wired(Wheels())
    }

    /** enigma_init: for every key and every checksum, the wheels are wired, and they are those of the key. */
    constructor (key: seq<byte>, crc: seq<byte> -> nat)
      requires key != []
      ensures Valid() && fresh(t1) && fresh(t2) && fresh(t3) && SetUp(Wheels(), key, crc(key))
    {
      t1 := new byte[256](_ => 0);
      t2 := new byte[256](_ => 0);
      t3 := new byte[256](_ => 0);
      new;
      hide *;
      var seed: nat := crc(key) % WORD;
      var ic := TurnOf(key, seed);
      ghost var back: int := ic;
      FirstTurn(ic);
      FirstWheels(key, crc(key), ic, t3[..]);
      ghost var inverse := Turned(0 - back);
      inverse := DrawWheels(key, seed, crc(key), inverse);
      Invert(inverse);
      AllJoined(Wheels(), key, crc(key));
      Made();
    }

    lemma Made()
      requires t1.Length == t2.Length == t3.Length == 256 && t1 != t2 && t2 != t3 && t1 != t3 && Wired(Wheels())
      ensures Valid()
    {
    }

    /** The exchanges and pairs that are drawn. */
    method DrawWheels(key: seq<byte>, seed0: nat, ghost c: nat, ghost inverse0: seq<byte>) returns (ghost inverse: seq<byte>)
      requires t1.Length == t3.Length == 256 && t1 != t3 && key != [] && seed0 == SeedAt(key, c, 0)
      requires Inverse(t1[..], inverse0) && Joined(t3[..], 256)
      requires t1[..] == RotorAt(key, c, 0) && t3[..] == ReflectorAt(key, c, 0)
      modifies t1, t3
      ensures Inverse(t1[..], inverse) && Joined(t3[..], 0)
      ensures t1[..] == RotorAt(key, c, 256) && t3[..] == ReflectorAt(key, c, 256)
    {
      hide *;
      var k := KeyPart(key);
      var seed := seed0;
      inverse := inverse0;
      for i := 0 to 256
        invariant Inverse(t1[..], inverse) && Joined(t3[..], 256 - i) && seed == SeedAt(key, c, i)
        invariant t1[..] == RotorAt(key, c, i) && t3[..] == ReflectorAt(key, c, i)
      {
        NextWheels(key, c, i);
        var random;
        seed, random := NextDraw(k, i, seed, key, c);
        inverse := SwapStep(255 - i, random, inverse);
        JoinStep(255 - i, random);
      }
    }

    /** If the key is longer than the wheels, its last part is used. */
    method KeyPart(key: seq<byte>) returns (k: seq<byte>)
      requires key != []
      ensures k == LastPart(key)
    {
      k := if |key| > 256 then key[|key| - 256..] else key;
    }

    /** seed = (seed << 1) + bin_key[i % len] on 32 bits, random = (seed & 0x7FFFFFFF) % 65529 */
    method NextDraw(k: seq<byte>, i: nat, seed: nat, ghost key: seq<byte>, ghost c: nat) returns (seed': nat, random: nat)
      requires key != [] && k == LastPart(key) && seed == SeedAt(key, c, i)
      ensures seed' == SeedAt(key, c, i + 1) && random == Draw(key, c, i)
    {
      SeedNext(key, c, i);
      hide SeedAt, LastPart;
      seed' := (2 * seed + Signed(k[i % |k|])) % WORD;
      random := seed' % 0x8000_0000 % 65529;
    }

    /** The first turn of the rotor: the seed and the bytes of the key. */
    method TurnOf(key: seq<byte>, seed: nat) returns (ic: nat)
      ensures ic == (seed + Total(key)) % 256
    {
      var sum: int := seed;
      for i := 0 to |key|
        invariant sum == seed + Total(key[..i])
      {
        assert key[..i + 1][..i] == key[..i];
        sum := sum + Signed(key[i]);
      }
      assert key[..|key|] == key;
      ic := sum % 256;
    }

    method FirstTurn(ic: nat)
      requires t1.Length == t3.Length == 256 && t1 != t3
      modifies t1, t3
      ensures t1[..] == Turned(ic) && forall j :: 0 <= j < 256 ==> t3[j] == 0
    {
      for i := 0 to 256
        invariant forall j :: 0 <= j < i ==> t1[j] == Low(j + ic) && t3[j] == 0
      {
        t1[i] := Low(i + ic);
        t3[i] := 0;
      }
    }

    /** Two places of the rotor are exchanged. */
    method SwapStep(k: nat, random: nat, ghost inverse: seq<byte>) returns (ghost inverse': seq<byte>)
      requires t1.Length == 256 && k < 256 && Inverse(t1[..], inverse)
      modifies t1
      ensures Inverse(t1[..], inverse') && t1[..] == Swap(old(t1[..]), k, random % (k + 1))
    {
      var ic := random % (k + 1);
      ghost var s := t1[..];
      Swapped(s, inverse, k, ic);
      var temp := t1[k];
      t1[k] := t1[ic];
      t1[ic] := temp;
      inverse' := inverse[s[ic] := k][s[k] := ic];
      assert t1[..] == s[k := s[ic]][ic := s[k]];
    }

    /** Position k of the reflector is joined, unless it is already, with the first free one below it from a random one
        on, round and round. */
    method JoinStep(k: byte, random: nat)
      requires t3.Length == 256 && k < 256 && Joined(t3[..], k + 1)
      modifies t3
      ensures Joined(t3[..], k) && t3[..] == Joining(old(t3[..]), k, random)
    {
      ghost var s: seq<byte> := t3[..];
      hide Unjoined, Joined;
      if t3[k] != 0 {
        JoinedBefore(s, k);
        return;
      }
      OddRest(s, k);
      ghost var free := SomeUnjoined(s, k);
      var ic: byte := random % 256 % k;
      ghost var start, d: nat := ic, 0;
      RingStarts(start, k);
      while t3[ic] != 0
        invariant ic < k && t3[..] == s && ic == Ring(start, d, k) && d <= k
        invariant FirstFree(s, k, start, 0) == FirstFree(s, k, start, d)
        invariant d + (if ic <= free then free - ic else free - ic + k) < k
        decreases if ic <= free then free - ic else free - ic + k
      {
        RoundAbout(ic, k);
        RingNext(start, d, k);
        ic := (ic + 1) % k;
        d := d + 1;
      }
      NewPair(s, k, ic);
      t3[k] := ic;
      t3[ic] := k;
      assert t3[..] == s[k := ic][ic := k];
    }

    /** t2 becomes the inverse of t1. */
    method Invert(ghost inverse: seq<byte>)
      requires t1.Length == t2.Length == 256 && t1 != t2 && Inverse(t1[..], inverse)
      modifies t2
      ensures Inverse(t1[..], t2[..])
    {
      ghost var s := t1[..];
      for i := 0 to 256
        invariant t1[..] == s && forall j :: 0 <= j < i ==> t2[t1[j]] == j
      {
        assert forall j :: 0 <= j < i ==> inverse[s[j]] == j && inverse[s[i]] == i;
        t2[t1[i]] := i;
      }
      OnlyInverse(s, t2[..], inverse);
    }

    /** The first settings of the wheels for a buffer of the length. */
    method Settings(len: nat) returns (n1: byte, n2: byte)
      requires Valid()
      ensures n1 == Start1(Wheels(), len) && n2 == Start2(Wheels(), len)
    {
      n2 := if len % 2 == 0 then t1[len / 512 % 256] else t2[len / 512 % 256];
      n1 := t3[len / 2 % 256];
    }

    /** The wheels turn by `step`. */
    method Turn(n1: byte, n2: byte, step: nat) returns (m1: byte, m2: byte)
      requires step <= 32
      ensures m1 == Turn1(n1, step) && m2 == Turn2(n1, n2, step)
    {
      var n: nat := n1 + step;
      m2 := n2;
      if n >= 256 {
        n := n % 256;
        var next: nat := n2 + 1;
        if next == 256 { next := 0; }
        m2 := next;
      }
      m1 := n;
    }

    /** One byte of enigma. */
    method One(b: byte, n1: byte, n2: byte) returns (c: byte)
      requires Valid()
      ensures c == Cipher(Wheels(), b, n1, n2)
    {
      c := Low(t2[Low(t3[Low(t1[Low(b + n1)] + n2)] - n2)] - n1);
    }

    /** One byte of enigma_encrypt. */
    method EncryptOne(b: byte, n1: byte, n2: byte) returns (c: byte, step: nat)
      requires Valid()
      ensures c == Cipher(Wheels(), b, n1, n2) && step == Into(Wheels(), b, n1) % 32 + 1
    {
      var x := t1[Low(b + n1)];
      c := Low(t2[Low(t3[Low(x + n2)] - n2)] - n1);
      step := x % 32 + 1;
    }

    /** One byte of enigma_decrypt. */
    method DecryptOne(b: byte, n1: byte, n2: byte) returns (c: byte, step: nat)
      requires Valid()
      ensures var x := Reflect(Wheels(), Into(Wheels(), b, n1), n2); c == Out(Wheels(), x, n1) && step == x % 32 + 1
    {
      var x := t3[Low(t1[Low(b + n1)] + n2)] - n2;
      LowLow(x);
      c := Low(t2[Low(x)] - n1);
      step := x % 32 + 1;
    }

    /** enigma: encrypts and decrypts in place. */
    method Run(buf: array<byte>)
      requires Valid() && buf != t1 && buf != t2 && buf != t3
      modifies buf
      ensures Valid() && Wheels() == old(Wheels()) && buf[..] == EnigmaSpec.Enigma(Wheels(), old(buf[..]))
    {
      ghost var t, s := Wheels(), buf[..];
      var n1, n2 := Settings(buf.Length);
      ghost var r: seq<byte>, done: seq<byte>, rest: seq<byte> := EnigmaSpec.Run(t, s, n1, n2), [], s;
      assert Wired(t) && t3.Length == 256;
      hide *;
      for k := 0 to buf.Length
        invariant Valid() && Wheels() == t && done == buf[..k] && rest == buf[k..]
        invariant r == done + EnigmaSpec.Run(t, rest, n1, n2)
      {
        RunStep(t, r, done, rest, n1, n2);
        var c := One(buf[k], n1, n2);
        buf[k] := c;
        done, rest := done + [c], rest[1..];
        assert done == buf[..k + 1] && rest == buf[k + 1..];
        n1, n2 := Turn(n1, n2, 1);
      }
      AtEnd(t, done, rest, n1, n2);
    }

    /** enigma_encrypt */
    method Encrypt(buf: array<byte>)
      requires Valid() && buf != t1 && buf != t2 && buf != t3
      modifies buf
      ensures Valid() && Wheels() == old(Wheels()) && buf[..] == Encrypted(Wheels(), old(buf[..]))
    {
      ghost var t, s := Wheels(), buf[..];
      var n1, n2 := Settings(buf.Length);
      ghost var r: seq<byte>, done: seq<byte>, rest: seq<byte> := EnigmaSpec.Encrypt(t, s, n1, n2), [], s;
      assert Wired(t) && t3.Length == 256;
      hide *;
      for k := 0 to buf.Length
        invariant Valid() && Wheels() == t && done == buf[..k] && rest == buf[k..]
        invariant r == done + EnigmaSpec.Encrypt(t, rest, n1, n2)
      {
        EncryptStep(t, r, done, rest, n1, n2);
        var c, step := EncryptOne(buf[k], n1, n2);
        buf[k] := c;
        done, rest := done + [c], rest[1..];
        assert done == buf[..k + 1] && rest == buf[k + 1..];
        n1, n2 := Turn(n1, n2, step);
      }
      AtEnd(t, done, rest, n1, n2);
    }

    /** enigma_decrypt */
    method Decrypt(buf: array<byte>)
      requires Valid() && buf != t1 && buf != t2 && buf != t3
      modifies buf
      ensures Valid() && Wheels() == old(Wheels()) && buf[..] == Decrypted(Wheels(), old(buf[..]))
    {
      ghost var t, s := Wheels(), buf[..];
      var n1, n2 := Settings(buf.Length);
      ghost var r: seq<byte>, done: seq<byte>, rest: seq<byte> := EnigmaSpec.Decrypt(t, s, n1, n2), [], s;
      assert Wired(t) && t3.Length == 256;
      hide *;
      for k := 0 to buf.Length
        invariant Valid() && Wheels() == t && done == buf[..k] && rest == buf[k..]
        invariant r == done + EnigmaSpec.Decrypt(t, rest, n1, n2)
      {
        DecryptStep(t, r, done, rest, n1, n2);
        var c, step := DecryptOne(buf[k], n1, n2);
        buf[k] := c;
        done, rest := done + [c], rest[1..];
        assert done == buf[..k + 1] && rest == buf[k + 1..];
        n1, n2 := Turn(n1, n2, step);
      }
      AtEnd(t, done, rest, n1, n2);
    }
  }

  /** The arithmetic of C on a difference that may be negative. */
  lemma LowLow(x: int)
    requires -256 < x < 256
    ensures x % 32 == Low(x) % 32
  {
  }

  lemma RunStep(t: Wheels, r: seq<byte>, done: seq<byte>, rest: seq<byte>, n1: byte, n2: byte)
    requires Wired(t) && rest != [] && r == done + EnigmaSpec.Run(t, rest, n1, n2)
    ensures r == done + [Cipher(t, rest[0], n1, n2)] + EnigmaSpec.Run(t, rest[1..], Turn1(n1, 1), Turn2(n1, n2, 1))
  {
  }

  lemma EncryptStep(t: Wheels, r: seq<byte>, done: seq<byte>, rest: seq<byte>, n1: byte, n2: byte)
    requires Wired(t) && rest != [] && r == done + EnigmaSpec.Encrypt(t, rest, n1, n2)
    ensures var step := Into(t, rest[0], n1) % 32 + 1;
            r == done + [Cipher(t, rest[0], n1, n2)] +
                 EnigmaSpec.Encrypt(t, rest[1..], Turn1(n1, step), Turn2(n1, n2, step))
  {
  }

  lemma DecryptStep(t: Wheels, r: seq<byte>, done: seq<byte>, rest: seq<byte>, n1: byte, n2: byte)
    requires Wired(t) && rest != [] && r == done + EnigmaSpec.Decrypt(t, rest, n1, n2)
    ensures var x := Reflect(t, Into(t, rest[0], n1), n2);
            var step := x % 32 + 1;
            r == done + [Out(t, x, n1)] + EnigmaSpec.Decrypt(t, rest[1..], Turn1(n1, step), Turn2(n1, n2, step))
  {
  }

  lemma AtEnd(t: Wheels, done: seq<byte>, rest: seq<byte>, n1: byte, n2: byte)
    requires Wired(t) && rest == []
    ensures done + EnigmaSpec.Run(t, rest, n1, n2) == done
    ensures done + EnigmaSpec.Encrypt(t, rest, n1, n2) == done
    ensures done + EnigmaSpec.Decrypt(t, rest, n1, n2) == done
  {
  }
}
