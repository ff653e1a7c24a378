/** The one-rotor cipher machine: what its wheels must be, and why its ciphers are inverted. */
module EnigmaSpec {
  import opened Bytes

  /** Numbers on the wheels, as & MASK leaves them. */
  function Low(x: int): (b: byte) { x % 256 }

  /** The rotor, its inverse and the reflector. */
  datatype Wheels = Wheels(t1: seq<byte>, t2: seq<byte>, t3: seq<byte>)

  /** t2 is the inverse of t1, from either side. */
  predicate Inverse(t1: seq<byte>, t2: seq<byte>) {
    |t1| == |t2| == 256 &&
    (forall i :: 0 <= i < 256 ==> t2[t1[i]] == i) && (forall i :: 0 <= i < 256 ==> t1[t2[i]] == i)
  }

  /** t3 joins the positions in pairs. */
  predicate Reflector(t3: seq<byte>) {
    |t3| == 256 && forall i :: 0 <= i < 256 ==> t3[i] != i && t3[t3[i]] == i
  }

  predicate Wired(t: Wheels) { Inverse(t.t1, t.t2) && Reflector(t.t3) }

  // ---------- one byte ----------

  /** What comes out of the rotor for a byte. */
  function Into(t: Wheels, b: byte, n1: int): (x: byte)
    requires |t.t1| == 256
  {
    t.t1[Low(b + n1)]
  }

  /** Through the reflector, seen from the rotor's side. */
  function Reflect(t: Wheels, x: byte, n2: int): (y: byte)
    requires |t.t3| == 256
  {
    Low(t.t3[Low(x + n2)] - n2)
  }

  /** Back through the rotor. */
  function Out(t: Wheels, y: byte, n1: int): (c: byte)
    requires |t.t2| == 256
  {
    Low(t.t2[y] - n1)
  }

  function Cipher(t: Wheels, b: byte, n1: int, n2: int): (c: byte)
    requires Wired(t)
  {
    Out(t, Reflect(t, Into(t, b, n1), n2), n1)
  }

  lemma LowBack(y: byte, n: int)
    ensures Low(Low(y - n) + n) == y && Low(Low(y + n) - n) == y
  {
    Wraps(y - n, n);
    Wraps(y + n, -n);
  }

  lemma Wraps(x: int, n: int)
    ensures Low(Low(x) + n) == Low(x + n)
  {
    var q := x / 256;
    assert x % 256 + n == x + n - 256 * q;
    Multiple(x + n, q);
  }

  lemma Multiple(y: int, q: int)
    ensures (y - 256 * q) % 256 == y % 256
  {
    var k := y / 256;
    assert y - 256 * q == 256 * (k - q) + y % 256;
  }

  /** A byte that has come out of the machine goes in at the point it left. */
  lemma IntoOut(t: Wheels, y: byte, n1: int)
    requires Wired(t)
    ensures Into(t, Out(t, y, n1), n1) == y
  {
    LowBack(t.t2[y], n1);
  }

  lemma OutInto(t: Wheels, b: byte, n1: int)
    requires Wired(t)
    ensures Out(t, Into(t, b, n1), n1) == b
  {
    assert t.t2[t.t1[Low(b + n1)]] == Low(b + n1);
    LowBack(b, n1);
  }

  lemma ReflectTwice(t: Wheels, x: byte, n2: int)
    requires Wired(t)
    ensures Reflect(t, Reflect(t, x, n2), n2) == x && Reflect(t, x, n2) != x
  {
    var i := Low(x + n2);
    LowBack(t.t3[i], n2);
    LowBack(x, n2);
    assert t.t3[t.t3[i]] == i && t.t3[i] != i;
    hide Low;
  }

  /** At each setting the machine exchanges the bytes in pairs: it is its own inverse and keeps no byte. */
  lemma CipherTwice(t: Wheels, b: byte, n1: int, n2: int)
    requires Wired(t)
    ensures Cipher(t, Cipher(t, b, n1, n2), n1, n2) == b && Cipher(t, b, n1, n2) != b
  {
    var x := Into(t, b, n1);
    IntoOut(t, Reflect(t, x, n2), n1);
    ReflectTwice(t, x, n2);
    OutInto(t, b, n1);
  }

  // ---------- a buffer ----------

  /** The first settings, from the length of the buffer. */
  function Start2(t: Wheels, len: nat): (n: byte)
    requires Wired(t)
  {
    (if len % 2 == 0 then t.t1 else t.t2)[len / 512 % 256]
  }

  function Start1(t: Wheels, len: nat): (n: byte)
    requires Wired(t)
  {
    t.t3[len / 2 % 256]
  }

  /** The settings after the first wheel has turned by `step`. */
  function Turn1(n1: byte, step: nat): (n: byte) { Low(n1 + step) }

  function Turn2(n1: byte, n2: byte, step: nat): (n: byte) {
    if n1 + step < 256 then n2 else Low(n2 + 1)
  }

  /** enigma: the wheel turns by one for every byte. */
  function Run(t: Wheels, s: seq<byte>, n1: byte, n2: byte): (r: seq<byte>)
    requires Wired(t)
    ensures |r| == |s|
  {
    if s == [] then []
    else [Cipher(t, s[0], n1, n2)] + Run(t, s[1..], Turn1(n1, 1), Turn2(n1, n2, 1))
  }

  function Enigma(t: Wheels, s: seq<byte>): (r: seq<byte>)
    requires Wired(t)
    ensures |r| == |s|
  {
    Run(t, s, Start1(t, |s|), Start2(t, |s|))
  }

  /** enigma_encrypt: the turn depends on what comes out of the rotor. */
  function Encrypt(t: Wheels, s: seq<byte>, n1: byte, n2: byte): (r: seq<byte>)
    requires Wired(t)
    ensures |r| == |s|
  {
    if s == [] then []
    else
      var step := Into(t, s[0], n1) % 32 + 1;
      [Cipher(t, s[0], n1, n2)] + Encrypt(t, s[1..], Turn1(n1, step), Turn2(n1, n2, step))
  }

  /** enigma_decrypt: the turn depends on what comes back from the reflector. */
  function Decrypt(t: Wheels, s: seq<byte>, n1: byte, n2: byte): (r: seq<byte>)
    requires Wired(t)
    ensures |r| == |s|
  {
    if s == [] then []
    else
      var x := Reflect(t, Into(t, s[0], n1), n2);
      var step := x % 32 + 1;
      [Out(t, x, n1)] + Decrypt(t, s[1..], Turn1(n1, step), Turn2(n1, n2, step))
  }

  function Encrypted(t: Wheels, s: seq<byte>): (r: seq<byte>)
    requires Wired(t)
    ensures |r| == |s|
  {
    Encrypt(t, s, Start1(t, |s|), Start2(t, |s|))
  }

  function Decrypted(t: Wheels, s: seq<byte>): (r: seq<byte>)
    requires Wired(t)
    ensures |r| == |s|
  {
    Decrypt(t, s, Start1(t, |s|), Start2(t, |s|))
  }

  /** The machine undoes itself, and no byte stays what it was. */
  lemma {:induction false} RunTwice(t: Wheels, s: seq<byte>, n1: byte, n2: byte)
    requires Wired(t)
    ensures Run(t, Run(t, s, n1, n2), n1, n2) == s
    ensures forall i :: 0 <= i < |s| ==> Run(t, s, n1, n2)[i] != s[i]
    decreases |s|
  {
    if s != [] {
      CipherTwice(t, s[0], n1, n2);
      RunTwice(t, s[1..], Turn1(n1, 1), Turn2(n1, n2, 1));
      var r := Run(t, s, n1, n2);
      assert r[1..] == Run(t, s[1..], Turn1(n1, 1), Turn2(n1, n2, 1));
      hide Cipher, Turn1, Turn2, Wired;
      assert forall i :: 1 <= i < |s| ==> r[i] == r[1..][i - 1] && s[i] == s[1..][i - 1];
    }
  }

  lemma EnigmaTwice(t: Wheels, s: seq<byte>)
    requires Wired(t)
    ensures Enigma(t, Enigma(t, s)) == s
    ensures forall i :: 0 <= i < |s| ==> Enigma(t, s)[i] != s[i]
  {
    RunTwice(t, s, Start1(t, |s|), Start2(t, |s|));
  }

  /** Decryption sees the same turns as encryption. */
  lemma {:induction false} DecryptEncrypt(t: Wheels, s: seq<byte>, n1: byte, n2: byte)
    requires Wired(t)
    ensures Decrypt(t, Encrypt(t, s, n1, n2), n1, n2) == s
    decreases |s|
  {
    if s != [] {
      var x := Into(t, s[0], n1);
      var y := Reflect(t, x, n2);
      IntoOut(t, y, n1);
      ReflectTwice(t, x, n2);
      OutInto(t, s[0], n1);
      var e, step := Encrypt(t, s, n1, n2), x % 32 + 1;
      DecryptEncrypt(t, s[1..], Turn1(n1, step), Turn2(n1, n2, step));
      assert e[0] == Out(t, y, n1) && e[1..] == Encrypt(t, s[1..], Turn1(n1, step), Turn2(n1, n2, step));
      hide Into, Reflect, Out, Turn1, Turn2, Wired, Encrypt;
    }
  }

  lemma {:induction false} EncryptDecrypt(t: Wheels, s: seq<byte>, n1: byte, n2: byte)
    requires Wired(t)
    ensures Encrypt(t, Decrypt(t, s, n1, n2), n1, n2) == s
    decreases |s|
  {
    if s != [] {
      var x := Reflect(t, Into(t, s[0], n1), n2);
      IntoOut(t, x, n1);
      ReflectTwice(t, Into(t, s[0], n1), n2);
      OutInto(t, s[0], n1);
      var d, step := Decrypt(t, s, n1, n2), x % 32 + 1;
      EncryptDecrypt(t, s[1..], Turn1(n1, step), Turn2(n1, n2, step));
      assert d[0] == Out(t, x, n1) && d[1..] == Decrypt(t, s[1..], Turn1(n1, step), Turn2(n1, n2, step));
      hide Into, Reflect, Out, Turn1, Turn2, Wired, Decrypt;
    }
  }

  /** Each cipher undoes the other. */
  lemma CiphersInvert(t: Wheels, s: seq<byte>)
    requires Wired(t)
    ensures Decrypted(t, Encrypted(t, s)) == s && Encrypted(t, Decrypted(t, s)) == s
  {
    DecryptEncrypt(t, s, Start1(t, |s|), Start2(t, |s|));
    EncryptDecrypt(t, s, Start1(t, |s|), Start2(t, |s|));
  }
}
