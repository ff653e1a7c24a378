/** Bytes as text of 64 digits, three bytes to four characters, with '@' as padding (crypto/a64n.c). */
module Radix64 {
  import opened Bytes

  /** The table: the digits, the capitals, the small letters, '_' and '~', and the padding. */
  function Tab64(n: nat): (c: char)
    requires n <= 64
  {
    if n < 10 then '0' + n as char
    else if n < 36 then 'A' + (n - 10) as char
    else if n < 62 then 'a' + (n - 36) as char
    else if n == 62 then '_' else if n == 63 then '~' else '@'
  }

  const PAD := '@'

  function N64a(n: nat): char { Tab64(n % 64) }

  /** strchr: the first place in the table, from n on; the terminator is found behind the table. */
  function Strchr(a: char, n: nat): (r: int)
    requires n <= 65
    decreases 65 - n
  {
    if n == 65 then if a == '\0' then 65 else -1
    else if Tab64(n) == a then n
    else Strchr(a, n + 1)
  }

  function A64n(a: char): int { Strchr(a, 0) }

  lemma TableInjective(n: nat, k: nat)
    requires n <= 64 && k <= 64 && Tab64(n) == Tab64(k)
    ensures n == k
  {
  }

  lemma {:induction false} Located(k: nat, n: nat)
    requires n <= k <= 64
    ensures Strchr(Tab64(k), n) == k
    decreases k - n
  {
    if Tab64(n) == Tab64(k) { TableInjective(n, k); } else { Located(k, n + 1); }
  }

  /** The two tables invert each other on the digits. */
  lemma DigitBack(n: nat)
    ensures A64n(N64a(n)) == n % 64 && N64a(n) != PAD
  {
    Located(n % 64, 0);
    if N64a(n) == PAD { TableInjective(n % 64, 64); }
  }

  lemma {:induction false} StrchrIs(a: char, n: nat)
    requires n <= 65 && 0 <= Strchr(a, n) < 65
    ensures Tab64(Strchr(a, n)) == a
    decreases 65 - n
  {
    if n < 65 && Tab64(n) != a { StrchrIs(a, n + 1); }
  }

  predicate IsDigit(a: char) { 0 <= A64n(a) < 64 }

  lemma CharBack(a: char)
    requires IsDigit(a)
    ensures N64a(A64n(a)) == a && a != PAD
  {
    StrchrIs(a, 0);
    DigitBack(A64n(a));
  }

  // ---------- the text of a byte sequence ----------

  function Word3(a: byte, b: byte, c: byte): nat { 65536 * a + 256 * b + c }

  function Text3(l: nat): (s: seq<char>)
    ensures |s| == 4
  {
    [N64a(l / 262144), N64a(l / 4096), N64a(l / 64), N64a(l)]
  }

  function Encode(b: seq<byte>): (s: seq<char>) {
    if |b| == 0 then []
    else if |b| == 1 then
      var l := 16 * b[0] as nat;
      [N64a(l / 64), N64a(l), PAD, PAD]
    else if |b| == 2 then
      var l := 4 * (256 * b[0] as nat + b[1]);
      [N64a(l / 4096), N64a(l / 64), N64a(l), PAD]
    else
      Text3(Word3(b[0], b[1], b[2])) + Encode(b[3..])
  }

  /** Groups of four characters; the last one may end in one or two paddings. */
  predicate WellFormed(s: seq<char>) {
    |s| % 4 == 0 &&
    forall i :: 0 <= i < |s| ==>
      IsDigit(s[i]) || (s[i] == PAD && (i == |s| - 1 || (i == |s| - 2 && s[|s| - 1] == PAD)))
  }

  function D(a: char): (n: nat)
    requires IsDigit(a)
  {
    A64n(a)
  }

  /** The three bytes of a number of 24 bits. */
  function Three(l: nat): (b: seq<byte>)
    ensures |b| == 3
  {
    [l / 65536 % 256, l / 256 % 256, l % 256]
  }

  function Decode(s: seq<char>): (b: seq<byte>)
    requires WellFormed(s)
  {
    if s == [] then []
    else if s[2] == PAD then
      Group(s);
      [(64 * D(s[0]) + D(s[1])) / 16 % 256]
    else if s[3] == PAD then
      Group(s);
      var l := (4096 * D(s[0]) + 64 * D(s[1]) + D(s[2])) / 4;
      [l / 256 % 256, l % 256]
    else
      Group(s);
      var l := 262144 * D(s[0]) + 4096 * D(s[1]) + 64 * D(s[2]) + D(s[3]);
      Three(l) + Decode(s[4..])
  }

  /** What a group looks like. */
  lemma Group(s: seq<char>)
    requires WellFormed(s) && s != []
    ensures |s| >= 4 && IsDigit(s[0]) && IsDigit(s[1]) && (IsDigit(s[2]) <==> s[2] != PAD)
    ensures IsDigit(s[3]) <==> s[3] != PAD
    ensures s[2] == PAD ==> s[3] == PAD
    ensures s[3] == PAD ==> |s| == 4
    ensures s[3] != PAD ==> WellFormed(s[4..])
  {
    PadIsNoDigit();
    assert forall i :: 0 <= i < |s| - 4 ==> s[4..][i] == s[i + 4];
  }

  lemma PadIsNoDigit()
    ensures !IsDigit(PAD)
  {
    Located(64, 0);
  }

  // ---------- the round trips ----------

  /** Four digits of six bits make up the number of 24 bits. */
  lemma Digits4(l: nat)
    requires l < 0x100_0000
    ensures 262144 * (l / 262144 % 64) + 4096 * (l / 4096 % 64) + 64 * (l / 64 % 64) + l % 64 == l
  {
    assert l / 262144 < 64;
    assert l / 4096 == 64 * (l / 262144) + l / 4096 % 64 by { assert l / 4096 / 64 == l / 262144; }
    assert l / 64 == 64 * (l / 4096) + l / 64 % 64 by { assert l / 64 / 64 == l / 4096; }
  }

  lemma Bytes3(a: byte, b: byte, c: byte)
    ensures var l := Word3(a, b, c);
            l < 0x100_0000 && l / 65536 % 256 == a && l / 256 % 256 == b && l % 256 == c
  {
    var l := Word3(a, b, c);
    assert l / 256 == 256 * a + b;
    assert l / 65536 == a;
  }

  lemma EncodeStep(b: seq<byte>)
    requires |b| >= 3
    ensures Encode(b) == Text3(Word3(b[0], b[1], b[2])) + Encode(b[3..])
  {
  }

  /** Decoding gives back the bytes, whatever they are and however many. */
  lemma {:induction false} DecodeEncode(b: seq<byte>)
    ensures WellFormed(Encode(b)) && Decode(Encode(b)) == b
    decreases |b|
  {
    if |b| == 1 {
      DecodeOne(b[0]);
      assert b == [b[0]];
    } else if |b| == 2 {
      DecodeTwo(b[0], b[1]);
      assert b == [b[0], b[1]];
    } else if |b| >= 3 {
      DecodeEncode(b[3..]);
      EncodeStep(b);
      var l := Word3(b[0], b[1], b[2]);
      Bytes3(b[0], b[1], b[2]);
      DecodeThree(l, Encode(b[3..]));
      hide Decode, Encode, Word3, WellFormed, Text3;
      assert [b[0], b[1], b[2]] + b[3..] == b;
    }
  }

  lemma DecodeOne(a: byte)
    ensures WellFormed(Encode([a])) && Decode(Encode([a])) == [a]
  {
    var l := 16 * a as nat;
    DigitBack(l / 64);
    DigitBack(l);
    var s := Encode([a]);
    assert s == [N64a(l / 64), N64a(l), PAD, PAD];
    hide N64a, A64n;
    assert 64 * (l / 64 % 64) + l % 64 == l;
  }

  lemma DecodeTwo(a: byte, b: byte)
    ensures WellFormed(Encode([a, b])) && Decode(Encode([a, b])) == [a, b]
  {
    var l := 4 * (256 * a as nat + b);
    DigitBack(l / 4096);
    DigitBack(l / 64);
    DigitBack(l);
    var s := Encode([a, b]);
    assert s == [N64a(l / 4096), N64a(l / 64), N64a(l), PAD];
    hide N64a, A64n;
    Digits3(l);
    assert l / 4 == 256 * a + b;
  }

  lemma Digits3(l: nat)
    requires l < 0x4_0000
    ensures 4096 * (l / 4096 % 64) + 64 * (l / 64 % 64) + l % 64 == l
  {
    Digits4(l);
  }

  lemma FullGroup(g: seq<char>, rest: seq<char>)
    requires |g| == 4 && IsDigit(g[0]) && IsDigit(g[1]) && IsDigit(g[2]) && IsDigit(g[3]) && WellFormed(rest)
    ensures WellFormed(g + rest)
  {
    hide IsDigit;
    var s := g + rest;
    assert forall i :: 4 <= i < |s| ==> s[i] == rest[i - 4];
  }

  lemma DecodeGroup(g: seq<char>, rest: seq<char>, l: nat)
    requires |g| == 4 && IsDigit(g[0]) && IsDigit(g[1]) && IsDigit(g[2]) && IsDigit(g[3]) && WellFormed(rest)
    requires l == 262144 * D(g[0]) + 4096 * D(g[1]) + 64 * D(g[2]) + D(g[3])
    ensures WellFormed(g + rest) && Decode(g + rest) == Three(l) + Decode(rest)
  {
    FullGroup(g, rest);
    PadIsNoDigit();
    var s := g + rest;
    assert s[4..] == rest && s[0] == g[0] && s[1] == g[1] && s[2] == g[2] && s[3] == g[3];
    hide IsDigit, D;
  }

  lemma DecodeThree(l: nat, rest: seq<char>)
    requires l < 0x100_0000 && WellFormed(rest)
    ensures WellFormed(Text3(l) + rest)
    ensures Decode(Text3(l) + rest) == Three(l) + Decode(rest)
  {
    DigitBack(l / 262144);
    DigitBack(l / 4096);
    DigitBack(l / 64);
    DigitBack(l);
    Digits4(l);
    hide N64a, A64n, WellFormed, Decode;
    DecodeGroup(Text3(l), rest, l);
  }

  /** The text of n bytes: four characters for every three begun, the last ones padding, as many as bytes are missing. */
  predicate Padded(s: seq<char>, n: nat) {
    |s| == 4 * ((n + 2) / 3) && forall i :: 0 <= i < |s| ==> (s[i] == PAD <==> i >= |s| - (3 - n % 3) % 3)
  }

  /** The padding stands at the end, and only there: as many characters as are bytes missing from the last group. */
  lemma {:induction false} PaddingAtEnd(b: seq<byte>)
    ensures Padded(Encode(b), |b|)
    decreases |b|
  {
    if |b| < 3 {
      PaddingShort(b);
    } else {
      PaddingAtEnd(b[3..]);
      var l := Word3(b[0], b[1], b[2]);
      NoPadding(l);
      EncodeStep(b);
      hide Encode, Text3, Word3, Padded;
      PaddingAfter(Text3(l), Encode(b[3..]), |b| - 3);
    }
  }

  lemma PaddingShort(b: seq<byte>)
    requires |b| < 3
    ensures |Encode(b)| == 4 * ((|b| + 2) / 3)
    ensures forall i :: 0 <= i < |Encode(b)| ==> (Encode(b)[i] == PAD <==> i >= |Encode(b)| - (3 - |b| % 3) % 3)
  {
    if |b| == 1 {
      DigitBack(16 * b[0] as nat / 64);
      DigitBack(16 * b[0] as nat);
      hide N64a;
    } else if |b| == 2 {
      var l := 4 * (256 * b[0] as nat + b[1]);
      DigitBack(l / 4096);
      DigitBack(l / 64);
      DigitBack(l);
      hide N64a;
    }
  }

  lemma NoPadding(l: nat)
    ensures var g := Text3(l); g[0] != PAD && g[1] != PAD && g[2] != PAD && g[3] != PAD
  {
    DigitBack(l / 262144);
    DigitBack(l / 4096);
    DigitBack(l / 64);
    DigitBack(l);
    hide N64a;
  }

  lemma PaddingAfter(g: seq<char>, e: seq<char>, n: nat)
    requires |g| == 4 && g[0] != PAD && g[1] != PAD && g[2] != PAD && g[3] != PAD && Padded(e, n)
    ensures Padded(g + e, n + 3)
  {
    var k := (3 - n % 3) % 3;
    assert (n + 3) % 3 == n % 3 && (n + 5) / 3 == (n + 2) / 3 + 1;
    assert n % 3 != 0 ==> n + 2 >= 3;
  }

  /** The bits of the last digit that do not belong to a byte are zero. */
  predicate Canonical(s: seq<char>)
    requires WellFormed(s)
    decreases |s|
  {
    if s == [] then true
    else
      Group(s);
      if s[2] == PAD then D(s[1]) % 16 == 0
      else if s[3] == PAD then D(s[2]) % 4 == 0
      else Canonical(s[4..])
  }

  /** A text comes back from its bytes exactly if it is canonical. */
  lemma {:induction false} EncodeDecode(s: seq<char>)
    requires WellFormed(s)
    ensures Encode(Decode(s)) == s <==> Canonical(s)
    decreases |s|
  {
    if s != [] {
      Group(s);
      if s[2] == PAD {
        EncodeOne(s);
      } else if s[3] == PAD {
        EncodeTwo(s);
      } else {
        EncodeDecode(s[4..]);
        EncodeThree(s);
        hide Encode, Decode, WellFormed, IsDigit;
        assert s[..4] + s[4..] == s;
        var e := Encode(Decode(s[4..]));
        assert (s[..4] + e)[4..] == e;
      }
    }
  }

  lemma EncodeOne(s: seq<char>)
    requires WellFormed(s) && s != [] && |s| == 4 && s[2] == PAD && s[3] == PAD && IsDigit(s[0]) && IsDigit(s[1])
    ensures Encode(Decode(s)) == s <==> D(s[1]) % 16 == 0
  {
    var x, y := D(s[0]), D(s[1]);
    var v := (64 * x + y) / 16 % 256;
    assert Decode(s) == [v] && Encode([v]) == [N64a(16 * v / 64), N64a(16 * v), PAD, PAD];
    OneDigitBack(s[0], s[1], v);
    hide *;
    assert s == [s[0], s[1], s[2], s[3]];
  }

  lemma OneDigitBack(a: char, b: char, v: nat)
    requires IsDigit(a) && IsDigit(b) && v == (64 * D(a) + D(b)) / 16 % 256
    ensures N64a(16 * v / 64) == a && (N64a(16 * v) == b <==> D(b) % 16 == 0)
  {
    CharBack(a);
    CharBack(b);
    SplitOne(D(a), D(b), v);
    DigitBack(16 * v);
    hide N64a, A64n;
  }

  lemma SplitOne(x: nat, y: nat, v: nat)
    requires x < 64 && y < 64 && v == (64 * x + y) / 16 % 256
    ensures 16 * v / 64 == x && 16 * v % 64 == y - y % 16
  {
    var q, r := y / 16, y % 16;
    assert 64 * x + y == 16 * (4 * x + q) + r && q < 4;
    assert (64 * x + y) / 16 == 4 * x + q;
    assert 16 * v == 64 * x + 16 * q;
  }

  lemma EncodeTwo(s: seq<char>)
    requires WellFormed(s) && |s| == 4 && s[3] == PAD && IsDigit(s[0]) && IsDigit(s[1]) && IsDigit(s[2]) && s[2] != PAD
    ensures Encode(Decode(s)) == s <==> D(s[2]) % 4 == 0
  {
    var x, y, z := D(s[0]), D(s[1]), D(s[2]);
    var v := (4096 * x + 64 * y + z) / 4;
    DecodeWord(s, v);
    SplitTwo(x, y, z, v);
    EncodeWord(v);
    TwoDigits(s[0], s[1], s[2], 4 * v);
    hide Decode, WellFormed, Encode, IsDigit, D;
    var e := Encode(Decode(s));
    assert e[2] == s[2] <==> e == s;
  }

  lemma DecodeWord(s: seq<char>, v: nat)
    requires WellFormed(s) && |s| == 4 && s[3] == PAD && IsDigit(s[0]) && IsDigit(s[1]) && IsDigit(s[2]) && s[2] != PAD
    requires v == (4096 * D(s[0]) + 64 * D(s[1]) + D(s[2])) / 4
    ensures Decode(s) == [v / 256 % 256, v % 256]
  {
    hide IsDigit, D;
  }

  lemma TwoDigits(a: char, b: char, c: char, l: nat)
    requires IsDigit(a) && IsDigit(b) && IsDigit(c) && l / 4096 == D(a) && l / 64 % 64 == D(b)
    ensures N64a(l / 4096) == a && N64a(l / 64) == b && (N64a(l) == c <==> l % 64 == D(c))
  {
    CharBack(a);
    CharBack(b);
    CharBack(c);
    N64aLow(l / 64, D(b));
    DigitBack(l);
    if l % 64 == D(c) { N64aLow(l, D(c)); }
    hide N64a, A64n;
  }

  lemma EncodeWord(v: nat)
    requires v < 65536
    ensures Encode([v / 256 % 256, v % 256]) == [N64a(4 * v / 4096), N64a(4 * v / 64), N64a(4 * v), PAD]
  {
    var b := [v / 256 % 256, v % 256];
    assert 256 * b[0] as nat + b[1] == v;
    hide N64a;
  }

  lemma SplitTwo(x: nat, y: nat, z: nat, v: nat)
    requires x < 64 && y < 64 && z < 64 && v == (4096 * x + 64 * y + z) / 4
    ensures v < 65536 && 4 * v / 4096 == x && 4 * v / 64 % 64 == y && 4 * v % 64 == z - z % 4
  {
    assert v == 1024 * x + 16 * y + z / 4;
    assert 4 * v == 4096 * x + 64 * y + (z - z % 4);
    assert 4 * v / 64 == 64 * x + y;
  }

  lemma N64aLow(n: nat, d: nat)
    requires n % 64 == d
    ensures N64a(n) == N64a(d)
  {
  }

  lemma EncodeThree(s: seq<char>)
    requires WellFormed(s) && |s| >= 4 && WellFormed(s[4..]) && s[2] != PAD && s[3] != PAD
    requires IsDigit(s[0]) && IsDigit(s[1]) && IsDigit(s[2]) && IsDigit(s[3])
    ensures Encode(Decode(s)) == s[..4] + Encode(Decode(s[4..]))
  {
    var l := 262144 * D(s[0]) + 4096 * D(s[1]) + 64 * D(s[2]) + D(s[3]);
    DecodeWhole(s, l);
    hide *;
    var b := Three(l) + Decode(s[4..]);
    assert b[3..] == Decode(s[4..]) && b[0] == Three(l)[0] && b[1] == Three(l)[1] && b[2] == Three(l)[2];
    EncodeStep(b);
    SplitThree(D(s[0]), D(s[1]), D(s[2]), D(s[3]), l);
    ThreeBack(l);
    TextBack(s[0], s[1], s[2], s[3], l);
    assert s[..4] == [s[0], s[1], s[2], s[3]];
  }

  lemma DecodeWhole(s: seq<char>, l: nat)
    requires WellFormed(s) && |s| >= 4 && WellFormed(s[4..]) && s[2] != PAD && s[3] != PAD
    requires IsDigit(s[0]) && IsDigit(s[1]) && IsDigit(s[2]) && IsDigit(s[3])
    requires l == 262144 * D(s[0]) + 4096 * D(s[1]) + 64 * D(s[2]) + D(s[3])
    ensures Decode(s) == Three(l) + Decode(s[4..])
    ensures D(s[0]) < 64 && D(s[1]) < 64 && D(s[2]) < 64 && D(s[3]) < 64
  {
    hide Three, WellFormed, A64n;
  }

  lemma DigitOf(a: char, n: nat)
    requires IsDigit(a) && n % 64 == D(a)
    ensures N64a(n) == a
  {
    CharBack(a);
    N64aLow(n, D(a));
  }

  lemma TextBack(a: char, b: char, c: char, d: char, l: nat)
    requires IsDigit(a) && IsDigit(b) && IsDigit(c) && IsDigit(d)
    requires l / 262144 % 64 == D(a) && l / 4096 % 64 == D(b) && l / 64 % 64 == D(c) && l % 64 == D(d)
    ensures Text3(l) == [a, b, c, d]
  {
    hide N64a, D, IsDigit;
    DigitOf(a, l / 262144);
    DigitOf(b, l / 4096);
    DigitOf(c, l / 64);
    DigitOf(d, l);
  }

  lemma SplitThree(x: nat, y: nat, z: nat, w: nat, l: nat)
    requires x < 64 && y < 64 && z < 64 && w < 64 && l == 262144 * x + 4096 * y + 64 * z + w
    ensures l / 262144 % 64 == x && l / 4096 % 64 == y && l / 64 % 64 == z && l % 64 == w
    ensures l < 0x100_0000
  {
    assert l / 64 == 4096 * x + 64 * y + z;
    assert l / 4096 == 64 * x + y;
    assert l / 262144 == x;
  }

  lemma ThreeBack(l: nat)
    requires l < 0x100_0000
    ensures Word3(Three(l)[0], Three(l)[1], Three(l)[2]) == l
  {
    var h, m := l / 65536, l / 256;
    assert m / 256 == h && h % 256 == h;
    assert l == 256 * m + l % 256 && m == 256 * h + m % 256;
  }

  // ---------- the conversions in memory ----------

  /** byte_a64: the text and its terminator. */
  method ByteA64(str: array<char>, b: seq<byte>)
    requires |Encode(b)| < str.Length
    modifies str
    ensures str[..|Encode(b)|] == Encode(b) && str[|Encode(b)|] == '\0'
  {
    hide *;
    ghost var e, rest := Encode(b), b;
    var p: nat, bp: nat := 0, 0;
    var i := |b|;
    while i > 2
      invariant 0 <= i == |b| - bp && rest == b[bp..] && p <= str.Length && e == str[..p] + Encode(rest)
    {
      ghost var done := str[..p];
      EncodeStep(rest);
      var l := Word3(b[bp], b[bp + 1], b[bp + 2]);
      WriteGroup(str, p, l);
      Joined(e, done, Text3(l), Encode(rest[3..]), str[..p + 4]);
      rest := rest[3..];
      p, bp, i := p + 4, bp + 3, i - 3;
    }
    ghost var done := str[..p];
    WriteLast(str, p, b[bp..]);
    assert str[..p + |Encode(rest)|] == done + Encode(rest);
  }

  lemma Joined(e: seq<char>, done: seq<char>, g: seq<char>, rest: seq<char>, now: seq<char>)
    requires e == done + (g + rest) && now == done + g
    ensures e == now + rest
  {
  }

  /** Four digits. */
  method WriteGroup(str: array<char>, p: nat, l: nat)
    requires p + 4 <= str.Length
    modifies str
    ensures str[..p + 4] == old(str[..p]) + Text3(l)
  {
    str[p] := N64a(l / 262144 % 64);
    str[p + 1] := N64a(l / 4096 % 64);
    str[p + 2] := N64a(l / 64 % 64);
    str[p + 3] := N64a(l % 64);
  }

  /** The last group, of fewer than three bytes, and the terminator. */
  method WriteLast(str: array<char>, p: nat, b: seq<byte>)
    requires |b| < 3 && p + |Encode(b)| < str.Length
    modifies str
    ensures str[..p] == old(str[..p])
    ensures str[p..p + |Encode(b)|] == Encode(b) && str[p + |Encode(b)|] == '\0'
  {
    var q := p;
    if |b| == 2 {
      var l := 4 * (256 * b[0] as nat + b[1]);
      str[p], str[p + 1], str[p + 2], str[p + 3] := N64a(l / 4096), N64a(l / 64), N64a(l), PAD;
      q := p + 4;
    } else if |b| == 1 {
      var l := 16 * b[0] as nat;
      str[p], str[p + 1], str[p + 2], str[p + 3] := N64a(l / 64), N64a(l), PAD, PAD;
      q := p + 4;
    }
    str[q] := '\0';
  }

  /** The bytes of a group with padding, which ends the text. */
  method ReadLast(out: array<byte>, size: nat, l: nat, missing: nat) returns (n: nat)
    requires 1 <= missing <= 2 && size + 3 - missing <= out.Length
    modifies out
    ensures n == size + 3 - missing && out[..size] == old(out[..size])
    ensures out[size..n] == if missing == 1 then [l / 4 / 256 % 256, l / 4 % 256] else [l / 16 % 256]
  {
    if missing == 1 {
      out[size], out[size + 1] := l / 4 / 256 % 256, l / 4 % 256;
      n := size + 2;
    } else {
      out[size] := l / 16 % 256;
      n := size + 1;
    }
  }

  /** One group of the text: up to three bytes. */
  method ReadGroup(out: array<byte>, size: nat, str: seq<char>, i: nat, ghost rest: seq<char>)
    returns (n: nat, last: bool)
    requires i < |str| && rest == str[i..] && WellFormed(rest) && size + |Decode(rest)| <= out.Length
    modifies out
    ensures size <= n <= out.Length && out[..size] == old(out[..size])
    ensures last ==> out[size..n] == Decode(rest)
    ensures !last ==> |rest| >= 4 && WellFormed(rest[4..]) && Decode(rest) == out[size..n] + Decode(rest[4..])
  {
    Group(rest);
    PadIsNoDigit();
    var l: nat := 64 * A64n(str[i]) + A64n(str[i + 1]);
    if str[i + 2] == PAD {
      DecodePadTwo(rest);
      hide *;
      n := ReadLast(out, size, l, 2);
      return n, true;
    }
    l := 64 * l + A64n(str[i + 2]);
    if str[i + 3] == PAD {
      DecodePadOne(rest);
      hide *;
      n := ReadLast(out, size, l, 1);
      return n, true;
    }
    l := 64 * l + A64n(str[i + 3]);
    DecodeFull(rest, l);
    hide *;
    out[size], out[size + 1], out[size + 2] := l / 65536 % 256, l / 256 % 256, l % 256;
    n, last := size + 3, false;
  }

  lemma DecodePadTwo(s: seq<char>)
    requires WellFormed(s) && |s| >= 4 && IsDigit(s[0]) && IsDigit(s[1]) && s[2] == PAD
    ensures Decode(s) == [(64 * A64n(s[0]) + A64n(s[1])) / 16 % 256]
  {
    hide A64n;
  }

  lemma DecodePadOne(s: seq<char>)
    requires WellFormed(s) && |s| >= 4 && IsDigit(s[0]) && IsDigit(s[1]) && IsDigit(s[2]) && s[2] != PAD && s[3] == PAD
    ensures var l := 64 * (64 * A64n(s[0]) + A64n(s[1])) + A64n(s[2]);
            Decode(s) == [l / 4 / 256 % 256, l / 4 % 256]
  {
    var x, y, z := D(s[0]), D(s[1]), D(s[2]);
    assert 4096 * x + 64 * y + z == 64 * (64 * x + y) + z;
    hide A64n;
  }

  lemma DecodeFull(s: seq<char>, l: nat)
    requires WellFormed(s) && |s| >= 4 && IsDigit(s[0]) && IsDigit(s[1]) && IsDigit(s[2]) && IsDigit(s[3])
    requires s[2] != PAD && s[3] != PAD && WellFormed(s[4..])
    requires l == 64 * (64 * (64 * A64n(s[0]) + A64n(s[1])) + A64n(s[2])) + A64n(s[3])
    ensures Decode(s) == Three(l) + Decode(s[4..])
  {
    var x, y, z, w := D(s[0]), D(s[1]), D(s[2]), D(s[3]);
    assert l == 262144 * x + 4096 * y + 64 * z + w;
    hide A64n;
    DecodeWhole(s, l);
    hide *;
  }

  /** a64_byte, for a text of the right form: its bytes and their number. */
  method A64Byte(out: array<byte>, str: seq<char>) returns (size: nat)
    requires WellFormed(str) && |Decode(str)| <= out.Length
    modifies out
    ensures size == |Decode(str)| && out[..size] == Decode(str)
  {
    hide *;
    ghost var e, rest := Decode(str), str;
    size := 0;
    var i := 0;
    EmptyText();
    while i < |str|
      invariant i <= |str| && rest == str[i..] && WellFormed(rest)
      invariant size <= out.Length && e == out[..size] + Decode(rest)
    {
      ghost var done := out[..size];
      var n, last := ReadGroup(out, size, str, i, rest);
      assert out[..n] == done + out[size..n];
      if last { return n; }
      Joins(done, out[size..n], Decode(rest[4..]));
      rest := rest[4..];
      size, i := n, i + 4;
    }
    assert rest == [];
  }

  lemma Joins(a: seq<byte>, b: seq<byte>, c: seq<byte>)
    ensures a + (b + c) == a + b + c
  {
  }

  lemma EmptyText()
    ensures WellFormed([]) && Decode([]) == []
  {
  }

  /** The text of a buffer, read back: the same bytes, whatever they are. */
  method RoundTrip(b: seq<byte>) returns (c: array<byte>, size: nat)
    ensures size == |b| <= c.Length && c[..size] == b
  {
    PaddingAtEnd(b);
    DecodeEncode(b);
    var str := new char[4 * ((|b| + 2) / 3) + 1];
    c := new byte[|b|];
    hide Encode, Decode, WellFormed;
    ByteA64(str, b);
    size := A64Byte(c, str[..str.Length - 1]);
  }
}
