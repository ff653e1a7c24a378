/** The decompressor, in place on its output buffer. */
module Memunzip {
  import opened Bytes
  import opened Lz
  import opened MemzipFormat

  /** The distance field at s[i] of a match of more than three bytes. */
  method GetDistance(s: seq<byte>, i: nat, n: nat) returns (distance: nat, next: nat)
    requires 4 <= n <= 264 && i <= |s| && ReadDistance(s, i, n).Some?
    ensures ReadDistance(s, i, n) == Some((Match(n, distance), next))
  {
    distance := s[i];
    next := i + 1;
    if distance > 191 {
      distance := distance % 64;
      distance := distance * 256;
      distance := distance + s[next];
      next := next + 1;
      distance := distance + 193;
    } else {
      distance := distance + 1;
    }
  }

  /** The token at s[i]: a copy of n > 0 bytes, or with n == 0 the byte at s[next - 1]. */
  method GetToken(s: seq<byte>, i: nat) returns (n: nat, distance: nat, next: nat)
    requires i < |s| && ReadToken(s, i).Some?
    ensures i < next <= |s|
    ensures ReadToken(s, i) == Some((if n > 0 then Match(n, distance) else Literal(s[next - 1]), next))
  {
    hide ReadDistance;
    var c: int := s[i];
    n, distance, next := 0, 0, i + 1;
    if MBASE <= c <= MBASE + 5 {
      n := c - IBASE;
      if n != 3 {
        distance, next := GetDistance(s, next, n);
      } else {
        distance := s[next];
        distance := distance + 1;
        next := next + 1;
      }
    } else if c == MFLG {
      n := s[next];
      n := n + 9;
      distance, next := GetDistance(s, next + 1, n);
    } else if c == ESC {
      next := next + 1;
    }
  }

  lemma Start(s: seq<byte>, pkgLen: nat)
    requires |s| != pkgLen && s != []
    ensures Unzip(s, pkgLen) == UnzipFrom(s, 1, [s[0]], pkgLen)
  {
    assert s[..1] == [s[0]];
  }

  lemma NextToken(s: seq<byte>, i: nat, out: seq<byte>, pkgLen: nat, result: UnzipResult)
    returns (t: Token, j: nat)
    requires i < |s| && |out| < pkgLen && UnzipFrom(s, i, out, pkgLen) == result != Malformed
    ensures ReadToken(s, i) == Some((t, j)) && Applicable(out, t) && |Apply(out, t)| <= pkgLen
    ensures i < j <= |s| && UnzipFrom(s, j, Apply(out, t), pkgLen) == result
  {
    hide ReadToken, Apply;
    t, j := ReadToken(s, i).value.0, ReadToken(s, i).value.1;
  }

  lemma Ends(s: seq<byte>, i: nat, out: seq<byte>, pkgLen: nat, result: UnzipResult)
    requires i <= |s| && (i == |s| || |out| >= pkgLen) && UnzipFrom(s, i, out, pkgLen) == result
    ensures result == if i == |s| then Unzipped(out) else TooLong
  {
  }

  /** Decodes one token at s[i] into buf[p1..]. */
  method PutToken(s: seq<byte>, i: nat, buf: array<byte>, p1: nat, ghost pkgLen: nat, ghost result: UnzipResult)
    returns (next: nat, at: nat)
    requires i < |s| && p1 < pkgLen <= buf.Length && UnzipFrom(s, i, buf[..p1], pkgLen) == result != Malformed
    modifies buf
    ensures i < next <= |s| && p1 < at <= pkgLen && UnzipFrom(s, next, buf[..at], pkgLen) == result
  {
    hide UnzipFrom, ReadToken, Copy;
    ghost var out := buf[..p1];
    ghost var t, j := NextToken(s, i, out, pkgLen, result);
    var n, distance;
    n, distance, next := GetToken(s, i);
    if n > 0 {
      CopyBack(buf, p1, distance, n);
      at := p1 + n;
    } else {
      buf[p1] := s[next - 1];
      at := p1 + 1;
      assert buf[..at] == out + [s[next - 1]];
    }
  }

  /** Decompresses `s` into `buf`: the length of the original, or -1 if the token stream does not end in time. */
  method Memunzip(s: seq<byte>, buf: array<byte>, pkgLen: nat) returns (r: int)
    requires Unzip(s, pkgLen) != Malformed && 1 <= buf.Length && pkgLen <= buf.Length
    modifies buf
    ensures Unzip(s, pkgLen) == TooLong ==> r == -1
    ensures Unzip(s, pkgLen).Unzipped? ==> 0 <= r <= buf.Length && Unzip(s, pkgLen) == Unzipped(buf[..r])
  {
    if |s| == pkgLen {
      CopyRaw(buf, s, |s|);
      return |s|;
    }
    ghost var result := Unzip(s, pkgLen);
    assert s != [];
    Start(s, pkgLen);
    hide Unzip, UnzipFrom;
    buf[0] := s[0];
    var i: nat, p1: nat := 1, 1;
    assert buf[..p1] == [s[0]];
    while i < |s|
      invariant 1 <= i <= |s| && 1 <= p1 <= buf.Length
      invariant UnzipFrom(s, i, buf[..p1], pkgLen) == result
      decreases |s| - i
    {
      if p1 >= pkgLen {
        Ends(s, i, buf[..p1], pkgLen, result);
        return -1;
      }
      i, p1 := PutToken(s, i, buf, p1, pkgLen, result);
    }
    Ends(s, i, buf[..p1], pkgLen, result);
    return p1;
  }
}
