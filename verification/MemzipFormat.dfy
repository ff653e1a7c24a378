/** The byte format of memzip: tokens, their encoding, and what a coded string means. */
module MemzipFormat {
  import opened Bytes
  import opened Lz

  const ESC := 0x10
  const MFLG := 0x11
  const MBASE := 0x12
  const IBASE := MBASE - 3
  const MAX_DISTANCE := 16576

  /** One step of the compressed stream: a byte of the original, or a copy of earlier output. */
  datatype Token = Literal(b: byte) | Match(len: nat, distance: nat)

  predicate Special(b: int) { ESC <= b < ESC + 8 }

  predicate IsEscape(t: Token) { t.Literal? && Special(t.b) }

  predicate ValidToken(t: Token) {
    t.Match? ==>
      3 <= t.len <= 264 && 1 <= t.distance <= MAX_DISTANCE && (t.len == 3 ==> t.distance <= 256)
  }

  /** The distance field: one byte below 193 and for every 3-byte match, otherwise two. */
  function DistanceBytes(len: nat, distance: nat): seq<byte>
    requires ValidToken(Match(len, distance))
  {
    if len == 3 || distance < 193 then [distance - 1]
    else [(distance - 193) / 256 + 0xC0, (distance - 193) % 256]
  }

  function TokenLen(t: Token): nat {
    match t
    case Literal(b) => if Special(b) then 2 else 1
    case Match(len, distance) =>
      (if len < 9 then 1 else 2) + (if len == 3 || distance < 193 then 1 else 2)
  }

  function TokenBytes(t: Token): (r: seq<byte>)
    requires ValidToken(t)
    ensures |r| == TokenLen(t) > 0
  {
    match t
    case Literal(b) => if Special(b) then [ESC, b] else [b]
    case Match(len, distance) =>
      (if len < 9 then [len + IBASE] else [MFLG, len - 9]) + DistanceBytes(len, distance)
  }

  predicate Applicable(out: seq<byte>, t: Token) {
    ValidToken(t) && (t.Match? ==> t.distance <= |out|)
  }

  function Apply(out: seq<byte>, t: Token): (r: seq<byte>)
    requires Applicable(out, t)
    ensures |out| < |r| && out <= r
  {
    match t
    case Literal(b) => out + [b]
    case Match(len, distance) => Copy(out, distance, len)
  }

  /** Whether the tokens can be applied one after another, starting from a non-empty output. */
  predicate ValidTokens(first: byte, toks: seq<Token>)
    decreases |toks|, 0
  {
    toks != [] ==>
      ValidTokens(first, toks[..|toks| - 1]) &&
      Applicable(Expand(first, toks[..|toks| - 1]), toks[|toks| - 1])
  }

  function Expand(first: byte, toks: seq<Token>): (r: seq<byte>)
    requires ValidTokens(first, toks)
    ensures |toks| < |r| && r[0] == first
    decreases |toks|, 1
  {
    if toks == [] then [first]
    else Apply(Expand(first, toks[..|toks| - 1]), toks[|toks| - 1])
  }

  function Encode(first: byte, toks: seq<Token>): (r: seq<byte>)
    requires ValidTokens(first, toks)
    ensures |toks| < |r| && r[0] == first
    decreases |toks|
  {
    if toks == [] then [first]
    else Encode(first, toks[..|toks| - 1]) + TokenBytes(toks[|toks| - 1])
  }

  datatype UnzipResult =
    | Unzipped(out: seq<byte>)
    | TooLong               // memunzip returns -1
    | Malformed             // a token runs past the input or the buffer, or copies from before the output

  /** Reads the token that starts at s[i]; None if it is cut off. */
  function ReadToken(s: seq<byte>, i: nat): (r: Option<(Token, nat)>)
    requires i < |s|
    ensures r.Some? ==> i < r.value.1 <= |s| && ValidToken(r.value.0)
  {
    var c: int := s[i];
    var next: int := if i + 1 < |s| then s[i + 1] else 0;
    if c == ESC then
      if i + 1 < |s| then Some((Literal(next), i + 2)) else None
    else if c == MFLG then
      if i + 1 < |s| then ReadDistance(s, i + 2, next + 9) else None
    else if c == MBASE then
      if i + 1 < |s| then Some((Match(3, next + 1), i + 2)) else None
    else if MBASE < c <= MBASE + 5 then ReadDistance(s, i + 1, c - IBASE)
    else Some((Literal(c), i + 1))
  }

  function ReadDistance(s: seq<byte>, i: nat, n: nat): (r: Option<(Token, nat)>)
    requires 4 <= n <= 264 && i <= |s|
    ensures r.Some? ==> i < r.value.1 <= |s| && ValidToken(r.value.0)
  {
    if i >= |s| then None else
    var d0: int := s[i];
    var d1: int := if i + 1 < |s| then s[i + 1] else 0;
    if d0 <= 191 then Some((Match(n, d0 + 1), i + 1))
    else if i + 1 < |s| then Some((Match(n, d0 % 64 * 256 + d1 + 193), i + 2))
    else None
  }

  function UnzipFrom(s: seq<byte>, i: nat, out: seq<byte>, pkgLen: nat): UnzipResult
    requires i <= |s|
    decreases |s| - i
  {
    if i == |s| then Unzipped(out)
    else if |out| >= pkgLen then TooLong
    else match ReadToken(s, i)
      case None => Malformed
      case Some((t, j)) =>
        if Applicable(out, t) && |Apply(out, t)| <= pkgLen then UnzipFrom(s, j, Apply(out, t), pkgLen)
        else Malformed
  }

  /** What memunzip makes of `s` when the caller says that the original has `pkgLen` bytes. */
  function Unzip(s: seq<byte>, pkgLen: nat): UnzipResult {
    if |s| == pkgLen then Unzipped(s)
    else if s == [] then Malformed
    else UnzipFrom(s, 1, s[..1], pkgLen)
  }

  lemma Append(first: byte, toks: seq<Token>, t: Token)
    requires ValidTokens(first, toks) && Applicable(Expand(first, toks), t)
    ensures ValidTokens(first, toks + [t])
    ensures Expand(first, toks + [t]) == Apply(Expand(first, toks), t)
    ensures Encode(first, toks + [t]) == Encode(first, toks) + TokenBytes(t)
  {
    var more := toks + [t];
    assert more[..|more| - 1] == toks && more[|more| - 1] == t;
  }

  // ---------- reading back what was written ----------

  lemma PrefixValid(first: byte, toks: seq<Token>, k: nat)
    requires ValidTokens(first, toks) && k <= |toks|
    ensures ValidTokens(first, toks[..k])
    ensures Encode(first, toks[..k]) <= Encode(first, toks)
    ensures Expand(first, toks[..k]) <= Expand(first, toks)
    ensures |Expand(first, toks)| >= |Expand(first, toks[..k])| + |toks| - k
    decreases |toks|
  {
    if k < |toks| {
      var init := toks[..|toks| - 1];
      PrefixValid(first, init, k);
      assert init[..k] == toks[..k];
    } else {
      assert toks[..k] == toks;
    }
  }

  lemma ReadBackDistance(s: seq<byte>, i: nat, n: nat, distance: nat)
    requires 4 <= n <= 264 && 1 <= distance <= MAX_DISTANCE
    requires i + |DistanceBytes(n, distance)| <= |s|
    requires forall k :: 0 <= k < |DistanceBytes(n, distance)| ==> s[i + k] == DistanceBytes(n, distance)[k]
    ensures ReadDistance(s, i, n) == Some((Match(n, distance), i + |DistanceBytes(n, distance)|))
  {
    var w := DistanceBytes(n, distance);
    assert s[i + 0] == w[0];
    if distance >= 193 {
      assert s[i + 1] == w[1];
      var hi := (distance - 193) / 256;
      assert (hi + 0xC0) % 64 == hi;
    }
  }

  lemma ReadBack(s: seq<byte>, i: nat, t: Token)
    requires ValidToken(t) && i < |s|
    requires i + TokenLen(t) <= |s|
    requires forall k :: 0 <= k < TokenLen(t) ==> s[i + k] == TokenBytes(t)[k]
    ensures ReadToken(s, i) == Some((t, i + TokenLen(t)))
  {
    var w := TokenBytes(t);
    assert s[i + 0] == w[0];
    assert |w| > 1 ==> s[i + 1] == w[1];
    if t.Match? && t.len > 3 {
      var d := DistanceBytes(t.len, t.distance);
      var at := |w| - |d|;
      assert w[at..] == d;
      forall k | 0 <= k < |d| ensures s[i + at + k] == d[k] {
        assert w[at..][k] == w[at + k] == s[i + (at + k)];
      }
      ReadBackDistance(s, i + at, t.len, t.distance);
    }
  }

  lemma UnzipStep(s: seq<byte>, i: nat, out: seq<byte>, t: Token, j: nat, pkgLen: nat)
    requires i < j <= |s| && ReadToken(s, i) == Some((t, j))
    requires Applicable(out, t) && |Apply(out, t)| <= pkgLen
    ensures UnzipFrom(s, i, out, pkgLen) == UnzipFrom(s, j, Apply(out, t), pkgLen)
  {
  }

  lemma ReadBackAt(first: byte, toks: seq<Token>, k: nat)
    requires ValidTokens(first, toks) && k < |toks|
    ensures ValidTokens(first, toks[..k])
    ensures var i := |Encode(first, toks[..k])|;
            i + TokenLen(toks[k]) <= |Encode(first, toks)| &&
            ReadToken(Encode(first, toks), i) == Some((toks[k], i + TokenLen(toks[k])))
  {
    hide ValidTokens, Expand, Encode;
    EncodedTokenAt(first, toks, k);
    var s, i := Encode(first, toks), |Encode(first, toks[..k])|;
    var j := i + TokenLen(toks[k]);
    forall m | 0 <= m < j - i ensures s[i + m] == TokenBytes(toks[k])[m] {
      assert s[i..j][m] == s[i + m];
    }
    ReadBack(s, i, toks[k]);
  }

  /** Decoding at token k of an encoded list continues to the full expansion. */
  lemma {:induction false} UnzipEncodeFrom(first: byte, toks: seq<Token>, k: nat, pkgLen: nat)
    requires ValidTokens(first, toks) && k <= |toks|
    requires pkgLen == |Expand(first, toks)|
    requires ValidTokens(first, toks[..k])
    requires |Encode(first, toks[..k])| <= |Encode(first, toks)|
    ensures UnzipFrom(Encode(first, toks), |Encode(first, toks[..k])|, Expand(first, toks[..k]), pkgLen)
         == Unzipped(Expand(first, toks))
    decreases |toks| - k
  {
    hide ValidTokens, Expand, Encode, TokenBytes, TokenLen, ReadToken, Apply;
    if k == |toks| {
      assert toks[..k] == toks;
    } else {
      ReadBackAt(first, toks, k);
      EncodedTokenAt(first, toks, k);
      var s, i, j := Encode(first, toks), |Encode(first, toks[..k])|, |Encode(first, toks[..k + 1])|;
      var out, next := Expand(first, toks[..k]), Expand(first, toks[..k + 1]);
      assert |next| <= pkgLen;
      UnzipStep(s, i, out, toks[k], j, pkgLen);
      UnzipEncodeFrom(first, toks, k + 1, pkgLen);
    }
  }

  /** Token k sits, encoded, right after the first k tokens, and produces the output that follows theirs. */
  lemma EncodedTokenAt(first: byte, toks: seq<Token>, k: nat)
    requires ValidTokens(first, toks) && k < |toks|
    ensures ValidTokens(first, toks[..k]) && ValidTokens(first, toks[..k + 1])
    ensures Applicable(Expand(first, toks[..k]), toks[k])
    ensures Expand(first, toks[..k + 1]) == Apply(Expand(first, toks[..k]), toks[k]) <= Expand(first, toks)
    ensures Encode(first, toks[..k + 1]) == Encode(first, toks[..k]) + TokenBytes(toks[k]) <= Encode(first, toks)
    ensures var i := |Encode(first, toks[..k])|;
            i + TokenLen(toks[k]) <= |Encode(first, toks)| &&
            Encode(first, toks)[i..i + TokenLen(toks[k])] == TokenBytes(toks[k])
  {
    hide TokenBytes, TokenLen, Apply;
    PrefixValid(first, toks, k);
    PrefixValid(first, toks, k + 1);
    var more := toks[..k + 1];
    assert more[..|more| - 1] == toks[..k] && more[|more| - 1] == toks[k];
    var i, w := |Encode(first, toks[..k])|, TokenBytes(toks[k]);
    assert Encode(first, toks)[i..i + |w|] == Encode(first, more)[i..];
  }

  /** Round trip of the token format, whenever the lengths differ. */
  lemma UnzipEncode(first: byte, toks: seq<Token>)
    requires ValidTokens(first, toks)
    requires |Encode(first, toks)| != |Expand(first, toks)|
    ensures Unzip(Encode(first, toks), |Expand(first, toks)|) == Unzipped(Expand(first, toks))
  {
    var e: seq<Token> := [];
    assert toks[..0] == e;
    UnzipEncodeFrom(first, toks, 0, |Expand(first, toks)|);
    assert Encode(first, toks)[..1] == [first];
  }
}
