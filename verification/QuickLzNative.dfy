/** qlz_compress and qlz_decompress of quicklz.c. */
module QuickLzNative {
  import opened Bytes
  import opened LittleEndian
  import opened QuickLzWord
  import opened QuickLzFormat
  import opened QuickLzDecode
  import opened QuickLzChoice
  import opened QuickLzNativeCompress
  import opened QuickLzNativeDecode
  import opened QuickLz

  const LIMIT := 0xffff_ffff - 400

  predicate HasHeader(source: seq<byte>) {
    source != [] && (if LongHeader(source[0]) then 9 else 3) <= |source|
  }

  function CSize(source: seq<byte>): nat
    requires HasHeader(source)
  {
    if LongHeader(source[0]) then LE(source[1..5]) else LE(source[1..2])
  }

  function DSize(source: seq<byte>): nat
    requires HasHeader(source)
  {
    if LongHeader(source[0]) then LE(source[5..9]) else LE(source[2..3])
  }

  /** The length of the header. */
  function BaseOf(s: seq<byte>): nat { if |s| < 216 then 3 else 9 }

  /** The bytes r are a stream for s, and its header says how long both are. */
  ghost predicate Packed(r: seq<byte>, s: seq<byte>) {
    exists toks :: PackedAs(r, s, toks)
  }

  ghost predicate PackedAs(r: seq<byte>, s: seq<byte>, toks: seq<Token>) {
    var base := BaseOf(s);
    base <= |r| < |s| <= LIMIT && r[..base] == Header(3, true, base == 9, |r|, |s|) && Coded(r[base..], s, toks)
  }

  /** The stream that qlz_compress sends for s. */
  ghost predicate Sent(r: seq<byte>, s: seq<byte>) {
    exists toks :: SentAs(r, s, toks)
  }

  ghost predicate SentAs(r: seq<byte>, s: seq<byte>, toks: seq<Token>) {
    PackedAs(r, s, toks) && Complete(3, s, toks, 0, Half(s))
  }

  /** Why s is kept as it is: the compressor gives up, or the coded form, nine bytes at least, is not shorter. */
  ghost predicate Kept(s: seq<byte>) {
    exists toks :: KeptFor(s, toks)
  }

  ghost predicate KeptFor(s: seq<byte>, toks: seq<Token>) {
    GaveUp(3, s, toks, 0, Half(s)) ||
    (Complete(3, s, toks, 0, Half(s)) && BaseOf(s) + Max(9, CodedLen(s, toks)) >= |s|)
  }

  /** The stream is determined by the source, ... */
  lemma OneStream(r: seq<byte>, r': seq<byte>, s: seq<byte>)
    requires Sent(r, s) && Sent(r', s)
    ensures r == r'
  {
    hide SentAs;
    var toks :| SentAs(r, s, toks);
    var toks' :| SentAs(r', s, toks');
    SameStream(r, r', s, toks, toks');
  }

  lemma SameStream(r: seq<byte>, r': seq<byte>, s: seq<byte>, toks: seq<Token>, toks': seq<Token>)
    requires SentAs(r, s, toks) && SentAs(r', s, toks')
    ensures r == r'
  {
    hide Valid, Units, Rest, Run, Complete, Header;
    CompleteOnly(3, s, toks, toks', 0, Half(s));
    var base := BaseOf(s);
    assert r == r[..base] + r[base..] && r' == r'[..base] + r'[base..];
  }

  /** ... and so is whether there is one. */
  lemma SentOrKept(r: seq<byte>, s: seq<byte>)
    requires Sent(r, s)
    ensures !Kept(s)
  {
    hide SentAs, KeptFor;
    var toks :| SentAs(r, s, toks);
    forall toks' ensures !KeptFor(s, toks') { NotKept(r, s, toks, toks'); }
  }

  lemma NotKept(r: seq<byte>, s: seq<byte>, toks: seq<Token>, toks': seq<Token>)
    requires SentAs(r, s, toks)
    ensures !KeptFor(s, toks')
  {
    hide Coded, Complete, GaveUp, Header, CodedLen;
    BothWays(3, s, toks, toks', 0, Half(s));
    CodedLength(r[BaseOf(s)..], s, toks);
    PackedLong(r, s, toks);
    if Complete(3, s, toks', 0, Half(s)) { CompleteOnly(3, s, toks, toks', 0, Half(s)); }
  }

  /** A coded form has nine bytes, so that only longer sources have one. */
  lemma PackedLong(r: seq<byte>, s: seq<byte>, toks: seq<Token>)
    requires PackedAs(r, s, toks)
    ensures |s| >= 5 && |r| >= BaseOf(s) + 9
  {
    hide Valid, Units, Rest, Run, Header;
    RestLength(3, START, toks, |s|, 0);
    NineBytes(r[BaseOf(s)..], s, toks);
  }

  /** The header in front of the body. */
  method PutHeader(core: array<byte>, len: nat, size: nat, base: nat) returns (destination: array<byte>)
    requires 9 + len <= core.Length && (base == 3 || base == 9)
    ensures fresh(destination) && destination[..] == Header(3, true, base == 9, base + len, size) + core[9..9 + len]
  {
    hide *;
    destination := new byte[base + len](_ => 0);
    for i := 0 to len
      invariant destination[base..base + i] == core[9..9 + i]
    {
      destination[base + i] := core[9 + i];
      assert destination[base..base + i + 1] == destination[base..base + i] + [destination[base + i]];
    }
    ghost var body := destination[base..base + len];
    FirstByte(3, true, base == 9);
    destination[0] := 64 + 4 * 3 + (if base == 9 then 2 else 0) + 1;
    var w := if base == 9 then 4 else 1;
    FastWrite(destination, 1, base + len, w);
    ghost var sized := destination[..];
    FastWrite(destination, 1 + w, size, w);
    HeaderIs(destination[..], base, base + len, size, w, body);
  }

  lemma HeaderIs(d: seq<byte>, base: nat, r: nat, size: nat, w: nat, body: seq<byte>)
    requires base == 1 + 2 * w <= |d| && (w == 1 || w == 4) && d[base..] == body
    requires d[0] == 64 + 4 * 3 + (if w == 4 then 2 else 0) + 1
    requires d[1..1 + w] == BytesOf(r, w) && d[1 + w..1 + w + w] == BytesOf(size, w)
    ensures d == Header(3, true, w == 4, r, size) + body
  {
    hide BytesOf;
    assert d == [d[0]] + d[1..1 + w] + d[1 + w..base] + d[base..];
  }

  /** `r` is 0 where nothing can be done, |source| where the source is kept as it is, less where it was coded. */
  method Compress(source: seq<byte>) returns (destination: array<byte>, r: nat)
    ensures r <= destination.Length && r <= |source|
    ensures (r == 0) == (source == [] || |source| > LIMIT)
    ensures r == |source| ==> destination[..r] == source
    ensures 0 < r == |source| ==> Kept(source)
    ensures 0 < r < |source| ==> Packed(destination[..r], source) && Sent(destination[..r], source)
  {
    hide Coded, Header, PackedAs, GaveUp, Complete, CodedLen;
    var size := |source|;
    if size == 0 || size > LIMIT {
      destination := new byte[0];
      return destination, 0;
    }
    var base := if size < 216 then 3 else 9;
    var core, len, toks := CompressCore(source);
    r := base + len;
    if r == base || r >= size {
      assert KeptFor(source, toks);
      destination := new byte[size](i requires 0 <= i < size => source[i]);
      assert destination[..size] == source;
      return destination, size;
    }
    destination := PutHeader(core, len, size, base);
    MakePacked(destination[..], core[9..9 + len], source, toks);
    assert SentAs(destination[..], source, toks);
    assert destination[..r] == destination[..];
  }

  lemma MakePacked(r: seq<byte>, body: seq<byte>, s: seq<byte>, toks: seq<Token>)
    requires Coded(body, s, toks) && |s| <= LIMIT
    requires var base := BaseOf(s);
             base + |body| < |s| && r == Header(3, true, base == 9, base + |body|, |s|) + body
    ensures PackedAs(r, s, toks)
  {
    hide Coded, Header;
    var base := BaseOf(s);
    assert r[..base] == Header(3, true, base == 9, |r|, |s|) && r[base..] == body;
  }

  /** The header of a stream gives back both sizes, and the decoder can start behind it. */
  lemma OpenPacked(r: seq<byte>, s: seq<byte>) returns (toks: seq<Token>)
    requires Packed(r, s)
    ensures 4 <= |s| && HasHeader(r) && CodedFlag(r[0]) && LongHeader(r[0]) == (|s| >= 216)
    ensures CSize(r) == |r| && DSize(r) == |s|
    ensures At(3, r, if |s| >= 216 then 9 else 3, 1, START, toks, 0, s)
  {
    hide Header, LE, Valid, Run, Units, Rest;
    toks :| PackedAs(r, s, toks);
    var base := BaseOf(s);
    assert r == r[..base] + r[base..];
    ReadHeader(3, true, base == 9, |r|, |s|, r, r[base..]);
    assert Word(Units(3, START, toks, |s|), 0) == 1;
  }

  /** The buffers are as long as the header says: all the caller has to provide, whatever the stream holds. */
  predicate Fit(source: seq<byte>, room: nat)
    requires HasHeader(source)
  {
    DSize(source) <= room &&
    (if CodedFlag(source[0]) then CSize(source) else (if LongHeader(source[0]) then 9 else 3) + DSize(source))
      <= |source|
  }

  lemma SameHeader(source: seq<byte>, csize: nat)
    requires HasHeader(source) && csize <= |source| && HasHeader(source[..csize])
    ensures source[..csize][0] == source[0]
    ensures CSize(source[..csize]) == CSize(source) && DSize(source[..csize]) == DSize(source)
  {
    hide LE;
    assert source[..csize][2..3] == source[2..3] && source[..csize][1..2] == source[1..2];
    if LongHeader(source[0]) {
      assert source[..csize][5..9] == source[5..9] && source[..csize][1..5] == source[1..5];
    }
  }

  lemma SizeBound(source: seq<byte>)
    requires HasHeader(source)
    ensures DSize(source) < 0x1_0000_0000
  {
    if LongHeader(source[0]) {
      LE4(source[5..9]);
    } else {
      var b := source[2..3];
      assert LE(b) == b[0] as int + 256 * LE(b[1..]) && b[1..] == [];
    }
  }

  /** Safe on any stream; and on a stream for s it gives s. */
  method Decompress(source: seq<byte>, destination: array<byte>, ghost s: seq<byte>) returns (n: nat)
    requires HasHeader(source) && Fit(source, destination.Length)
    modifies destination
    ensures n == 0 || n == DSize(source)
    ensures !CodedFlag(source[0]) ==>
              n == DSize(source) &&
              var h := if LongHeader(source[0]) then 9 else 3; destination[..n] == source[h..h + n]
    ensures CodedFlag(source[0]) && Packed(source[..CSize(source)], s) ==> n == |s| && destination[..n] == s
  {
    hide LE, Packed, At;
    var dsiz := SizeDecompressed(source);
    var h := HeaderLen(source);
    if source[0] % 2 == 1 {
      var csize := SizeCompressed(source);
      ghost var valid := Packed(source[..csize], s);
      ghost var toks: seq<Token> := [];
      if valid { toks := OpenPacked(source[..csize], s); SameHeader(source, csize); }
      SizeBound(source);
      n := DecompressCore(source[..csize], h, destination, dsiz, valid, toks, s);
    } else {
      CopyRaw(destination, source[h..], dsiz);
      n := dsiz;
    }
  }

  /** A coded source comes back, and the header's sizes are the true ones; otherwise the source itself was kept. */
  method RoundTrip(source: seq<byte>) returns (coded: array<byte>, r: nat, back: array<byte>)
    requires 0 < |source| <= LIMIT
    ensures 0 < r <= |source| && r <= coded.Length
    ensures r < |source| ==> HasHeader(coded[..r]) && CSize(coded[..r]) == r && DSize(coded[..r]) == |source|
    ensures back[..] == source
  {
    hide Packed, At;
    coded, r := Compress(source);
    back := new byte[|source|](_ => 0);
    if r == |source| {
      CopyRaw(back, coded[..], r);
      assert back[..] == back[..r];
    } else {
      ghost var toks := OpenPacked(coded[..r], source);
      assert coded[..r][..r] == coded[..r];
      var n := Decompress(coded[..r], back, source);
      assert back[..] == back[..n];
    }
  }
}
