/** The public methods of QuickLZ.java. */
module QuickLz {
  import opened Bytes
  import opened LittleEndian
  import opened QuickLzWord
  import opened QuickLzFormat
  import opened QuickLzDecode
  import opened QuickLzDecode1
  import QuickLzChoice
  import QuickLzCompress1
  import QuickLzCompress3

  // ---------- reading the header ----------

  predicate LongHeader(first: byte) { first / 2 % 2 == 1 }

  predicate CodedFlag(first: byte) { first % 2 == 1 }

  function LevelOf(first: byte): nat { first / 4 % 4 }

  method HeaderLen(source: seq<byte>) returns (n: nat)
    requires source != []
    ensures n == if LongHeader(source[0]) then 9 else 3
  {
    n := if source[0] / 2 % 2 == 1 then 9 else 3;
  }

  method SizeDecompressed(source: seq<byte>) returns (n: nat)
    requires source != [] && (if LongHeader(source[0]) then 9 else 3) <= |source|
    ensures n == if LongHeader(source[0]) then LE(source[5..9]) else LE(source[2..3])
  {
    var len := HeaderLen(source);
    if len == 9 { n := FastRead(source, 5, 4); } else { n := FastRead(source, 2, 1); }
  }

  method SizeCompressed(source: seq<byte>) returns (n: nat)
    requires source != [] && (if LongHeader(source[0]) then 9 else 3) <= |source|
    ensures n == if LongHeader(source[0]) then LE(source[1..5]) else LE(source[1..2])
  {
    var len := HeaderLen(source);
    if len == 9 { n := FastRead(source, 1, 4); } else { n := FastRead(source, 1, 1); }
  }

  /** The size and level fields come back as they were written. */
  lemma ReadHeader(level: nat, compressed: bool, long: bool, csize: nat, dsize: nat, r: seq<byte>, body: seq<byte>)
    requires level < 4 && r == Header(level, compressed, long, csize, dsize) + body
    requires dsize < if long then 0x1_0000_0000 else 256
    ensures |r| == (if long then 9 else 3) + |body|
    ensures LongHeader(r[0]) == long && CodedFlag(r[0]) == compressed && LevelOf(r[0]) == level
    ensures if long then LE(r[5..9]) == dsize && r[9..] == body else LE(r[2..3]) == dsize && r[3..] == body
    ensures csize < (if long then 0x1_0000_0000 else 256) ==>
              csize == if long then LE(r[1..5]) else LE(r[1..2])
  {
    Shl8Values(1);
    var w := if long then 4 else 1;
    FirstByte(level, compressed, long);
    hide Shl8, LE, BytesOf;
    if csize < Shl8(1, w) { LEBytesOf(csize, w); }
    LEBytesOf(dsize, w);
    assert r[1..1 + w] == BytesOf(csize, w);
    assert r[1 + w..1 + w + w] == BytesOf(dsize, w);
  }

  lemma FirstByte(level: nat, compressed: bool, long: bool)
    requires level < 4
    ensures var first := Bit(compressed) + (if long then 2 else 0) + 4 * level + 64;
            0 <= first < 256 && LongHeader(first) == long && CodedFlag(first) == compressed && LevelOf(first) == level
  {
  }

  // ---------- compress and decompress ----------

  /** `ok` is false for a level that is not supported (an exception in the original). */
  method Compress(source: seq<byte>, level: nat) returns (ok: bool, d: array<byte>)
    requires |source| <= MAX_SIZE - 400
    ensures ok <==> level == 1 || level == 3
    ensures ok && source == [] ==> d.Length == 0
    ensures ok && source != [] ==> Denotes(level, d[..], source) && 9 <= d.Length <= |source| + 187
    ensures ok && source != [] ==> QuickLzChoice.Compressed(level, d[..], source)
    ensures ok && source != [] ==> LongHeader(d[0]) && LE(d[1..5]) == d.Length && LE(d[5..9]) == |source|
  {
    hide LE, QuickLzChoice.Compressed;
    if level != 1 && level != 3 {
      d := new byte[0];
      return false, d;
    }
    ok := true;
    if |source| == 0 {
      d := new byte[0];
    } else if level == 1 {
      d := QuickLzCompress1.CompressLevel1(source);
      SizesWritten(level, d[..], |source|);
    } else {
      d := QuickLzCompress3.CompressLevel3(source);
      SizesWritten(level, d[..], |source|);
    }
  }

  lemma SizesWritten(level: nat, r: seq<byte>, n: nat)
    requires level < 4 && 9 <= |r| < 0x1_0000_0000 && n < 0x1_0000_0000
    requires exists c: bool :: r[..9] == Header(level, c, true, |r|, n)
    ensures LongHeader(r[0]) && LE(r[1..5]) == |r| && LE(r[5..9]) == n
  {
    var c: bool :| r[..9] == Header(level, c, true, |r|, n);
    assert r == r[..9] + r[9..];
    ReadHeader(level, c, true, |r|, n, r, r[9..]);
  }

  /** What the header of a stream for s says, and where its tokens are. */
  lemma OpenStream(level: nat, r: seq<byte>, s: seq<byte>)
    returns (long: bool, toks: seq<Token>)
    requires Denotes(level, r, s)
    ensures (level == 1 || level == 3) && r != [] && LevelOf(r[0]) == level && LongHeader(r[0]) == long
    ensures (if long then 9 else 3) <= |r|
    ensures |s| == if long then LE(r[5..9]) else LE(r[2..3])
    ensures if CodedFlag(r[0]) then s != [] && At(level, r, if long then 9 else 3, 1, START, toks, 0, s)
            else r[if long then 9 else 3..] == s
  {
    hide Header, LE, Valid, Run, Units, Rest;
    var csize: nat;
    long, csize :| DenotesAs(level, r, s, long, csize);
    toks := [];
    if r == Header(level, false, long, csize, |s|) + s {
      ReadHeader(level, false, long, csize, |s|, r, s);
    } else {
      toks :| Holds(level, r, s, long, csize, toks);
      ReadHeader(level, true, long, csize, |s|, r, Rest(Units(level, START, toks, |s|), 0));
      assert Word(Units(level, START, toks, |s|), 0) == 1;
    }
  }

  /** `s` is the original that the stream stands for. */
  method Decompress(source: seq<byte>, ghost s: seq<byte>) returns (ok: bool, d: array<byte>)
    requires source != [] && (if LongHeader(source[0]) then 9 else 3) <= |source|
    requires LevelOf(source[0]) == 1 || LevelOf(source[0]) == 3 ==> Denotes(LevelOf(source[0]), source, s)
    ensures ok <==> LevelOf(source[0]) == 1 || LevelOf(source[0]) == 3
    ensures ok ==> d[..] == s
  {
    hide Denotes, At;
    var size := SizeDecompressed(source);
    var src := HeaderLen(source);
    var level := source[0] / 4 % 4;
    if level != 1 && level != 3 {
      d := new byte[0];
      return false, d;
    }
    ghost var long, toks := OpenStream(level, source, s);
    ok := true;
    d := new byte[size](_ => 0);
    if source[0] % 2 != 1 {
      CopyRaw(d, source[src..], size);
      assert d[..] == d[..size];
    } else if level == 1 {
      DecodeLevel1(source, src, d, toks, s);
    } else {
      DecodeLevel3(source, src, d, toks, s);
    }
  }

  /** Decompression undoes compression, at both levels and for every source that is not empty. */
  method RoundTrip(source: seq<byte>, level: nat) returns (back: array<byte>)
    requires (level == 1 || level == 3) && 0 < |source| <= MAX_SIZE - 400
    ensures back[..] == source
  {
    var ok, coded := Compress(source, level);
    ghost var long, toks := OpenStream(level, coded[..], source);
    ok, back := Decompress(coded[..], source);
  }
}
