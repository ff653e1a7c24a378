/** The decompressor of QuickLZ.java, levels 1 and 3. */
module QuickLzDecode {
  import opened Bits
  import opened Bytes
  import opened Lz
  import opened LittleEndian
  import opened QuickLzWord
  import opened QuickLzFormat

  // ---------- where the decoder stands ----------

  /** The tokens `toks` are still to come; `left` flags of the current control word are still to be taken. */
  ghost predicate At(level: nat, source: seq<byte>, src: nat, cword: nat, st: State, toks: seq<Token>, left: nat,
                     s: seq<byte>)
  {
    Valid(level, st, toks, |s|) && Run(level, st, toks, |s|).out == s && src <= |source| &&
    source[src..] == Rest(Units(level, st, toks, |s|), left) &&
    cword == Word(Units(level, st, toks, |s|), left)
  }

  lemma SomethingLeft(level: nat, source: seq<byte>, src: nat, cword: nat, st: State, toks: seq<Token>, left: nat,
                      s: seq<byte>)
    requires At(level, source, src, cword, st, toks, left, s)
    ensures st.out <= s && (cword == 1) == (left == 0)
    ensures |source| - src >= Min(4, |s| - |st.out|)
    ensures |st.out| < |s| ==> toks != []
  {
    RestLength(level, st, toks, |s|, left);
    UsedUp(Units(level, st, toks, |s|), left);
    hide Units, Rest, Word, Valid;
  }

  lemma AtRefill(level: nat, source: seq<byte>, src: nat, cword: nat, st: State, toks: seq<Token>, s: seq<byte>)
    requires At(level, source, src, cword, st, toks, 0, s) && toks != []
    ensures src + 4 <= |source|
    ensures At(level, source, src + 4, LE(source[src..src + 4]), st, toks, 31, s)
  {
    var us := Units(level, st, toks, |s|);
    Refill(us);
    hide Units, Rest, Word, Valid, Run, LE, BytesOf;
    var w := BytesOf(Word(us, 31), 4);
    Split(source, src, w, Rest(us, 31));
  }

  lemma Split(a: seq<byte>, i: nat, w: seq<byte>, rest: seq<byte>)
    requires i <= |a| && a[i..] == w + rest
    ensures i + |w| <= |a| && a[i..i + |w|] == w && a[i + |w|..] == rest
  {
    assert a[i..i + |w|] == a[i..][..|w|];
    assert a[i + |w|..] == a[i..][|w|..];
  }

  lemma AtToken(level: nat, source: seq<byte>, src: nat, cword: nat, st: State, toks: seq<Token>, left: nat,
                s: seq<byte>)
    requires At(level, source, src, cword, st, toks, left, s) && toks != [] && left > 0
    ensures Fits(level, st, toks[0], |s|) && (cword % 2 == 1) == toks[0].Match?
    ensures var w := UnitOf(level, st, toks[0], |s|).bytes;
            src + |w| <= |source| && source[src..src + |w|] == w &&
            At(level, source, src + |w|, cword / 2, Step(st, toks[0]), toks[1..], left - 1, s)
    ensures |st.out| + Span(toks[0]) <= |s|
    ensures toks[0].Match? ==> |st.out| + UNCONDITIONAL_MATCHLEN + UNCOMPRESSED_END < |s|
    ensures toks[0].Match? ==> 1 <= toks[0].offset <= |st.out|
  {
    var us := Units(level, st, toks, |s|);
    TakeFlag(us, left);
    assert us[1..] == Units(level, Step(st, toks[0]), toks[1..], |s|);
    hide Rest, Word, UnitOf, Lookup, Key;
    Split(source, src, us[0].bytes, Rest(us[1..], left - 1));
  }

  // ---------- taking a code apart ----------

  lemma {:induction false} LEConcat(a: seq<byte>, b: seq<byte>)
    ensures LE(a + b) == LE(a) + Shl8(LE(b), |a|)
    decreases |a|
  {
    if a == [] {
      assert a + b == b;
    } else {
      LEConcat(a[1..], b);
      assert (a + b)[1..] == a[1..] + b;
    }
  }

  lemma Shl8Values(v: nat)
    ensures Shl8(v, 1) == 256 * v && Shl8(v, 2) == 65536 * v
    ensures Shl8(v, 3) == 0x100_0000 * v && Shl8(v, 4) == 0x1_0000_0000 * v
  {
    assert Shl8(v, 0) == v && Shl8(v, 1) == 256 * v;
    assert Shl8(v, 2) == 256 * Shl8(v, 1);
    assert Shl8(v, 3) == 256 * Shl8(v, 2);
    assert Shl8(v, 4) == 256 * Shl8(v, 3);
  }

  /** The fetched number is the code, with whatever follows it in the stream above. */
  lemma FetchOfCode(w: seq<byte>, v: nat, k: nat)
    requires 1 <= k <= 4 && k <= |w| && w[..k] == BytesOf(v, k) && v < Shl8(1, k)
    ensures LE(w) == v + Shl8(LE(w[k..]), k)
  {
    LEConcat(w[..k], w[k..]);
    assert w[..k] + w[k..] == w;
    LEBytesOf(v, k);
  }

  /** Level 3: offset, length and size of the code at the bottom of `fetch`. */
  function Decode3(fetch: nat): (r: (nat, nat, nat)) {
    if fetch % 4 == 0 then (fetch % 256 / 4, 3, 1)
    else if fetch / 2 % 2 == 0 then (fetch % 65536 / 4, 3, 2)
    else if fetch % 2 == 0 then (fetch % 65536 / 64, fetch / 4 % 16 + 3, 2)
    else if fetch % 128 != 3 then (fetch / 128 % 0x20000, fetch / 4 % 32 + 2, 3)
    else (fetch / 32768, fetch / 128 % 256 + 3, 4)
  }

  lemma PickA(f: nat, off: nat)
    requires f % 4 == 0 && f % 256 / 4 == off
    ensures Decode3(f) == (off, 3, 1)
  {
  }

  lemma Code3A(off: nat, x: nat)
    requires off <= 63
    ensures Decode3(off * 4 + 256 * x) == (off, 3, 1)
  {
    hide Decode3;
    var f := off * 4 + 256 * x;
    assert f % 256 == off * 4;
    assert f == 4 * (off + 64 * x);
    PickA(f, off);
  }

  lemma PickB(f: nat, off: nat)
    requires f % 4 == 1 && f / 2 % 2 == 0 && f % 65536 / 4 == off
    ensures Decode3(f) == (off, 3, 2)
  {
  }

  lemma Code3B(off: nat, x: nat)
    requires off <= 16383
    ensures Decode3(off * 4 + 1 + 65536 * x) == (off, 3, 2)
  {
    hide Decode3;
    var f := off * 4 + 1 + 65536 * x;
    assert f % 65536 == off * 4 + 1;
    assert f == 1 + 4 * (off + 16384 * x);
    assert f / 2 == 2 * (off + 16384 * x);
    PickB(f, off);
  }

  lemma PickC(f: nat, len: nat, off: nat)
    requires f % 4 == 2 && f % 2 == 0 && f / 2 % 2 == 1 && f % 65536 / 64 == off && f / 4 % 16 + 3 == len
    ensures Decode3(f) == (off, len, 2)
  {
  }

  lemma Code3C(len: nat, off: nat, x: nat)
    requires 3 <= len <= 18 && off <= 1023
    ensures Decode3((len - 3) * 4 + off * 64 + 2 + 65536 * x) == (off, len, 2)
  {
    hide Decode3;
    var f := (len - 3) * 4 + off * 64 + 2 + 65536 * x;
    var high := (len - 3) + 16 * (off + 1024 * x);
    assert f % 65536 / 64 == off by { assert f % 65536 == (len - 3) * 4 + off * 64 + 2; }
    assert f == 2 + 4 * high;
    assert f / 4 == high && f % 4 == 2 && f % 2 == 0;
    assert f / 2 == 1 + 2 * high;
    assert high % 16 == len - 3;
    PickC(f, len, off);
  }

  lemma PickD(f: nat, len: nat, off: nat)
    requires f % 2 == 1 && f % 4 == 3 && f / 2 % 2 == 1 && f % 128 != 3
    requires f / 128 % 0x20000 == off && f / 4 % 32 + 2 == len
    ensures Decode3(f) == (off, len, 3)
  {
  }

  lemma Code3D(len: nat, off: nat, x: nat)
    requires 3 <= len <= 33 && off < 0x20000
    ensures Decode3((len - 2) * 4 + off * 128 + 3 + 0x100_0000 * x) == (off, len, 3)
  {
    hide Decode3;
    var f := (len - 2) * 4 + off * 128 + 3 + 0x100_0000 * x;
    var low := (len - 2) * 4 + 3;
    var high := off + 0x20000 * x;
    assert f == low + 128 * high;
    assert f / 128 == high && f % 128 == low;
    assert f == 3 + 4 * ((len - 2) + 32 * high);
    assert f / 4 == (len - 2) + 32 * high;
    assert f / 2 == 1 + 2 * ((len - 2) + 32 * high);
    PickD(f, len, off);
  }

  lemma PickE(f: nat, len: nat, off: nat)
    requires f % 2 == 1 && f % 4 == 3 && f / 2 % 2 == 1 && f % 128 == 3
    requires f / 32768 == off && f / 128 % 256 + 3 == len
    ensures Decode3(f) == (off, len, 4)
  {
  }

  lemma Code3E(len: nat, off: nat)
    requires 3 <= len <= 255
    ensures Decode3((len - 3) * 128 + off * 32768 + 3) == (off, len, 4)
  {
    hide Decode3;
    var f := (len - 3) * 128 + off * 32768 + 3;
    var high := (len - 3) + 256 * off;
    assert f == 3 + 128 * high;
    assert f / 128 == high && f % 128 == 3;
    assert f == 3 + 4 * (32 * high);
    assert f / 2 == 1 + 2 * (32 * high);
    assert f / 32768 == off && high % 256 == len - 3;
    PickE(f, len, off);
  }

  /** The five codes exclude each other and are undone by the decoder, whatever follows them. */
  lemma Decode3Code3(len: nat, off: nat, above: nat)
    requires 3 <= len <= 255 && off < 131071
    requires Code3(len, off).0 + Shl8(above, Code3(len, off).1) < 0x1_0000_0000
    ensures Decode3(Code3(len, off).0 + Shl8(above, Code3(len, off).1)) == (off, len, Code3(len, off).1)
  {
    Shl8Values(above);
    hide Shl8, Decode3;
    if Code3(len, off).1 == 1 { Code3A(off, above); }
    else if Code3(len, off).1 == 3 { Code3D(len, off, above); }
    else if Code3(len, off).1 == 4 { Code3E(len, off); }
    else if len == 3 { Code3B(off, above); }
    else { Code3C(len, off, above); }
  }

  /** Level 1: hash, length and size of the code at the bottom of `fetch`. */
  function Decode1(fetch: nat): (r: (nat, nat, nat)) {
    if fetch % 16 != 0 then (fetch / 16 % 4096, fetch % 16 + 2, 2)
    else (fetch / 16 % 4096, fetch / 65536, 3)
  }

  lemma Decode1Code1(len: nat, h: nat, above: nat)
    requires 3 <= len <= 255 && h < HASH_VALUES
    requires Code1(len, h).0 + Shl8(above, Code1(len, h).1) < 0x100_0000
    ensures Decode1(Code1(len, h).0 + Shl8(above, Code1(len, h).1)) == (h, len, Code1(len, h).1)
  {
    Shl8Values(above);
    hide Shl8;
    if len < 18 {
      Split16(h * 16 + (len - 2) + 65536 * above, len - 2, h, above);
    } else {
      Split16(h * 16 + len * 65536, 0, h, len);
    }
  }

  lemma Split16(f: nat, low: nat, h: nat, high: nat)
    requires low < 16 && h < 4096 && f == low + 16 * h + 65536 * high
    ensures f % 16 == low && f / 16 % 4096 == h && f / 65536 == high
  {
    var m := h + 4096 * high;
    assert f == low + 16 * m;
    assert f / 16 == m && f % 16 == low;
    assert m % 4096 == h && m / 4096 == high;
  }

  // ---------- one token ----------

  lemma LiteralBytes(level: nat, source: seq<byte>, src: nat, cword: nat, st: State, toks: seq<Token>, left: nat,
                     s: seq<byte>)
    requires At(level, source, src, cword, st, toks, left, s) && toks != [] && left > 0 && toks[0].Lit?
    ensures src < |source| && source[src] == toks[0].b
    ensures At(level, source, src + 1, cword / 2, Step(st, toks[0]), toks[1..], left - 1, s)
  {
    AtToken(level, source, src, cword, st, toks, left, s);
    hide At;
    var w := UnitOf(level, st, toks[0], |s|).bytes;
    assert w == [toks[0].b];
    assert source[src] == source[src..src + 1][0];
  }

  lemma CodeBound(level: nat, st: State, t: Token, n: nat)
    requires Fits(level, st, t, n) && t.Match?
    ensures CodeOf(level, st, t, n).0 < Shl8(1, CodeOf(level, st, t, n).1)
  {
    Shl8Values(1);
    hide Lookup, Key;
  }

  /** The bytes at the read position of a match: its code, at the bottom of any longer piece of the stream. */
  lemma MatchBytes(level: nat, source: seq<byte>, src: nat, cword: nat, st: State, toks: seq<Token>, left: nat,
                   s: seq<byte>, k: nat)
    requires At(level, source, src, cword, st, toks, left, s) && toks != [] && left > 0 && toks[0].Match?
    requires Fits(level, st, toks[0], |s|)
    requires CodeOf(level, st, toks[0], |s|).1 <= k <= 4 && src + k <= |source|
    ensures var c := CodeOf(level, st, toks[0], |s|);
            LE(source[src..src + k]) == c.0 + Shl8(LE(source[src + c.1..src + k]), c.1) &&
            At(level, source, src + c.1, cword / 2, Step(st, toks[0]), toks[1..], left - 1, s)
  {
    AtToken(level, source, src, cword, st, toks, left, s);
    hide At;
    var c := CodeOf(level, st, toks[0], |s|);
    var w := source[src..src + k];
    assert w[..c.1] == source[src..src + c.1] == BytesOf(c.0, c.1);
    assert w[c.1..] == source[src + c.1..src + k];
    CodeBound(level, st, toks[0], |s|);
    FetchOfCode(w, c.0, c.1);
  }

  lemma ShiftFetch4(source: seq<byte>, src: nat)
    requires src + 5 <= |source|
    ensures LE(source[src + 1..src + 5])
         == LE(source[src..src + 4]) / 256 % 65536
            + (source[src + 3] as int) * 65536 + (source[src + 4] as int) * 0x100_0000
  {
    LE4(source[src..src + 4]);
    LE4(source[src + 1..src + 5]);
    hide LE;
    var b0: int, b1: int, b2: int, b3: int := source[src], source[src + 1], source[src + 2], source[src + 3];
    var f := b0 + 256 * (b1 + 256 * (b2 + 256 * b3));
    assert LE(source[src..src + 4]) == f;
    assert f / 256 == b1 + 256 * (b2 + 256 * b3);
    assert f / 256 % 65536 == b1 + 256 * b2;
  }

  /** Behind the last place for a match: the rest are literals, and the control words only have to be skipped. */
  method CopyTail(level: nat, source: seq<byte>, src0: nat, destination: array<byte>, dst0: nat, cword0: nat,
                  ghost st0: State, ghost toks0: seq<Token>, ghost left0: nat, ghost s: seq<byte>)
    requires At(level, source, src0, cword0, st0, toks0, left0, s)
    requires destination.Length == |s| && dst0 <= |s| && st0.out == destination[..dst0]
    requires dst0 + UNCONDITIONAL_MATCHLEN + UNCOMPRESSED_END >= |s|
    modifies destination
    ensures destination[..] == s
  {
    hide At, Fits;
    var src: nat, dst: nat, cword: nat := src0, dst0, cword0;
    ghost var st, toks, left := st0, toks0, left0;
    while dst <= destination.Length - 1
      invariant At(level, source, src, cword, st, toks, left, s)
      invariant dst0 <= dst <= |s| && st.out == destination[..dst]
    {
      SomethingLeft(level, source, src, cword, st, toks, left, s);
      if cword == 1 {
        AtRefillLiterals(level, source, src, cword, st, toks, s);
        src := src + CWORD_LEN;
        cword := 0x8000_0000;
        left := 31;
      }
      TailLiteral(level, source, src, cword, st, toks, left, s);
      LiteralBytes(level, source, src, cword, st, toks, left, s);
      destination[dst] := source[src];
      assert destination[..dst + 1] == st.out + [toks[0].b];
      dst := dst + 1;
      src := src + 1;
      cword := cword / 2;
      st, toks, left := Step(st, toks[0]), toks[1..], left - 1;
    }
    SomethingLeft(level, source, src, cword, st, toks, left, s);
  }

  lemma TailLiteral(level: nat, source: seq<byte>, src: nat, cword: nat, st: State, toks: seq<Token>, left: nat,
                    s: seq<byte>)
    requires At(level, source, src, cword, st, toks, left, s) && toks != []
    requires |st.out| + UNCONDITIONAL_MATCHLEN + UNCOMPRESSED_END >= |s|
    ensures toks[0].Lit?
  {
    NoMatchAtEnd(level, st, toks, |s|);
  }

  /** In the tail the control word need not be read: its flags are all 0. */
  lemma AtRefillLiterals(level: nat, source: seq<byte>, src: nat, cword: nat, st: State, toks: seq<Token>, s: seq<byte>)
    requires At(level, source, src, cword, st, toks, 0, s) && toks != []
    requires |st.out| + UNCONDITIONAL_MATCHLEN + UNCOMPRESSED_END >= |s|
    ensures src + 4 <= |source| && At(level, source, src + 4, 0x8000_0000, st, toks, 31, s)
  {
    AtRefill(level, source, src, cword, st, toks, s);
    LiteralWord(level, st, toks, |s|, 31);
    Pow31();
  }

  lemma {:induction false} LiteralWord(level: nat, st: State, toks: seq<Token>, n: nat, left: nat)
    requires Valid(level, st, toks, n)
    requires |st.out| + UNCONDITIONAL_MATCHLEN + UNCOMPRESSED_END >= n
    ensures Word(Units(level, st, toks, n), left) == Pow2(left)
    decreases left
  {
    if toks == [] {
      EmptyWord(left);
    } else if left > 0 {
      NoMatchAtEnd(level, st, toks, n);
      LiteralWord(level, Step(st, toks[0]), toks[1..], n, left - 1);
      assert Units(level, st, toks, n)[1..] == Units(level, Step(st, toks[0]), toks[1..], n);
    }
  }

  // ---------- level 3 ----------

  lemma FitsMatch3(st: State, t: Token, n: nat)
    requires Fits(3, st, t, n) && t.Match?
    ensures CodeOf(3, st, t, n) == Code3(t.len, t.offset) && 3 <= t.len <= 255 && 3 <= t.offset < 131071
    ensures t.offset <= |st.out| && |st.out| + t.len + UNCOMPRESSED_END <= n
    ensures Step(st, t).out == Copy(st.out, t.offset, t.len)
  {
  }

  method DecodeLevel3(source: seq<byte>, src0: nat, destination: array<byte>,
                      ghost toks0: seq<Token>, ghost s: seq<byte>)
    requires At(3, source, src0, 1, START, toks0, 0, s) && s != [] && destination.Length == |s|
    modifies destination
    ensures destination[..] == s
  {
    hide At, Fits, Step, CodeOf, Decode3, Code3, Copy, LE;
    var src: nat, dst: nat, cword: nat, fetch: nat := src0, 0, 1, 0;
    var size := destination.Length;
    var lastMatchstart := size - UNCONDITIONAL_MATCHLEN - UNCOMPRESSED_END - 1;
    ghost var st: State, toks: seq<Token>, left: nat := START, toks0, 0;
    while true
      invariant At(3, source, src, cword, st, toks, left, s)
      invariant dst < size && st.out == destination[..dst] && 0 <= left
      invariant left > 0 && dst <= lastMatchstart ==> src + 4 <= |source| && fetch == LE(source[src..src + 4])
      decreases |toks|
    {
      SomethingLeft(3, source, src, cword, st, toks, left, s);
      if cword == 1 {
        AtRefill(3, source, src, cword, st, toks, s);
        cword := FastRead(source, src, 4);
        src := src + 4;
        left := 31;
        SomethingLeft(3, source, src, cword, st, toks, left, s);
        if dst <= lastMatchstart {
          fetch := FastRead(source, src, 4);
        }
      }
      AtToken(3, source, src, cword, st, toks, left, s);
      if cword % 2 == 1 {
        src, dst, cword, fetch := Match3(source, src, destination, dst, cword, fetch, st, toks, left, s);
      } else if dst <= lastMatchstart {
        LiteralBytes(3, source, src, cword, st, toks, left, s);
        SomethingLeft(3, source, src + 1, cword / 2, Step(st, toks[0]), toks[1..], left - 1, s);
        destination[dst] := source[src];
        assert destination[..dst + 1] == st.out + [toks[0].b];
        StepLiteral(st, toks[0]);
        dst := dst + 1;
        src := src + 1;
        cword := cword / 2;
        ShiftFetch4(source, src - 1);
        fetch := fetch / 256 % 65536 + (source[src + 2] as int) * 65536 + (source[src + 3] as int) * 0x100_0000;
      } else {
        CopyTail(3, source, src, destination, dst, cword, st, toks, left, s);
        return;
      }
      st, toks, left := Step(st, toks[0]), toks[1..], left - 1;
    }
  }

  lemma StepLiteral(st: State, t: Token)
    requires t.Lit?
    ensures Step(st, t).out == st.out + [t.b]
  {
  }

  method Match3(source: seq<byte>, src: nat, destination: array<byte>, dst: nat, cword: nat, fetch: nat,
                ghost st: State, ghost toks: seq<Token>, ghost left: nat, ghost s: seq<byte>)
    returns (src': nat, dst': nat, cword': nat, fetch': nat)
    requires At(3, source, src, cword, st, toks, left, s) && toks != [] && left > 0 && toks[0].Match?
    requires Fits(3, st, toks[0], |s|)
    requires destination.Length == |s| && dst < |s| && st.out == destination[..dst]
    requires src + 4 <= |source| && fetch == LE(source[src..src + 4])
    modifies destination
    ensures At(3, source, src', cword', Step(st, toks[0]), toks[1..], left - 1, s)
    ensures dst' < |s| && Step(st, toks[0]).out == destination[..dst']
    ensures src' + 4 <= |source| && fetch' == LE(source[src'..src' + 4])
  {
    hide At, Decode3, Copy, LE, Code3, Fits, CodeOf, Shl8;
    ghost var t := toks[0];
    FitsMatch3(st, t, |s|);
    ghost var c := Code3(t.len, t.offset);
    MatchBytes(3, source, src, cword, st, toks, left, s, 4);
    LE4(source[src..src + 4]);
    Decode3Code3(t.len, t.offset, LE(source[src + c.1..src + 4]));
    var (offset, matchlen, size) := Decode3(fetch);
    cword' := cword / 2;
    src' := src + size;
    CopyBack(destination, dst, offset, matchlen);
    dst' := dst + matchlen;
    SomethingLeft(3, source, src', cword', Step(st, t), toks[1..], left - 1, s);
    fetch' := FastRead(source, src', 4);
  }
}
