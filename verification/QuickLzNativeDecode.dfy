/** The memory-safe decompressor of quicklz.c at level 3: no stream makes it leave its buffers, and it rejects no stream
    that stands for at least four bytes. */
module QuickLzNativeDecode {
  import opened Bits
  import opened Bytes
  import opened Lz
  import opened LittleEndian
  import opened QuickLzWord
  import opened QuickLzFormat
  import opened QuickLzDecode

  /** bitlut: how many of the next four flags, from the lowest on, are 0. */
  function Bitlut(v: nat): (n: nat)
    requires v < 16
    ensures n <= 4
  {
    if v == 0 then 4 else if v % 2 == 1 then 0 else if v % 4 == 2 then 1 else if v % 8 == 4 then 2 else 3
  }

  /** The table as the code has it. */
  const BITLUT: seq<nat> := [4, 0, 1, 0, 2, 0, 1, 0, 3, 0, 1, 0, 2, 0, 1, 0]

  lemma BitlutIs(v: nat)
    requires v < 16
    ensures BITLUT[v] == Bitlut(v)
  {
  }

  /** Subtraction of pointers, cast to 32 bits. */
  function Ui32(x: int): (n: nat) { x % 0x1_0000_0000 }

  /** memcpy_up from the stream: byte by byte, upwards. */
  method CopyUp(dst: array<byte>, at: nat, src: seq<byte>, from: nat, n: nat)
    requires at + n <= dst.Length && from + n <= |src|
    modifies dst
    ensures dst[..at] == old(dst[..at]) && dst[at..at + n] == src[from..from + n]
  {
    for i := 0 to n
      invariant dst[..at] == old(dst[..at]) && dst[at..at + i] == src[from..from + i]
    {
      dst[at + i] := src[from + i];
      assert dst[at..at + i + 1] == dst[at..at + i] + [dst[at + i]];
    }
  }

  // ---------- the up-to-four-literals step ----------

  /** A flag of 0: one literal. */
  lemma OneLiteral(source: seq<byte>, src: nat, cword: nat, st: State, toks: seq<Token>, left: nat, s: seq<byte>)
    requires At(3, source, src, cword, st, toks, left, s) && cword % 2 == 0 && |st.out| < |s|
    ensures toks != [] && left > 0 && toks[0].Lit? && src < |source|
    ensures At(3, source, src + 1, cword / 2, Step(st, toks[0]), toks[1..], left - 1, s)
    ensures Step(st, toks[0]).out == st.out + [source[src]]
  {
    hide At, Step, Fits, UnitOf;
    SomethingLeft(3, source, src, cword, st, toks, left, s);
    AtToken(3, source, src, cword, st, toks, left, s);
    LiteralBytes(3, source, src, cword, st, toks, left, s);
    StepLiteral(st, toks[0]);
  }

  /** As many flags of 0: as many literals, taken one at a time. */
  lemma {:induction false} SeveralLiterals(source: seq<byte>, src: nat, cword: nat, st: State, toks: seq<Token>,
                                           left: nat, s: seq<byte>, n: nat)
    returns (st': State, toks': seq<Token>, left': nat)
    requires At(3, source, src, cword, st, toks, left, s) && |st.out| + n <= |s| && n <= 4
    requires Literals(cword, n)
    ensures src + n <= |source| && At(3, source, src + n, Shr(cword, n), st', toks', left', s)
    ensures st'.out == st.out + source[src..src + n] && |toks'| == |toks| - n
    decreases n
  {
    hide At, Step;
    AtIn(source, src, cword, st, toks, left, s);
    if n == 0 {
      st', toks', left' := st, toks, left;
      assert st.out + source[src..src] == st.out;
    } else {
      OneLiteral(source, src, cword, st, toks, left, s);
      st', toks', left' :=
        SeveralLiterals(source, src + 1, cword / 2, Step(st, toks[0]), toks[1..], left - 1, s, n - 1);
      assert source[src..src + n] == [source[src]] + source[src + 1..src + n];
      assert st.out + [source[src]] + source[src + 1..src + n] == st.out + source[src..src + n];
    }
  }

  lemma AtIn(source: seq<byte>, src: nat, cword: nat, st: State, toks: seq<Token>, left: nat, s: seq<byte>)
    requires At(3, source, src, cword, st, toks, left, s)
    ensures src <= |source|
  {
  }

  /** The first n flags are 0. */
  predicate Literals(w: nat, n: nat) { n == 0 || (w % 2 == 0 && Literals(w / 2, n - 1)) }

  /** The table counts flags of 0, up to the first 1 of the lowest four. */
  lemma LowFlags(w: nat)
    ensures Literals(w, Bitlut(w % 16)) && (w % 2 == 0 ==> Bitlut(w % 16) > 0)
    ensures Bitlut(w % 16) < 4 ==> Shr(w, Bitlut(w % 16)) % 2 == 1
  {
    var k, v := w / 16, w % 16;
    assert w == 2 * (8 * k) + v;
    assert w / 2 == 8 * k + v / 2;
    assert w / 2 / 2 == 4 * k + v / 4;
    assert w / 2 / 2 / 2 == 2 * k + v / 8;
    Unroll(w);
  }

  lemma Unroll(w: nat)
    ensures var a, b, c := w / 2, w / 2 / 2, w / 2 / 2 / 2;
            Literals(w, 0) && (Literals(w, 1) <==> w % 2 == 0) && (Literals(w, 2) <==> w % 2 == 0 && a % 2 == 0) &&
            (Literals(w, 3) <==> w % 2 == 0 && a % 2 == 0 && b % 2 == 0) &&
            (Literals(w, 4) <==> w % 2 == 0 && a % 2 == 0 && b % 2 == 0 && c % 2 == 0) &&
            Shr(w, 0) == w && Shr(w, 1) == a && Shr(w, 2) == b && Shr(w, 3) == c
  {
    assert Literals(w / 2, 1) <==> w / 2 % 2 == 0;
    assert Literals(w / 2 / 2, 2) <==> w / 2 / 2 % 2 == 0 && w / 2 / 2 / 2 % 2 == 0;
    assert Literals(w / 2, 3) <==> w / 2 % 2 == 0 && Literals(w / 2 / 2, 2);
    assert Shr(w / 2, 2) == Shr(w / 2 / 2, 1);
  }

  // ---------- the decompressor ----------

  /** What is known of the decoder on a stream that holds s. */
  ghost predicate On(valid: bool, source: seq<byte>, src: nat, cword: nat, st: State, toks: seq<Token>, left: nat,
                     s: seq<byte>, out: seq<byte>)
  {
    valid ==> At(3, source, src, cword, st, toks, left, s) && st.out == out
  }

  /** The last literals. The control words are not read any more. */
  method Tail(source: seq<byte>, src0: nat, destination: array<byte>, dst0: nat, cword0: nat, size: nat,
              ghost valid: bool, ghost st0: State, ghost toks0: seq<Token>, ghost left0: nat, ghost s: seq<byte>)
    returns (n: nat)
    requires dst0 <= size <= destination.Length && dst0 + 11 >= size
    requires On(valid, source, src0, cword0, st0, toks0, left0, s, destination[..dst0]) && (valid ==> size == |s|)
    requires valid && toks0 != [] ==> left0 > 0 && toks0[0].Lit?
    modifies destination
    ensures n == 0 || n == size
    ensures valid ==> n == size && destination[..size] == s
  {
    hide At, Fits, Step;
    var src: nat, dst: nat, cword: nat := src0, dst0, cword0;
    ghost var st, toks, left := st0, toks0, left0;
    while dst < size
      invariant dst0 <= dst <= size && On(valid, source, src, cword, st, toks, left, s, destination[..dst])
      invariant valid && toks != [] ==> dst + 10 >= size || (left > 0 && toks[0].Lit?)
    {
      ghost var out := destination[..dst];
      if cword == 1 {
        if valid {
          SomethingLeft(3, source, src, cword, st, toks, left, s);
          AtRefillLiterals(3, source, src, cword, st, toks, s);
          left := 31;
        }
        src := src + CWORD_LEN;
        cword := 0x8000_0000;
      }
      if valid { TailStep(source, src, cword, st, toks, left, s); }
      if src >= |source| { return 0; }
      destination[dst] := source[src];
      assert destination[..dst + 1] == out + [source[src]];
      dst := dst + 1;
      src := src + 1;
      cword := cword / 2;
      if valid { st, toks, left := Step(st, toks[0]), toks[1..], left - 1; }
    }
    if valid { SomethingLeft(3, source, src, cword, st, toks, left, s); }
    n := size;
  }

  lemma TailStep(source: seq<byte>, src: nat, cword: nat, st: State, toks: seq<Token>, left: nat, s: seq<byte>)
    requires At(3, source, src, cword, st, toks, left, s) && |st.out| < |s| && cword != 1
    requires toks != [] ==> |st.out| + 10 >= |s| || (left > 0 && toks[0].Lit?)
    ensures toks != [] && left > 0 && toks[0].Lit? && src < |source|
    ensures At(3, source, src + 1, cword / 2, Step(st, toks[0]), toks[1..], left - 1, s)
    ensures Step(st, toks[0]).out == st.out + [source[src]]
  {
    hide At, Fits, Step;
    SomethingLeft(3, source, src, cword, st, toks, left, s);
    if |st.out| + 10 >= |s| { TailLiteral(3, source, src, cword, st, toks, left, s); }
    LiteralBytes(3, source, src, cword, st, toks, left, s);
    StepLiteral(st, toks[0]);
  }

  /** A match, with the two guards: `ok` is false if one of them rejects it. */
  method TakeMatch(source: seq<byte>, src: nat, destination: array<byte>, dst: nat, cword: nat, fetch: nat, size: nat,
                   ghost valid: bool, ghost st: State, ghost toks: seq<Token>, ghost left: nat, ghost s: seq<byte>)
    returns (ok: bool, src': nat, dst': nat, ghost st': State, ghost toks': seq<Token>, ghost left': nat)
    requires size <= destination.Length && size < 0x1_0000_0000 && (dst == 0 || dst + 4 <= size)
    requires src + 4 <= |source| && fetch == LE(source[src..src + 4]) && cword % 2 == 1 && (valid ==> cword != 1)
    requires On(valid, source, src, cword, st, toks, left, s, destination[..dst]) && (valid ==> size == |s| && dst < size)
    modifies destination
    ensures (dst' == 0 || dst' + 4 <= size) && (ok ==> dst < dst')
    ensures (valid ==> ok) && On(valid, source, src', cword / 2, st', toks', left', s, destination[..dst'])
  {
    hide At, Decode3, Copy, LE, Fits, CodeOf, Step;
    src', dst', st', toks', left' := src, dst, st, toks, left;
    var (offset, matchlen, length) := Decode3(fetch);
    if valid {
      MatchIs(source, src, cword, st, toks, left, s, fetch);
      st', toks', left' := Step(st, toks[0]), toks[1..], left - 1;
    }
    Decode3Length(fetch);
    if dst - offset < 0 || dst - offset > dst - MINOFFSET - 1 { return false, src', dst', st', toks', left'; }
    if matchlen > Ui32(size - 1 - dst - UNCOMPRESSED_END + 1) { return false, src', dst', st', toks', left'; }
    CopyBack(destination, dst, offset, matchlen);
    ok := true;
    src', dst' := src + length, dst + matchlen;
  }

  lemma Decode3Length(fetch: nat)
    ensures Decode3(fetch).1 > 0
  {
  }

  lemma MatchIs(source: seq<byte>, src: nat, cword: nat, st: State, toks: seq<Token>, left: nat, s: seq<byte>, fetch: nat)
    requires At(3, source, src, cword, st, toks, left, s) && cword % 2 == 1 && cword != 1 && |st.out| < |s|
    requires src + 4 <= |source| && fetch == LE(source[src..src + 4])
    ensures toks != [] && left > 0 && Fits(3, st, toks[0], |s|) && toks[0].Match?
    ensures 3 <= toks[0].len && 3 <= toks[0].offset <= |st.out| && |st.out| + toks[0].len + UNCOMPRESSED_END <= |s|
    ensures Decode3(fetch).0 == toks[0].offset && Decode3(fetch).1 == toks[0].len
    ensures At(3, source, src + Decode3(fetch).2, cword / 2, Step(st, toks[0]), toks[1..], left - 1, s)
    ensures Step(st, toks[0]).out == Copy(st.out, toks[0].offset, toks[0].len)
  {
    hide At, Decode3, Copy, LE, Code3, Fits, CodeOf, Shl8, Step;
    SomethingLeft(3, source, src, cword, st, toks, left, s);
    AtToken(3, source, src, cword, st, toks, left, s);
    var t := toks[0];
    FitsMatch3(st, t, |s|);
    var c := Code3(t.len, t.offset);
    MatchBytes(3, source, src, cword, st, toks, left, s, 4);
    LE4(source[src..src + 4]);
    Decode3Code3(t.len, t.offset, LE(source[src + c.1..src + 4]));
  }

  lemma FirstOfFour(a: seq<byte>, i: nat, b: seq<byte>, j: nat, n: nat)
    requires i + 4 <= |a| && j + 4 <= |b| && n <= 4 && a[i..i + 4] == b[j..j + 4]
    ensures a[..i + n] == a[..i] + b[j..j + n]
  {
    assert a[i..i + n] == a[i..i + 4][..n] == b[j..j + 4][..n] == b[j..j + n];
  }

  /** Up to four literals: four bytes are copied, and as many of them count as the table says. */
  method TakeLiterals(source: seq<byte>, src: nat, destination: array<byte>, dst: nat, cword: nat, size: nat,
                      ghost valid: bool, ghost st: State, ghost toks: seq<Token>, ghost left: nat, ghost s: seq<byte>)
    returns (src': nat, dst': nat, cword': nat, ghost st': State, ghost toks': seq<Token>, ghost left': nat)
    requires dst + 11 < size <= destination.Length && src + 4 <= |source| && cword % 2 == 0
    requires On(valid, source, src, cword, st, toks, left, s, destination[..dst]) && (valid ==> size == |s|)
    modifies destination
    ensures dst < dst' && dst' + 4 <= size
    ensures On(valid, source, src', cword', st', toks', left', s, destination[..dst'])
    ensures valid ==> |toks'| == |toks| - Bitlut(cword % 16)
  {
    hide At, Literals, Shr;
    BitlutIs(cword % 16);
    LowFlags(cword);
    var n := BITLUT[cword % 16];
    ghost var out := destination[..dst];
    CopyUp(destination, dst, source, src, 4);
    st', toks', left' := st, toks, left;
    if valid { st', toks', left' := SeveralLiterals(source, src, cword, st, toks, left, s, n); }
    ghost var now := destination[..];
    assert now[..dst] == out && now[dst..dst + 4] == source[src..src + 4];
    FirstOfFour(now, dst, source, src, n);
    src', dst', cword' := src + n, dst + n, Shr(cword, n);
  }

  // ---------- the whole loop ----------

  lemma LiteralNext(source: seq<byte>, src: nat, cword: nat, st: State, toks: seq<Token>, left: nat, s: seq<byte>)
    requires At(3, source, src, cword, st, toks, left, s) && cword % 2 == 0
    ensures toks != [] ==> left > 0 && toks[0].Lit?
  {
    hide At;
    if toks != [] {
      SomethingLeft(3, source, src, cword, st, toks, left, s);
      AtToken(3, source, src, cword, st, toks, left, s);
    }
  }

  /** A stream for fewer than four bytes is not long enough for the decoder's look-ahead. */
  lemma {:induction false} ShortRest(st: State, toks: seq<Token>, n: nat, left: nat)
    requires Valid(3, st, toks, n) && |Run(3, st, toks, n).out| == n && n <= 4 && n <= |st.out| + left
    ensures |Rest(Units(3, st, toks, n), left)| == n - |st.out|
    decreases |toks|
  {
    hide Word;
    if toks != [] {
      NoMatchAtEnd(3, st, toks, n);
      ShortRest(Step(st, toks[0]), toks[1..], n, left - 1);
      assert Units(3, st, toks, n)[1..] == Units(3, Step(st, toks[0]), toks[1..], n);
    }
  }

  /** Where the stream promises something, the guards before reading let it pass. */
  lemma GuardsPass(source: seq<byte>, src: nat, cword: nat, st: State, toks: seq<Token>, left: nat, s: seq<byte>)
    requires At(3, source, src, cword, st, toks, left, s) && |st.out| + 4 <= |s| && (cword != 1 || left > 0)
    ensures src + 4 <= |source| && cword != 1
  {
    hide At;
    SomethingLeft(3, source, src, cword, st, toks, left, s);
  }

  lemma TooShort(source: seq<byte>, src: nat, cword: nat, st: State, toks: seq<Token>, s: seq<byte>)
    requires At(3, source, src, cword, st, toks, 31, s) && |s| < 4
    ensures src + 4 > |source|
  {
    ShortRest(st, toks, |s|, 31);
  }

  method DecompressCore(source: seq<byte>, src0: nat, destination: array<byte>, size: nat,
                        ghost valid: bool, ghost toks0: seq<Token>, ghost s: seq<byte>)
    returns (n: nat)
    requires size <= destination.Length && size < 0x1_0000_0000
    requires valid ==> At(3, source, src0, 1, START, toks0, 0, s) && 0 < |s| == size
    modifies destination
    ensures n == 0 || n == size
    ensures valid ==> n == (if |s| < 4 then 0 else |s|) && (|s| < 4 || destination[..size] == s)
  {
    hide At, Fits, Step, LE;
    var src: nat, dst: nat, cword: nat := src0, 0, 1;
    ghost var st, toks, left := START, toks0, 0;
    while true
      invariant dst == 0 || dst + 4 <= size
      invariant On(valid, source, src, cword, st, toks, left, s, destination[..dst])
      invariant valid && size < 4 ==> cword == 1 && dst == 0
      decreases size - dst
    {
      if cword == 1 {
        if valid {
          SomethingLeft(3, source, src, cword, st, toks, left, s);
          AtRefill(3, source, src, cword, st, toks, s);
          left := 31;
          if size < 4 { TooShort(source, src + 4, LE(source[src..src + 4]), st, toks, s); }
        }
        if src + CWORD_LEN > |source| { return 0; }
        cword := FastRead(source, src, CWORD_LEN);
        src := src + CWORD_LEN;
      }
      if valid && size >= 4 { GuardsPass(source, src, cword, st, toks, left, s); }
      if src + 4 > |source| { return 0; }
      var fetch := FastRead(source, src, 4);
      if cword % 2 == 1 {
        var ok;
        ok, src, dst, st, toks, left :=
          TakeMatch(source, src, destination, dst, cword, fetch, size, valid, st, toks, left, s);
        if !ok { return 0; }
        cword := cword / 2;
      } else if dst + UNCONDITIONAL_MATCHLEN + UNCOMPRESSED_END < size - 1 {
        src, dst, cword, st, toks, left :=
          TakeLiterals(source, src, destination, dst, cword, size, valid, st, toks, left, s);
      } else {
        if valid { LiteralNext(source, src, cword, st, toks, left, s); }
        n := Tail(source, src, destination, dst, cword, size, valid, st, toks, left, s);
        return n;
      }
    }
  }
}
