/** The compressor of QuickLZ.java: what levels 1 and 3 share. */
module QuickLzEncode {
  import opened Bits
  import opened Bytes
  import opened Lz
  import opened LittleEndian
  import opened QuickLzWord
  import opened QuickLzFormat
  import opened QuickLzChoice

  /** What the compressor has done: `done` are the units of complete groups, `cur` those of the group being filled. */
  datatype Trail = Trail(toks: seq<Token>, done: seq<Unit>, cur: seq<Unit>, groups: nat)

  const NOTHING := Trail([], [], [], 0)

  /** The destination holds the trail: complete groups, room for a control word, the bodies of the current group. */
  ghost predicate Written(level: nat, s: seq<byte>, dest: seq<byte>, src: nat, dst: nat, cwordPtr: nat, cword: nat,
                          tr: Trail)
  {
    src <= |s| && Valid(level, START, tr.toks, |s|) && Run(level, START, tr.toks, |s|).out == s[..src] &&
    Units(level, START, tr.toks, |s|) == tr.done + tr.cur && |tr.done| == 31 * tr.groups && |tr.cur| <= 31 &&
    cword == Filling(tr.cur) &&
    DEFAULT_HEADERLEN <= cwordPtr && cwordPtr + 4 <= dst <= |dest| &&
    dest[DEFAULT_HEADERLEN..cwordPtr] == Rest(tr.done, 0) && dest[cwordPtr + 4..dst] == Bodies(tr.cur)
  }

  lemma NothingWritten(level: nat, s: seq<byte>, dest: seq<byte>)
    requires |dest| >= 13
    ensures Written(level, s, dest, 0, 13, 9, 0x8000_0000, NOTHING)
  {
    FullGroup([]);
    assert s[..0] == [];
  }

  /** The state of the decoder once it has seen the trail. */
  ghost function Seen(level: nat, s: seq<byte>, tr: Trail): (st: State)
    requires Valid(level, START, tr.toks, |s|)
  {
    Run(level, START, tr.toks, |s|)
  }

  lemma PutToken(level: nat, s: seq<byte>, dest: seq<byte>, dest': seq<byte>, src: nat, dst: nat, cwordPtr: nat,
                 cword: nat, tr: Trail, t: Token)
    returns (tr': Trail)
    requires Written(level, s, dest, src, dst, cwordPtr, cword, tr) && |tr.cur| < 31
    requires Fits(level, Seen(level, s, tr), t, |s|)
    requires src + Span(t) <= |s| && Step(Seen(level, s, tr), t).out == s[..src + Span(t)]
    requires var w := UnitOf(level, Seen(level, s, tr), t, |s|).bytes;
             dst + |w| <= |dest'| && dest'[..dst] == dest[..dst] && dest'[dst..dst + |w|] == w
    ensures var w := UnitOf(level, Seen(level, s, tr), t, |s|).bytes;
            Written(level, s, dest', src + Span(t), dst + |w|, cwordPtr,
                    cword / 2 + (if t.Match? then 0x8000_0000 else 0), tr')
    ensures tr'.toks == tr.toks + [t] && Valid(level, START, tr'.toks, |s|)
    ensures Seen(level, s, tr') == Step(Seen(level, s, tr), t)
    ensures tr'.groups == tr.groups && |tr'.cur| == |tr.cur| + 1
  {
    hide Fits, UnitOf, Step, Valid, Units, Rest, Bodies, Filling, Run;
    var u := UnitOf(level, Seen(level, s, tr), t, |s|);
    AppendToken(level, START, tr.toks, t, |s|);
    PutFlag(tr.cur, u);
    tr' := Trail(tr.toks + [t], tr.done, tr.cur + [u], tr.groups);
    assert tr.done + tr.cur + [u] == tr.done + (tr.cur + [u]);
    BodiesSnoc(tr.cur, u);
    SlicesKeep(dest, dest', cwordPtr, dst, u.bytes);
  }

  lemma BodiesSnoc(us: seq<Unit>, u: Unit)
    ensures Bodies(us + [u]) == Bodies(us) + u.bytes
  {
    var more := us + [u];
    assert more[..|more| - 1] == us;
  }

  lemma SlicesKeep(a: seq<byte>, b: seq<byte>, i: nat, j: nat, w: seq<byte>)
    requires DEFAULT_HEADERLEN <= i && i + 4 <= j <= |a| && j + |w| <= |b|
    requires b[..j] == a[..j] && b[j..j + |w|] == w
    ensures b[DEFAULT_HEADERLEN..i] == a[DEFAULT_HEADERLEN..i]
    ensures b[i + 4..j + |w|] == a[i + 4..j] + w
  {
    assert b[DEFAULT_HEADERLEN..i] == b[..j][DEFAULT_HEADERLEN..i];
    assert b[i + 4..j + |w|] == b[..j][i + 4..] + b[j..j + |w|];
  }

  lemma FlushGroup(level: nat, s: seq<byte>, dest: seq<byte>, dest': seq<byte>, src: nat, dst: nat, cwordPtr: nat,
                   cword: nat, tr: Trail)
    returns (tr': Trail)
    requires Written(level, s, dest, src, dst, cwordPtr, cword, tr) && cword % 2 == 1
    requires dst + 4 <= |dest'| && |dest'| == |dest|
    requires dest'[..cwordPtr] == dest[..cwordPtr] && dest'[cwordPtr + 4..] == dest[cwordPtr + 4..]
    requires dest'[cwordPtr..cwordPtr + 4] == BytesOf(cword / 2 + 0x8000_0000, 4)
    ensures |tr.cur| == 31
    ensures Written(level, s, dest', src, dst + 4, dst, 0x8000_0000, tr')
    ensures tr'.toks == tr.toks && |tr'.cur| == 0
  {
    hide Valid, Units, Rest, Filling, Run, Word, BytesOf, Bodies;
    FullGroup(tr.cur);
    WordOfFull(tr.cur);
    FullGroup([]);
    BodiesEmpty();
    var all := tr.done + tr.cur;
    tr' := Trail(tr.toks, all, [], tr.groups + 1);
    assert all + [] == all && dest'[dst + 4..dst + 4] == [];
    WholeStream(tr.done, tr.cur, tr.groups);
    GroupWritten(dest, dest', cwordPtr, dst, BytesOf(Word(tr.cur, 31), 4), Bodies(tr.cur));
  }

  lemma BodiesEmpty()
    ensures Bodies([]) == []
  {
  }

  lemma WordOfFull(us: seq<Unit>)
    requires |us| == 31
    ensures Filling(us) / 2 + 0x8000_0000 == Word(us, 31)
  {
    WordOfGroup(us, 31);
    Pow31();
    assert Pow2(0) == 1;
    hide Word, Flags;
  }

  lemma GroupWritten(a: seq<byte>, b: seq<byte>, i: nat, j: nat, w: seq<byte>, body: seq<byte>)
    requires DEFAULT_HEADERLEN <= i && i + 4 <= j <= |a| == |b| && |w| == 4
    requires b[..i] == a[..i] && b[i + 4..] == a[i + 4..] && b[i..i + 4] == w && a[i + 4..j] == body
    ensures b[DEFAULT_HEADERLEN..j] == a[DEFAULT_HEADERLEN..i] + (w + body)
  {
    assert b[DEFAULT_HEADERLEN..i] == b[..i][DEFAULT_HEADERLEN..];
    assert b[i + 4..j] == b[i + 4..][..j - i - 4];
    assert b[DEFAULT_HEADERLEN..j] == b[DEFAULT_HEADERLEN..i] + (b[i..i + 4] + b[i + 4..j]);
  }

  /** With the last control word in place the destination is the whole stream. */
  lemma LastGroup(level: nat, s: seq<byte>, dest: seq<byte>, dest': seq<byte>, dst: nat, cwordPtr: nat,
                  cword: nat, w: nat, tr: Trail)
    requires Written(level, s, dest, |s|, dst, cwordPtr, cword, tr) && |tr.cur| > 0 && |dest'| == |dest|
    requires w == Word(tr.cur, 31)
    requires dest'[..cwordPtr] == dest[..cwordPtr] && dest'[cwordPtr + 4..] == dest[cwordPtr + 4..]
    requires dest'[cwordPtr..cwordPtr + 4] == BytesOf(w, 4)
    ensures dest'[DEFAULT_HEADERLEN..dst] == Rest(Units(level, START, tr.toks, |s|), 0)
    ensures Run(level, START, tr.toks, |s|).out == s
  {
    hide Valid, Units, Rest, Filling, Run, Word, BytesOf, Bodies;
    WholeStream(tr.done, tr.cur, tr.groups);
    GroupWritten(dest, dest', cwordPtr, dst, BytesOf(w, 4), Bodies(tr.cur));
    assert s[..|s|] == s;
  }

  // ---------- the output never outgrows its buffer ----------

  /** Where the current group began, and how much it can have added: no token is longer than what it stands for. */
  ghost predicate Room(n: nat, src: nat, dst: nat, groupSrc: nat, groupDst: nat, count: nat) {
    count <= 31 && groupSrc + count <= src && 9 <= groupDst &&
    dst <= groupDst + 4 + (src - groupSrc) && dst <= groupDst + 4 + 4 * count &&
    (if groupSrc <= 3 * (n / 4) then 31 * (groupDst - 9) <= 35 * groupSrc else groupDst <= groupSrc)
  }

  lemma RoomBound(n: nat, src: nat, dst: nat, groupSrc: nat, groupDst: nat, count: nat)
    requires Room(n, src, dst, groupSrc, groupDst, count) && src <= n
    ensures dst <= n + 137
  {
    if groupSrc <= 3 * (n / 4) {
      assert 31 * (groupDst - 9) <= 105 * (n / 4);
      assert 4 * (n / 4) <= n;
      assert 31 * (groupDst - 9) <= 31 * n;
    }
  }

  lemma RoomStarts(n: nat)
    ensures Room(n, 0, 13, 0, 9, 0)
  {
  }

  lemma RoomToken(n: nat, src: nat, dst: nat, groupSrc: nat, groupDst: nat, count: nat, span: nat, w: nat)
    requires Room(n, src, dst, groupSrc, groupDst, count) && count < 31 && w <= span && 1 <= w <= 4
    ensures Room(n, src + span, dst + w, groupSrc, groupDst, count + 1)
  {
  }

  /** A new group is begun only early in the source, or while the output is not behind. */
  lemma RoomGroup(n: nat, src: nat, dst: nat, groupSrc: nat, groupDst: nat)
    requires Room(n, src, dst, groupSrc, groupDst, 31) && 9 <= dst
    requires !(src > 3 * (n / 4) && dst > src - src / 32)
    ensures Room(n, src, dst + 4, src, dst, 0)
  {
    if src <= 3 * (n / 4) {
      assert 31 * (dst - 9) <= 35 * groupSrc + 31 * (4 + (src - groupSrc));
    }
  }

  // ---------- the steps of the compressor ----------

  method Flush(level: nat, s: seq<byte>, destination: array<byte>, src: nat, dst: nat, cwordPtr: nat, cword: nat,
               ghost tr: Trail)
    returns (ghost tr': Trail)
    requires Written(level, s, destination[..], src, dst, cwordPtr, cword, tr) && cword % 2 == 1
    requires dst + 4 <= destination.Length
    modifies destination
    ensures Written(level, s, destination[..], src, dst + 4, dst, 0x8000_0000, tr')
    ensures tr'.toks == tr.toks && |tr'.cur| == 0 && |tr.cur| == 31
  {
    ghost var was := destination[..];
    hide Valid, Units, Rest, Filling, Run, Bodies, BytesOf;
    FastWrite(destination, cwordPtr, cword / 2 + 0x8000_0000, 4);
    tr' := FlushGroup(level, s, was, destination[..], src, dst, cwordPtr, cword, tr);
  }

  lemma LitFits(level: nat, s: seq<byte>, st: State, src: nat)
    requires src < |s| && st.out == s[..src]
    ensures Fits(level, st, Lit(s[src]), |s|) && UnitOf(level, st, Lit(s[src]), |s|) == Unit(false, [s[src]])
    ensures Step(st, Lit(s[src])).out == s[..src + 1]
  {
    assert s[..src + 1] == s[..src] + [s[src]];
  }

  method PutLit(level: nat, s: seq<byte>, destination: array<byte>, src: nat, dst: nat, cwordPtr: nat, cword: nat,
                ghost tr: Trail)
    returns (ghost tr': Trail)
    requires Written(level, s, destination[..], src, dst, cwordPtr, cword, tr) && |tr.cur| < 31
    requires src < |s| && dst < destination.Length
    modifies destination
    ensures Written(level, s, destination[..], src + 1, dst + 1, cwordPtr, cword / 2, tr')
    ensures tr'.toks == tr.toks + [Lit(s[src])] && Valid(level, START, tr'.toks, |s|)
    ensures Valid(level, START, tr.toks, |s|) && Seen(level, s, tr') == Step(Seen(level, s, tr), Lit(s[src]))
    ensures |tr'.cur| == |tr.cur| + 1
  {
    ghost var was := destination[..];
    hide Valid, Units, Rest, Filling, Run, Bodies, Fits, UnitOf, Step;
    LitFits(level, s, Seen(level, s, tr), src);
    destination[dst] := s[src];
    assert destination[..dst] == was[..dst] && destination[..][dst..dst + 1] == [s[src]];
    tr' := PutToken(level, s, was, destination[..], src, dst, cwordPtr, cword, tr, Lit(s[src]));
  }

  method PutCode(level: nat, s: seq<byte>, destination: array<byte>, src: nat, dst: nat, cwordPtr: nat, cword: nat,
                 value: nat, size: nat, ghost tr: Trail, ghost t: Token)
    returns (ghost tr': Trail)
    requires Written(level, s, destination[..], src, dst, cwordPtr, cword, tr) && |tr.cur| < 31
    requires t.Match? && Fits(level, Seen(level, s, tr), t, |s|)
    requires CodeOf(level, Seen(level, s, tr), t, |s|) == (value, size) && dst + size <= destination.Length
    requires Repeats(s, src, t.len, t.offset)
    modifies destination
    ensures Written(level, s, destination[..], src + t.len, dst + size, cwordPtr, cword / 2 + 0x8000_0000, tr')
    ensures tr'.toks == tr.toks + [t] && Valid(level, START, tr'.toks, |s|)
    ensures Valid(level, START, tr.toks, |s|) && Seen(level, s, tr') == Step(Seen(level, s, tr), t)
    ensures |tr'.cur| == |tr.cur| + 1
  {
    ghost var was := destination[..];
    hide Valid, Units, Rest, Filling, Run, Bodies, BytesOf, CodeOf, Lookup, Key;
    CopyOf(s, src, t.offset, t.len);
    FastWrite(destination, dst, value, size);
    assert destination[..dst] == was[..dst] && destination[..][dst..dst + size] == BytesOf(value, size);
    tr' := PutToken(level, s, was, destination[..], src, dst, cwordPtr, cword, tr, t);
  }

  /** Stored as it is. */
  method StoreRaw(level: nat, source: seq<byte>) returns (d2: array<byte>)
    requires level < 4 && |source| <= MAX_SIZE - 400
    ensures fresh(d2) && d2[..] == Header(level, false, true, |source| + DEFAULT_HEADERLEN, |source|) + source
    ensures d2.Length == |source| + DEFAULT_HEADERLEN && d2[..9] == Header(level, false, true, d2.Length, |source|)
  {
    d2 := new byte[|source| + DEFAULT_HEADERLEN](_ => 0);
    WriteHeader(d2, level, false, |source|, |source| + DEFAULT_HEADERLEN);
    ghost var header := d2[..9];
    for i := 0 to |source|
      invariant d2[..9] == header && d2[9..9 + i] == source[..i]
    {
      d2[9 + i] := source[i];
    }
    assert d2[..] == d2[..9] + d2[9..];
  }

  method WriteHeader(dst: array<byte>, level: nat, compressible: bool, sizeCompressed: nat, sizeDecompressed: nat)
    requires level < 4 && 9 <= dst.Length
    modifies dst
    ensures dst[..9] == Header(level, compressible, true, sizeDecompressed, sizeCompressed)
    ensures dst[9..] == old(dst[9..])
  {
    hide BytesOf;
    ghost var was := dst[..];
    dst[0] := 2 + (if compressible then 1 else 0) + level * 4 + 64;
    FastWrite(dst, 1, sizeDecompressed, 4);
    FastWrite(dst, 5, sizeCompressed, 4);
    assert dst[..9] == dst[..1] + dst[1..5] + dst[5..9];
    assert dst[..5][1..5] == dst[1..5];
  }

  /** The literals behind the last place for a match. */
  method PutTail(level: nat, s: seq<byte>, destination: array<byte>, src0: nat, dst0: nat, cwordPtr0: nat,
                 cword0: nat, ghost tr0: Trail, ghost head: nat, ghost from: nat)
    returns (dst: nat, cwordPtr: nat, cword: nat, ghost tr: Trail)
    requires Written(level, s, destination[..], src0, dst0, cwordPtr0, cword0, tr0)
    requires destination.Length == |s| + 400 && dst0 <= |s| + 137 && src0 < |s| <= src0 + 10
    requires Story(level, s, tr0.toks, src0, head, from)
    modifies destination
    ensures Written(level, s, destination[..], |s|, dst, cwordPtr, cword, tr)
    ensures dst <= |s| + 187 && |tr.cur| > 0 && Complete(level, s, tr.toks, head, from)
  {
    hide Written, Filling, Story;
    var src: nat := src0;
    dst, cwordPtr, cword, tr := dst0, cwordPtr0, cword0, tr0;
    while src <= |s| - 1
      invariant src0 <= src <= |s| && dst <= dst0 + 5 * (src - src0)
      invariant Written(level, s, destination[..], src, dst, cwordPtr, cword, tr)
      invariant src > src0 ==> |tr.cur| > 0
      invariant Story(level, s, tr.toks, src, head, from)
    {
      GroupState(level, s, destination[..], src, dst, cwordPtr, cword, tr);
      if cword % 2 == 1 {
        tr := Flush(level, s, destination, src, dst, cwordPtr, cword, tr);
        cwordPtr := dst;
        dst := dst + CWORD_LEN;
        cword := 0x8000_0000;
      }
      StoryTail(level, s, tr.toks, src, head, from);
      tr := PutLit(level, s, destination, src, dst, cwordPtr, cword, tr);
      src := src + 1;
      dst := dst + 1;
      cword := cword / 2;
    }
  }

  /** The last control word, the header, and the copy trimmed to size. */
  method Seal(level: nat, s: seq<byte>, destination: array<byte>, dst: nat, cwordPtr: nat, cword: nat,
              ghost tr: Trail)
    returns (d2: array<byte>)
    requires (level == 1 || level == 3) && 0 < |s| <= MAX_SIZE && |tr.cur| > 0
    requires Written(level, s, destination[..], |s|, dst, cwordPtr, cword, tr)
    modifies destination
    ensures fresh(d2) && d2.Length == dst >= 9 && Holds(level, d2[..], s, true, dst, tr.toks)
    ensures d2[..9] == Header(level, true, true, d2.Length, |s|)
  {
    hide Written, Filling, Units, Rest, Header, Word;
    GroupState(level, s, destination[..], |s|, dst, cwordPtr, cword, tr);
    var w := FinishWord(cword, tr.cur);
    ghost var was := destination[..];
    FastWrite(destination, cwordPtr, w, 4);
    LastGroup(level, s, was, destination[..], dst, cwordPtr, cword, w, tr);
    ghost var body := destination[DEFAULT_HEADERLEN..dst];
    WriteHeader(destination, level, true, |s|, dst);
    assert destination[..dst] == destination[..9] + destination[9..][..dst - 9];
    d2 := new byte[dst](_ => 0);
    CopyRaw(d2, destination[..], dst);
    assert d2[..] == d2[..dst] == Header(level, true, true, dst, |s|) + body;
  }

  lemma GroupState(level: nat, s: seq<byte>, dest: seq<byte>, src: nat, dst: nat, cwordPtr: nat, cword: nat, tr: Trail)
    requires Written(level, s, dest, src, dst, cwordPtr, cword, tr)
    ensures |tr.cur| <= 31 && cword == Filling(tr.cur) && (cword % 2 == 1) == (|tr.cur| == 31)
    ensures 9 <= cwordPtr && cwordPtr + 4 <= dst <= |dest| && src <= |s|
    ensures Valid(level, START, tr.toks, |s|) && Seen(level, s, tr).out == s[..src]
  {
    FullGroup(tr.cur);
  }

  // ---------- the test of the ratio ----------

  /** Between two tokens: the test is still to be made if the group is full. */
  ghost predicate Between(level: nat, s: seq<byte>, tr: Trail, src: nat, head: nat, from: nat) {
    Story(level, s, tr.toks, src, head, from) && (tr.cur == [] ==> tr.toks == [])
  }

  lemma BetweenStarts(level: nat, s: seq<byte>, head: nat, from: nat)
    ensures Between(level, s, NOTHING, 0, head, from)
  {
    StoryStarts(level, s, head, from);
  }

  /** What the compressor compares is what giving up is said to depend on. */
  /** What the compressor compares is what giving up is said to depend on. */
  lemma Test(level: nat, s: seq<byte>, dest: seq<byte>, src: nat, dst: nat, cwordPtr: nat, cword: nat, tr: Trail,
             head: nat, from: nat)
    requires Written(level, s, dest, src, dst, cwordPtr, cword, tr) && Between(level, s, tr, src, head, from)
    requires src + 11 <= |s|
    ensures Fails(level, s, tr.toks, head, from) <==>
              cword % 2 == 1 && src > from && head + dst - DEFAULT_HEADERLEN > src - src / 32
    ensures Chosen(level, s, tr.toks) && Story(level, s, tr.toks, src, head, from)
  {
    hide Valid, Units, Rest, Run, Filling, Bodies, Chosen, PaysBefore, Pos, Word, BytesOf;
    GroupState(level, s, dest, src, dst, cwordPtr, cword, tr);
    assert |tr.toks| == 31 * tr.groups + |tr.cur|;
    if |tr.cur| == 31 { WholeStream(tr.done, tr.cur, tr.groups); }
  }

  /** The next token has been chosen and sent. */
  lemma BetweenNext(level: nat, s: seq<byte>, tr: Trail, tr': Trail, src: nat, t: Token, head: nat, from: nat)
    requires Story(level, s, tr.toks, src, head, from) && !Fails(level, s, tr.toks, head, from)
    requires src + 11 <= |s| && tr'.toks == tr.toks + [t] && tr'.cur != []
    requires level == 3 ==> Picked3(s, src, t)
    requires level != 3 ==> Picked1(s, StartsOf(tr.toks), LitsOf(tr.toks), src, t)
    ensures Between(level, s, tr', src + Span(t), head, from)
  {
    hide Fails, Picked3, Picked1, Pos, StartsOf, LitsOf, PaysBefore, Chosen;
    StoryNext(level, s, tr.toks, src, t, head, from);
  }

  /** The beginning of a control word: `stop` where the coded form does not pay, otherwise a new group if the last one is
      full. */
  method StartGroup(level: nat, s: seq<byte>, destination: array<byte>, src: nat, dst0: nat, cwordPtr0: nat, cword0: nat,
                    ghost tr0: Trail, ghost gs0: nat, ghost gd0: nat)
    returns (stop: bool, dst: nat, cwordPtr: nat, cword: nat, ghost tr: Trail, ghost gs: nat, ghost gd: nat)
    requires Written(level, s, destination[..], src, dst0, cwordPtr0, cword0, tr0)
    requires Between(level, s, tr0, src, DEFAULT_HEADERLEN, From(s)) && Room(|s|, src, dst0, gs0, gd0, |tr0.cur|)
    requires src + 11 <= |s| && destination.Length == |s| + 400
    modifies destination
    ensures stop <==> Fails(level, s, tr0.toks, DEFAULT_HEADERLEN, From(s))
    ensures Story(level, s, tr0.toks, src, DEFAULT_HEADERLEN, From(s)) && Chosen(level, s, tr0.toks)
    ensures !stop ==>
              Written(level, s, destination[..], src, dst, cwordPtr, cword, tr) && |tr.cur| < 31 &&
              Room(|s|, src, dst, gs, gd, |tr.cur|) && dst + 4 <= destination.Length && tr.toks == tr0.toks
  {
    hide Written, Room, Fails, Between, Story, Chosen;
    var n := |s|;
    dst, cwordPtr, cword, tr, gs, gd := dst0, cwordPtr0, cword0, tr0, gs0, gd0;
    stop := false;
    GroupState(level, s, destination[..], src, dst, cwordPtr, cword, tr);
    RoomBound(n, src, dst, gs, gd, |tr.cur|);
    Test(level, s, destination[..], src, dst, cwordPtr, cword, tr, DEFAULT_HEADERLEN, From(s));
    if cword % 2 == 1 {
      if src > 3 * (n / 4) && dst > src - src / 32 {
        stop := true;
        return;
      }
      RoomGroup(n, src, dst, gs, gd);
      tr := Flush(level, s, destination, src, dst, cwordPtr, cword, tr);
      gs, gd := src, dst;
      cwordPtr := dst;
      dst := dst + CWORD_LEN;
      cword := 0x8000_0000;
      RoomBound(n, src, dst, gs, gd, |tr.cur|);
    }
  }

  lemma ShowCoded(level: nat, r: seq<byte>, s: seq<byte>, toks: seq<Token>)
    requires Holds(level, r, s, true, |r|, toks) && Complete(level, s, toks, DEFAULT_HEADERLEN, From(s))
    ensures Denotes(level, r, s) && Compressed(level, r, s)
  {
    hide Holds, Complete;
    assert DenotesAs(level, r, s, true, |r|) by { HoldsMeans(level, r, s, true, |r|, toks); }
    assert CodedAs(level, r, s, toks);
  }

  lemma HoldsMeans(level: nat, r: seq<byte>, s: seq<byte>, long: bool, csize: nat, toks: seq<Token>)
    requires Holds(level, r, s, long, csize, toks)
    ensures DenotesAs(level, r, s, long, csize)
  {
    hide Valid, Run, Units, Rest, Header;
  }

  lemma ShowStored(level: nat, r: seq<byte>, s: seq<byte>, toks: seq<Token>)
    requires (level == 1 || level == 3) && |s| <= MAX_SIZE
    requires r == Header(level, false, true, |s| + DEFAULT_HEADERLEN, |s|) + s
    requires Chosen(level, s, toks) && Fails(level, s, toks, DEFAULT_HEADERLEN, From(s))
    ensures Denotes(level, r, s) && Compressed(level, r, s)
  {
    hide Chosen, Fails, Header;
    assert DenotesAs(level, r, s, true, |s| + DEFAULT_HEADERLEN);
    assert StoredFor(level, r, s, toks);
  }
}
