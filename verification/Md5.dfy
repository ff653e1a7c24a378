/** Incremental digesting: the buffering of include/md32_common.h on a little-endian data order. */
module Md5 {
  import opened Bytes
  import opened LittleEndian
  import opened Md5Spec

  // ---------- the byte-to-word macros ----------

  lemma Shifts(b: nat)
    ensures Shl8(b, 0) == b && Shl8(b, 1) == 0x100 * b && Shl8(b, 2) == 0x1_0000 * b && Shl8(b, 3) == 0x100_0000 * b
  {
    assert Shl8(b, 3) == 256 * Shl8(b, 2) && Shl8(b, 2) == 256 * Shl8(b, 1);
  }

  /** One byte more at the high end of a word. */
  lemma OneMore(p: seq<byte>, b: byte)
    ensures LE(p + [b]) == LE(p) + Shl8(b, |p|)
    ensures var v: nat := b; Shl8(v, 0) == b && Shl8(v, 1) == 0x100 * b && Shl8(v, 2) == 0x1_0000 * b &&
                             Shl8(v, 3) == 0x100_0000 * b
  {
    LESnoc(p, b);
    Shifts(b);
  }

  /** HOST_c2l */
  method C2l(src: seq<byte>, at: nat) returns (l: nat)
    requires at + 4 <= |src|
    ensures l == LE(src[at..at + 4])
  {
    LE4(src[at..at + 4]);
    l := src[at] as int + 0x100 * src[at + 1] as int + 0x1_0000 * src[at + 2] as int + 0x100_0000 * src[at + 3] as int;
  }

  /** HOST_p_c2l: the word of the n bytes `part` is filled up. */
  method PC2l(word: nat, n: nat, src: seq<byte>, at: nat, ghost part: seq<byte>) returns (l: nat)
    requires n < 4 && |part| == n && at + 4 - n <= |src| && (n > 0 ==> word == LE(part))
    ensures l == LE(part + src[at..at + 4 - n])
  {
    l := word;
    var c := at;
    if n == 0 {
      OneMore(part, src[c]);
      l := src[c];
      c := c + 1;
    }
    assert n > 0 ==> part + src[at..c] == part;
    if n <= 1 { l, c := More(l, 1, src, at, c, part); }
    if n <= 2 { l, c := More(l, 2, src, at, c, part); }
    l, c := More(l, 3, src, at, c, part);
  }

  lemma Longer(p: seq<byte>, q: seq<byte>, b: byte)
    ensures p + q + [b] == p + (q + [b])
  {
  }

  method More(word: nat, k: nat, src: seq<byte>, at: nat, c: nat, ghost part: seq<byte>) returns (l: nat, c': nat)
    requires 1 <= k <= 3 && at <= c < |src| && |part| + c - at == k && word == LE(part + src[at..c])
    ensures c' == c + 1 && l == LE(part + src[at..c'])
  {
    ghost var p := part + src[at..c];
    OneMore(p, src[c]);
    assert src[at..c + 1] == src[at..c] + [src[c]];
    Longer(part, src[at..c], src[c]);
    l := word + (if k == 1 then 0x100 else if k == 2 then 0x1_0000 else 0x100_0000) * src[c] as int;
    c' := c + 1;
  }

  /** HOST_p_c2l_p: len bytes are added, and the word is still not full. */
  method PC2lP(word: nat, sc: nat, len: nat, src: seq<byte>, at: nat, ghost part: seq<byte>) returns (l: nat)
    requires sc + len < 4 && len > 0 && |part| == sc && at + len <= |src| && (sc > 0 ==> word == LE(part))
    ensures l == LE(part + src[at..at + len])
  {
    l := word;
    var c, left := at, len;
    if sc == 0 {
      OneMore(part, src[c]);
      l, c, left := src[c], c + 1, left - 1;
      if left == 0 { return; }
    }
    assert sc > 0 ==> part + src[at..c] == part;
    if sc <= 1 {
      l, c := More(l, 1, src, at, c, part);
      left := left - 1;
      if left == 0 { return; }
    }
    l, c := More(l, 2, src, at, c, part);
  }

  /** HOST_c2l_p: a word of n bytes only. */
  method C2lP(src: seq<byte>, at: nat, n: nat) returns (l: nat)
    requires n < 4 && at + n <= |src|
    ensures l == LE(src[at..at + n])
  {
    ghost var w := src[at..at + n];
    l := 0;
    if n == 3 { l := 0x1_0000 * src[at + 2] as int; LE3(w); }
    if n >= 2 { l := l + 0x100 * src[at + 1] as int; }
    if n >= 1 { l := l + src[at] as int; }
    if n == 2 { OneMore([src[at]], src[at + 1]); assert w == [src[at]] + [src[at + 1]]; }
    if n == 1 { assert w == [src[at]]; }
  }

  // ---------- filling the block ----------

  lemma FilledNext(data: seq<nat>, data': seq<nat>, p: seq<byte>, n: nat)
    requires Filled(data, p, n) && 4 * n + 4 <= |p| && n < |data| && data' == data[n := LE(p[4 * n..4 * n + 4])]
    ensures Filled(data', p, n + 1)
  {
  }

  /** Whole words from the source: the words sw to ew of the bytes p. */
  method StoreWords(data: array<nat>, src: seq<byte>, at: nat, sw: nat, ew: nat, ghost p: seq<byte>) returns (c: nat)
    requires data.Length == 16 && sw <= ew <= 16 && 4 * ew <= |p| && at + 4 * (ew - sw) <= |src|
    requires Filled(data[..], p, sw) && p[4 * sw..4 * ew] == src[at..at + 4 * (ew - sw)]
    modifies data
    ensures Filled(data[..], p, ew) && c == at + 4 * (ew - sw)
  {
    c := at;
    var w := sw;
    while w < ew
      invariant sw <= w <= ew && c == at + 4 * (w - sw)
      invariant Filled(data[..], p, w)
    {
      ghost var d := data[..];
      Within(p, src, sw, ew, at, w);
      var l := C2l(src, c);
      data[w] := l;
      c := c + 4;
      FilledNext(d, data[..], p, w);
      hide Filled, LE;
      w := w + 1;
    }
  }

  lemma Within(p: seq<byte>, src: seq<byte>, sw: nat, ew: nat, at: nat, w: nat)
    requires sw <= w < ew && 4 * ew <= |p| && at + 4 * (ew - sw) <= |src|
    requires p[4 * sw..4 * ew] == src[at..at + 4 * (ew - sw)]
    ensures var c := at + 4 * (w - sw); p[4 * w..4 * w + 4] == src[c..c + 4]
  {
    var k := 4 * (w - sw);
    SliceOf(p, 4 * sw, 4 * ew, k, k + 4);
    SliceOf(src, at, at + 4 * (ew - sw), k, k + 4);
  }

  lemma SliceOf<T>(s: seq<T>, a: nat, b: nat, i: nat, j: nat)
    requires a <= b <= |s| && i <= j <= b - a
    ensures s[a..b][i..j] == s[a + i..a + j]
  {
    var u, v, w := s[a..b], s[a..b][i..j], s[a + i..a + j];
    assert |v| == |w|;
    forall k | 0 <= k < |v| ensures v[k] == w[k] {
      assert v[k] == u[i + k];
      assert u[i + k] == s[a + (i + k)];
      assert w[k] == s[(a + i) + k];
    }
  }

  /** The word in which the pending bytes end and the new ones begin. */
  lemma Across(pend: seq<byte>, src: seq<byte>, n: nat)
    requires n <= |src| && |pend| % 4 + n >= 4
    ensures var sw := |pend| / 4; var sc := |pend| % 4;
            (pend + src[..n])[4 * sw..4 * sw + 4] == pend[4 * sw..] + src[0..4 - sc] &&
            |pend[4 * sw..]| == sc
  {
  }

  lemma Beyond(pend: seq<byte>, src: seq<byte>, n: nat, ew: nat)
    requires n <= |src| && |pend| % 4 + n >= 4 && ew == (|pend| + n) / 4
    ensures var sw := |pend| / 4 + 1; var c := 4 - |pend| % 4;
            sw <= ew && (pend + src[..n])[4 * sw..4 * ew] == src[c..c + 4 * (ew - sw)]
  {
    var p, sw, c := pend + src[..n], |pend| / 4 + 1, 4 - |pend| % 4;
    assert forall i :: |pend| <= i < |p| ==> p[i] == src[i - |pend|];
  }

  /** The last word of the pending bytes is filled, and the whole words after it; c bytes of the source are used. */
  method FillUp(data: array<nat>, num: nat, src: seq<byte>, n: nat, ghost pend: seq<byte>) returns (c: nat)
    requires data.Length == 16 && Pending(data[..], pend) && |pend| == num
    requires n <= |src| && num + n <= 64 && num % 4 + n >= 4
    modifies data
    ensures Filled(data[..], pend + src[..n], (num + n) / 4) && c == 4 * ((num + n) / 4) - num
  {
    ghost var p, d := pend + src[..n], data[..];
    var sw, sc := num / 4, num % 4;
    Across(pend, src, n);
    Beyond(pend, src, n, (num + n) / 4);
    FilledPrefix(d, pend, src[..n], sw);
    var l := PC2l(data[sw], sc, src, 0, pend[4 * sw..]);
    data[sw] := l;
    FilledNext(d, data[..], p, sw);
    hide Filled, LE, Pending;
    c := StoreWords(data, src, 4 - sc, sw + 1, (num + n) / 4, p);
  }

  /** An incomplete word at the end. */
  lemma PendingWith(data: seq<nat>, data': seq<nat>, p: seq<byte>)
    requires |data| == 16 && |p| < 64 && Filled(data, p, |p| / 4)
    requires data' == if |p| % 4 == 0 then data else data[|p| / 4 := LE(p[4 * (|p| / 4)..])]
    ensures Pending(data', p)
  {
  }

  /** The pending words are completed to a whole block. */
  method CompleteWords(data: array<nat>, num: nat, src: seq<byte>, ghost t: seq<byte>)
    requires Pending(data[..], t) && |t| == num > 0 && num + |src| >= 64
    modifies data
    ensures data[..] == Words(t + src[..64 - num])
  {
    var n := 64 - num;
    hide Pending;
    PendingLength(data[..], t);
    ghost var c := FillUp(data, num, src, n, t);
    FilledAll(data[..], t + src[..n]);
  }

  lemma PendingLength(data: seq<nat>, t: seq<byte>)
    requires Pending(data, t)
    ensures |data| == 16 && |t| < 64
  {
  }

  /** The source is added to the pending words without completing a block. */
  method AddWords(data: array<nat>, num: nat, src: seq<byte>, ghost t: seq<byte>)
    requires Pending(data[..], t) && |t| == num && num + |src| < 64 && |src| > 0
    modifies data
    ensures Pending(data[..], t + src)
  {
    PendingLength(data[..], t);
    var sw, sc := num / 4, num % 4;
    if sc + |src| < 4 {
      ShortWord(data[..], t, src);
      hide Pending, Filled;
      var l := PC2lP(data[sw], sc, |src|, src, 0, t[4 * sw..]);
      data[sw] := l;
    } else {
      hide Pending, Filled;
      assert src[..|src|] == src;
      var c := FillUp(data, num, src, |src|, t);
      var ew, ec := (num + |src|) / 4, (num + |src|) % 4;
      EndOf(t, src, c);
      ghost var d := data[..];
      if ec > 0 {
        var l := C2lP(src, c, ec);
        data[ew] := l;
      }
      PendingWith(d, data[..], t + src);
    }
  }

  /** The source from pos on, less than a block, becomes the pending words. */
  method KeepWords(data: array<nat>, src: seq<byte>, pos: nat)
    requires data.Length == 16 && pos < |src| < pos + 64
    modifies data
    ensures Pending(data[..], src[pos..])
  {
    ghost var p := src[pos..];
    var len := |src| - pos;
    var ew, ec := len / 4, len % 4;
    assert p[0..4 * ew] == src[pos..pos + 4 * (ew - 0)];
    assert src[pos + 4 * ew..pos + 4 * ew + ec] == p[4 * ew..];
    assert Filled(data[..], p, 0);
    hide Pending, Filled;
    var c := StoreWords(data, src, pos, 0, ew, p);
    ghost var d := data[..];
    var l := C2lP(src, c, ec);
    data[ew] := l;
    PendingZero(d, data[..], p);
  }

  /** The stop bit, in the word in which the message ends. */
  method StopWord(data: array<nat>, num: nat, ghost t: seq<byte>) returns (i: nat)
    requires Pending(data[..], t) && |t| == num
    modifies data
    ensures Filled(data[..], Stopped(t), i) && 4 * i == |Stopped(t)| && i <= 16 == data.Length
  {
    ghost var d := data[..];
    i := num / 4;
    var j := num % 4;
    FilledPrefix(d, t, END[0..4 - j], i);
    assert Stopped(t)[4 * i..4 * i + 4] == t[4 * i..] + END[0..4 - j];
    var l := PC2l(if j == 0 then 0 else data[i], j, END, 0, t[4 * i..]);
    data[i] := l;
    FilledNext(d, data[..], Stopped(t), i);
    i := i + 1;
  }

  method ZeroWords(data: array<nat>, from: nat, to: nat, ghost u: seq<byte>, ghost z: nat) returns (i: nat)
    requires from <= to <= data.Length && |u| == 4 * from && |u| + z == 4 * to && Filled(data[..], u, from)
    modifies data
    ensures i == to && Filled(data[..], u + Zeros(z), to)
  {
    i := from;
    FilledPrefix(data[..], u, Zeros(z), i);
    while i < to
      invariant from <= i <= to && Filled(data[..], u + Zeros(z), i)
    {
      FilledZero(data[..], u, z, i);
      ghost var d := data[..];
      data[i] := 0;
      assert data[..] == d[i := 0];
      i := i + 1;
    }
  }

  // ---------- the digest context ----------

  class Md5<S> {
    const block: (S, seq<nat>) -> S
    const init: S
    var state: S
    var nl: nat
    var nh: nat
    var num: nat
    const data: array<nat>
    ghost var message: seq<byte>

    /** The bytes of the message that have not gone into the state. */
    ghost function Tail(): seq<byte>
      requires num <= |message|
      reads `num, `message
    {
      message[|message| - num..]
    }

    /** The state is that of the whole blocks of the message, and the rest is pending. */
    ghost predicate Body()
      reads `num, `message, `state, data
    {
      num == |message| % 64 && Pending(data[..], Tail()) &&
      state == Absorb(block, init, message[..|message| - num])
    }

    ghost predicate Valid()
      reads this, data
    {
      Body() && Counts(nl, nh, |message|)
    }

    /** MD5_Init */
    constructor (block: (S, seq<nat>) -> S, init: S)
      ensures Valid() && fresh(data) && message == [] && this.block == block && this.init == init
    {
      this.block := block;
      this.init := init;
      state := init;
      nl, nh, num := 0, 0, 0;
      data := new nat[16](_ => 0);
      message := [];
      new;
      hide Counts, Absorb, Pending, Filled;
      Nothing(block, init, data[..]);
    }

    /** The bit count at the head of HASH_UPDATE. */
    method Count(len: nat)
      requires Counts(nl, nh, |message|)
      modifies this`nl, this`nh
      ensures Counts(nl, nh, |message| + len)
    {
      CountBits(nl, nh, len, |message|);
      hide Counts;
      var l := (nl + 8 * len) % MOD32;
      nh := (nh + (if l < nl then 1 else 0) + len / 0x2000_0000) % MOD32;
      nl := l;
    }

    lemma AbsorbMore(m: seq<byte>, b: seq<byte>, s: S)
      requires |m| % 64 == 0 && |b| == 64 && s == Absorb(block, init, m)
      ensures block(s, Words(b)) == Absorb(block, init, m + b)
    {
      AbsorbBlock(block, init, m, b);
    }

    lemma Joined(m: seq<byte>, t: seq<byte>, more: seq<byte>, n: nat)
      requires |m| % 64 == n < 64 && t == m[|m| - n..]
      ensures m[..|m| - n] + (t + more) == m + more
    {
    }

    lemma AllDigested()
      requires num == 0 && |message| % 64 == 0 && data.Length == 16 && state == Absorb(block, init, message)
      ensures Body()
    {
      assert message[..|message|] == message;
    }

    /** Digesting the completed block. */
    lemma Completed(src: seq<byte>)
      requires Body() && num > 0 && num + |src| >= 64
      ensures var more := src[..64 - num];
              |message + more| % 64 == 0 && data.Length == 16 &&
              block(state, Words(Tail() + more)) == Absorb(block, init, message + more)
    {
      hide Absorb, Pending, Filled;
      PendingLength(data[..], Tail());
      Joined(message, Tail(), src[..64 - num], num);
      AbsorbMore(message[..|message| - num], Tail() + src[..64 - num], state);
    }

    /** The pending block is completed from the source and digested. */
    method CompleteBlock(src: seq<byte>)
      requires Body() && num > 0 && num + |src| >= 64
      modifies this`state, this`num, this`message, data
      ensures Body() && num == 0 && message == old(message) + src[..64 - old(num)]
    {
      hide Pending, Filled, Absorb;
      Completed(src);
      CompleteWords(data, num, src, Tail());
      message := message + src[..64 - num];
      state := block(state, data[..]);
      num := 0;
      AllDigested();
    }

    /** Source bytes that do not complete the pending block. */
    method AddToBlock(src: seq<byte>)
      requires Body() && num > 0 && num + |src| < 64 && |src| > 0
      modifies this`num, this`message, data
      ensures Body() && message == old(message) + src
    {
      hide Absorb, Filled, Pending;
      ghost var t, m := Tail(), message;
      PendingLength(data[..], t);
      AddWords(data, num, src, t);
      num := num + |src|;
      message := m + src;
      TailIs(m, t, src);
    }

    /** What is left of the source after the whole blocks becomes the pending part. */
    method Keep(src: seq<byte>, pos: nat)
      requires Body() && num == 0 && pos < |src| < pos + 64
      modifies this`num, this`message, data
      ensures Body() && message == old(message) + src[pos..]
    {
      hide Absorb, Filled, Pending;
      PendingLength(data[..], Tail());
      KeepWords(data, src, pos);
      num := |src| - pos;
      ghost var m := message;
      message := m + src[pos..];
      TailIs(m, [], src[pos..]);
    }

    /** The whole blocks of the source from pos on. */
    method DigestBlocks(src: seq<byte>, pos: nat) returns (end: nat)
      requires Body() && num == 0 && pos <= |src|
      modifies this`state, this`message
      ensures Body() && num == 0 && pos <= end <= |src| < end + 64 && message == old(message) + src[pos..end]
    {
      hide Absorb, Pending, Filled;
      PendingLength(data[..], Tail());
      end := pos;
      var sw := (|src| - pos) / 64;
      ghost var m := message;
      while sw > 0
        invariant pos <= end <= |src| && (|src| - end) / 64 == sw
        invariant Body() && num == 0 && message == m + src[pos..end]
      {
        ghost var b := src[end..end + 64];
        assert message[..|message|] == message;
        AbsorbMore(message, b, state);
        state := block(state, Words(src[end..end + 64]));
        assert m + src[pos..end] + b == m + src[pos..end + 64];
        message := message + b;
        end := end + 64;
        sw := sw - 1;
        AllDigested();
      }
    }

    /** The first part of HASH_UPDATE: the source up to pos goes to the pending block. */
    method UsePending(src: seq<byte>) returns (pos: nat)
      requires Body() && |src| > 0
      modifies this`state, this`num, this`message, data
      ensures Body() && pos <= |src| && message == old(message) + src[..pos] && (pos < |src| ==> num == 0)
    {
      hide *;
      BodyNum();
      pos := 0;
      if num != 0 {
        if num + |src| >= 64 {
          pos := 64 - num;
          CompleteBlock(src);
        } else {
          pos := |src|;
          AddToBlock(src);
        }
      }
    }

    lemma BodyNum()
      requires Body()
      ensures num < 64 && num == |message| % 64 && data.Length == 16
      ensures Pending(data[..], message[|message| - num..])
      ensures state == Absorb(block, init, message[..|message| - num])
    {
    }

    /** The second part: whole blocks, and the rest. */
    method UseRest(src: seq<byte>, pos: nat)
      requires Body() && num == 0 && pos < |src|
      modifies this`state, this`num, this`message, data
      ensures Body() && message == old(message) + src[pos..]
    {
      hide *;
      var end := DigestBlocks(src, pos);
      if end < |src| { Keep(src, end); }
    }

    /** HASH_UPDATE */
    method Update(src: seq<byte>)
      requires Valid()
      modifies this, data
      ensures Valid() && message == old(message) + src
    {
      if |src| == 0 { return; }
      hide *;
      Parts();
      Count(|src|);
      var pos := UsePending(src);
      Halves(message, src, pos);
      if pos < |src| { UseRest(src, pos); }
      Parts();
    }

    /** The whole blocks m0 are digested, the words up to i are those of u, and so far the padded message is m0 and u. */
    ghost predicate Closing(i: nat, u: seq<byte>, m0: seq<byte>)
      reads `message, `state, data
    {
      i <= 14 && data.Length == 16 && |u| == 4 * i && Filled(data[..], u, i) &&
      |m0| % 64 == 0 && state == Absorb(block, init, m0) &&
      Pad(message) == m0 + LastBlock(u, 8 * |message| % MOD64)
    }

    /** No room for the length: the block is filled with zeros, to the bytes b, and digested. */
    method SpillBlock(from: nat, ghost u: seq<byte>, ghost m0: seq<byte>, ghost b: seq<byte>)
      requires from <= 16 == data.Length && |u| == 4 * from && Filled(data[..], u, from)
      requires |m0| % 64 == 0 && state == Absorb(block, init, m0) && |b| == 64 && b == u + Zeros(64 - |u|)
      modifies this`state, data
      ensures state == Absorb(block, init, m0 + b)
    {
      hide *;
      AbsorbMore(m0, b, state);
      var i := ZeroWords(data, from, 16, u, 64 - |u|);
      FilledAll(data[..], b);
      state := block(state, data[..]);
    }

    /** Zeros, the length, and the last block. */
    method FinishBlock(from: nat, ghost u: seq<byte>, ghost m0: seq<byte>)
      requires Closing(from, u, m0) && Counts(nl, nh, |message|)
      modifies this`state, data
      ensures state == Absorb(block, init, Pad(message))
    {
      hide Absorb, Filled, Counts, Pad, Zeros, BytesOf;
      AbsorbMore(m0, LastBlock(u, 8 * |message| % MOD64), state);
      var i := ZeroWords(data, from, 14, u, 56 - |u|);
      FilledLength(data[..], u + Zeros(56 - |u|), nl, nh, |message|);
      data[14] := nl;
      data[15] := nh;
      state := block(state, data[..]);
    }

    /** The stop bit, and the block that it completes when there is no room for the length. */
    method Stop() returns (i: nat, ghost u: seq<byte>, ghost m0: seq<byte>)
      requires Body()
      modifies this`state, data
      ensures Closing(i, u, m0)
    {
      hide *;
      BodyNum();
      ghost var t := message[|message| - num..];
      m0, u := message[..|message| - num], Stopped(t);
      i := StopWord(data, num, t);
      WholeBlocks(message, num);
      if i > 14 {
        PadTwo(message, num);
        ghost var b := u + Zeros(64 - |u|);
        SpillBlock(i, u, m0, b);
        i, u := 0, [];
        assert |m0 + b| % 64 == 0;
        m0 := m0 + b;
        Spilt(m0);
      } else {
        PadOne(message, num);
        Fits(i, u, m0);
      }
    }

    lemma WholeBlocks(m: seq<byte>, n: nat)
      requires n == |m| % 64
      ensures |m[..|m| - n]| % 64 == 0
    {
    }

    /** HASH_FINAL: the state is that of the padded message. */
    method Final()
      requires Valid()
      modifies this, data
      ensures state == Absorb(block, init, Pad(old(message))) && num == 0
    {
      Parts();
      hide *;
      var i;
      ghost var u, m0;
      i, u, m0 := Stop();
      FinishBlock(i, u, m0);
      num := 0;
    }

    lemma Fits(i: nat, u: seq<byte>, m0: seq<byte>)
      requires i <= 14 && data.Length == 16 && |u| == 4 * i && Filled(data[..], u, i)
      requires |m0| % 64 == 0 && state == Absorb(block, init, m0)
      requires Pad(message) == m0 + LastBlock(u, 8 * |message| % MOD64)
      ensures Closing(i, u, m0)
    {
      hide Pad, LastBlock, Absorb, Filled;
    }

    lemma Spilt(m0: seq<byte>)
      requires data.Length == 16 && |m0| % 64 == 0 && state == Absorb(block, init, m0)
      requires Pad(message) == m0 + LastBlock([], 8 * |message| % MOD64)
      ensures Closing(0, [], m0)
    {
    }

    lemma Parts()
      ensures Valid() <==> Body() && Counts(nl, nh, |message|)
    {
    }

    lemma Halves(m: seq<byte>, src: seq<byte>, pos: nat)
      requires pos <= |src|
      ensures forall h :: m == h + src[..pos] ==> m + src[pos..] == h + src
    {
      assert src == src[..pos] + src[pos..];
    }
  }

  lemma Nothing<S>(block: (S, seq<nat>) -> S, init: S, data: seq<nat>)
    ensures Counts(0, 0, 0) && Absorb(block, init, []) == init && (|data| == 16 ==> Pending(data, []))
  {
  }

  lemma ShortWord(data: seq<nat>, t: seq<byte>, src: seq<byte>)
    requires Pending(data, t) && |src| > 0 && |t| % 4 + |src| < 4
    ensures var sw := |t| / 4;
            |t + src| < 64 && sw < 16 && (|t| % 4 > 0 ==> data[sw] == LE(t[4 * sw..])) && |t[4 * sw..]| == |t| % 4 &&
            Pending(data[sw := LE(t[4 * sw..] + src[0..|src|])], t + src)
  {
    var sw := |t| / 4;
    FilledPrefix(data, t, src, sw);
    assert (t + src)[4 * sw..] == t[4 * sw..] + src[0..|src|];
  }

  /** The bytes of an incomplete word at the end come from the source. */
  lemma EndOf(t: seq<byte>, src: seq<byte>, c: nat)
    requires |t| % 4 + |src| >= 4 && c == 4 * ((|t| + |src|) / 4) - |t|
    ensures var ew := (|t| + |src|) / 4; c <= |src| && (t + src)[4 * ew..] == src[c..c + (|t| + |src|) % 4]
  {
    assert forall i :: |t| <= i < |t + src| ==> (t + src)[i] == src[i - |t|];
  }

  /** As PendingWith, with a word of zero where the bytes end at a word boundary. */
  lemma PendingZero(data: seq<nat>, data': seq<nat>, p: seq<byte>)
    requires |data| == 16 && |p| < 64 && Filled(data, p, |p| / 4)
    requires data' == data[|p| / 4 := LE(p[4 * (|p| / 4)..])]
    ensures Pending(data', p)
  {
  }

  lemma TailIs(m: seq<byte>, t: seq<byte>, src: seq<byte>)
    requires |m| % 64 == |t| && t == m[|m| - |t|..] && |t| + |src| < 64
    ensures var m', n := m + src, |t| + |src|;
            |m'| % 64 == n && m'[|m'| - n..] == t + src && m'[..|m'| - n] == m[..|m| - |t|]
  {
  }

  /** The parts of a message, one after the other. */
  function Concat(parts: seq<seq<byte>>): seq<byte> {
    if parts == [] then [] else Concat(parts[..|parts| - 1]) + parts[|parts| - 1]
  }

  /** However a message is divided into updates, the digest is that of its padded form. */
  method Digest<S>(block: (S, seq<nat>) -> S, init: S, parts: seq<seq<byte>>) returns (digest: S)
    ensures digest == Absorb(block, init, Pad(Concat(parts)))
  {
    var c := new Md5(block, init);
    hide Absorb, Pad;
    assert parts[..0] == [];
    for i := 0 to |parts|
      invariant fresh(c) && fresh(c.data) && c.Valid() && c.block == block && c.init == init
      invariant c.message == Concat(parts[..i])
    {
      assert parts[..i + 1][..i] == parts[..i];
      c.Update(parts[i]);
    }
    assert parts[..|parts|] == parts;
    c.Final();
    digest := c.state;
  }
}
