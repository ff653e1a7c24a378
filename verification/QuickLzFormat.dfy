/** What a QuickLZ stream of level 1 or 3 means, and which bytes its tokens take. */
module QuickLzFormat {
  import opened Bits
  import opened Bytes
  import opened Lz
  import opened LittleEndian
  import opened QuickLzWord

  const HASH_VALUES := 4096
  const MINOFFSET := 2
  const UNCONDITIONAL_MATCHLEN := 6
  const UNCOMPRESSED_END := 4
  const CWORD_LEN := 4
  const DEFAULT_HEADERLEN := 9

  /** One step of the stream: a byte of the original, or a copy of earlier output. */
  datatype Token = Lit(b: byte) | Match(len: nat, offset: nat)

  /** The output so far, and the positions at which its tokens started. */
  datatype State = State(out: seq<byte>, starts: set<nat>)

  const START := State([], {})

  /** ((fetch >>> 12) ^ fetch) & 4095 */
  function Hash(fetch: nat): (h: nat)
    ensures h < HASH_VALUES
  {
    assert Pow2(12) == 4096 by { assert Pow2(6) == 64; PowAdd(6, 6); }
    Xor(fetch / 4096 % 4096, fetch % 4096, 12)
  }

  /** The three bytes at q as one number. */
  function Triple(s: seq<byte>, q: nat): (f: nat)
    requires q + 2 < |s|
  {
    s[q] as int + 256 * (s[q + 1] as int) + 65536 * (s[q + 2] as int)
  }

  lemma ShiftFetch3(s: seq<byte>, q: nat)
    requires q + 4 <= |s|
    ensures Triple(s, q + 1) == Triple(s, q) / 256 % 65536 + (s[q + 3] as int) * 65536
  {
    var b0: int, b1: int, b2: int := s[q], s[q + 1], s[q + 2];
    assert Triple(s, q) == b0 + 256 * (b1 + 256 * b2);
  }

  function Key(s: seq<byte>, q: nat): (h: nat)
    requires q + 2 < |s|
    ensures h < HASH_VALUES
  {
    Hash(Triple(s, q))
  }

  /** The latest token start below x with key h; 0, the table's initial value, if there is none. */
  function Lookup(s: seq<byte>, starts: set<nat>, x: nat, h: nat): (q: nat)
    requires x + 2 <= |s| || x == 0
    ensures q < x || q == 0
  {
    if x == 0 then 0
    else if x - 1 in starts && Key(s, x - 1) == h then x - 1
    else Lookup(s, starts, x - 1, h)
  }

  // ---------- tokens ----------

  /** Where a token may stand in an original of n bytes: matches keep clear of its last bytes. */
  predicate Placed(out: seq<byte>, t: Token, n: nat) {
    match t
    case Lit(_) => |out| < n
    case Match(len, offset) =>
      3 <= len <= 255 && 3 <= offset <= |out| &&
      |out| + UNCONDITIONAL_MATCHLEN + UNCOMPRESSED_END < n && |out| + len + UNCOMPRESSED_END <= n
  }

  /** Level 3 sends the offset itself; level 1 sends a hash, under which the decoder must have stored the place. */
  predicate Fits(level: nat, st: State, t: Token, n: nat) {
    Placed(st.out, t, n) &&
    (t.Match? ==>
      if level == 3 then t.offset < 131071
      else
        var q := |st.out| - t.offset;
        Lookup(st.out, st.starts, |st.out| - 2, Key(st.out, q)) == q)
  }

  function Step(st: State, t: Token): (r: State)
    requires t.Match? ==> 1 <= t.offset <= |st.out|
    ensures st.out <= r.out && |r.out| == |st.out| + Span(t)
  {
    State(match t
          case Lit(b) => st.out + [b]
          case Match(len, offset) => Copy(st.out, offset, len),
          st.starts + {|st.out|})
  }

  function Span(t: Token): (n: nat) { if t.Match? then t.len else 1 }

  predicate Valid(level: nat, st: State, toks: seq<Token>, n: nat)
    decreases |toks|
  {
    toks == [] || (Fits(level, st, toks[0], n) && Valid(level, Step(st, toks[0]), toks[1..], n))
  }

  function Run(level: nat, st: State, toks: seq<Token>, n: nat): (r: State)
    requires Valid(level, st, toks, n)
    ensures st.out <= r.out && |st.out| + |toks| <= |r.out|
    decreases |toks|
  {
    if toks == [] then st else Run(level, Step(st, toks[0]), toks[1..], n)
  }

  // ---------- codes ----------

  /** The five codes of level 3: value and number of bytes. */
  function Code3(len: nat, offset: nat): (r: (nat, nat))
    requires 3 <= len <= 255 && offset < 131072
    ensures 1 <= r.1 <= 4 && r.1 <= len
  {
    if len == 3 && offset <= 63 then (offset * 4, 1)
    else if len == 3 && offset <= 16383 then (offset * 4 + 1, 2)
    else if len <= 18 && offset <= 1023 then ((len - 3) * 4 + offset * 64 + 2, 2)
    else if len <= 33 then ((len - 2) * 4 + offset * 128 + 3, 3)
    else ((len - 3) * 128 + offset * 32768 + 3, 4)
  }

  /** The two codes of level 1: the hash with a short length in its low digit, or the length in a byte of its own. */
  function Code1(len: nat, hash: nat): (r: (nat, nat))
    requires 3 <= len <= 255 && hash < HASH_VALUES
    ensures 2 <= r.1 <= 3 && r.1 <= len
  {
    if len < 18 then (hash * 16 + (len - 2), 2) else (hash * 16 + len * 65536, 3)
  }

  function CodeOf(level: nat, st: State, t: Token, n: nat): (r: (nat, nat))
    requires Fits(level, st, t, n) && t.Match?
    ensures 1 <= r.1 <= 4 && r.1 <= t.len
  {
    if level == 3 then Code3(t.len, t.offset) else Code1(t.len, Key(st.out, |st.out| - t.offset))
  }

  function UnitOf(level: nat, st: State, t: Token, n: nat): (u: Unit)
    requires Fits(level, st, t, n)
    ensures u.flag == t.Match? && 1 <= |u.bytes| <= 4 && |u.bytes| <= Span(t)
  {
    match t
    case Lit(b) => Unit(false, [b])
    case Match(_, _) => var c := CodeOf(level, st, t, n); Unit(true, BytesOf(c.0, c.1))
  }

  function Units(level: nat, st: State, toks: seq<Token>, n: nat): (us: seq<Unit>)
    requires Valid(level, st, toks, n)
    ensures |us| == |toks|
    decreases |toks|
  {
    if toks == [] then []
    else [UnitOf(level, st, toks[0], n)] + Units(level, Step(st, toks[0]), toks[1..], n)
  }

  lemma {:induction false} AppendToken(level: nat, st: State, toks: seq<Token>, t: Token, n: nat)
    requires Valid(level, st, toks, n) && Fits(level, Run(level, st, toks, n), t, n)
    ensures Valid(level, st, toks + [t], n)
    ensures Run(level, st, toks + [t], n) == Step(Run(level, st, toks, n), t)
    ensures Units(level, st, toks + [t], n)
         == Units(level, st, toks, n) + [UnitOf(level, Run(level, st, toks, n), t, n)]
    decreases |toks|
  {
    hide Step, UnitOf, Lookup, Key;
    var more := toks + [t];
    if toks == [] {
      assert more == [t] && more[1..] == [];
    } else {
      assert more[0] == toks[0] && more[1..] == toks[1..] + [t];
      AppendToken(level, Step(st, toks[0]), toks[1..], t, n);
    }
  }

  // ---------- whole streams ----------

  /** The header: flag byte, compressed size, original size; one byte each or four bytes each. */
  function Header(level: nat, compressed: bool, long: bool, csize: nat, dsize: nat): (h: seq<byte>)
    requires level < 4
    ensures |h| == if long then 9 else 3
  {
    var first := Bit(compressed) + (if long then 2 else 0) + 4 * level + 64;
    var w := if long then 4 else 1;
    [first] + BytesOf(csize, w) + BytesOf(dsize, w)
  }

  const MAX_SIZE := 0x7fff_ffff

  /** The stream r holds the original s as the given tokens. */
  ghost predicate Holds(level: nat, r: seq<byte>, s: seq<byte>, long: bool, csize: nat, toks: seq<Token>) {
    (level == 1 || level == 3) && s != [] && |s| <= (if long then MAX_SIZE else 255) &&
    Valid(level, START, toks, |s|) && Run(level, START, toks, |s|).out == s &&
    r == Header(level, true, long, csize, |s|) + Rest(Units(level, START, toks, |s|), 0)
  }

  /** The stream r is one for the original s: coded, or stored as it is. */
  ghost predicate Denotes(level: nat, r: seq<byte>, s: seq<byte>) {
    exists long: bool, csize: nat ::
      DenotesAs(level, r, s, long, csize)
  }

  ghost predicate DenotesAs(level: nat, r: seq<byte>, s: seq<byte>, long: bool, csize: nat) {
    (level == 1 || level == 3) && |s| <= (if long then MAX_SIZE else 255) &&
    (r == Header(level, false, long, csize, |s|) + s ||
     exists toks :: Holds(level, r, s, long, csize, toks))
  }

  // ---------- what the decoder relies on ----------

  /** The last four bytes of the original are literals, so there is always something left to fetch. */
  lemma {:induction false} RestLength(level: nat, st: State, toks: seq<Token>, n: nat, left: nat)
    requires Valid(level, st, toks, n) && |Run(level, st, toks, n).out| == n
    ensures |Rest(Units(level, st, toks, n), left)| >= Min(4, n - |st.out|)
    decreases |toks|, if left == 0 then 1 else 0
  {
    hide Lookup, Key, CodeOf, Word;
    if toks == [] {
    } else if left == 0 {
      RestLength(level, st, toks, n, 31);
    } else {
      RestLength(level, Step(st, toks[0]), toks[1..], n, left - 1);
      var us := Units(level, st, toks, n);
      assert us[1..] == Units(level, Step(st, toks[0]), toks[1..], n);
    }
  }

  /** Behind the last place for a match all tokens are literals. */
  lemma NoMatchAtEnd(level: nat, st: State, toks: seq<Token>, n: nat)
    requires Valid(level, st, toks, n) && toks != []
    requires |st.out| + UNCONDITIONAL_MATCHLEN + UNCOMPRESSED_END >= n
    ensures toks[0].Lit?
  {
  }
}
