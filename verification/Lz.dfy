/** Copying from earlier output, the step that every LZ decoder here shares. */
module Lz {
  import opened Bytes

  /** Copies `n` bytes from `distance` back, one at a time, so that the copy may overlap itself. */
  function Copy(out: seq<byte>, distance: nat, n: nat): (r: seq<byte>)
    requires 1 <= distance <= |out|
    ensures |r| == |out| + n && out <= r
    ensures forall k :: |out| <= k < |r| ==> r[k] == r[k - distance]
    decreases n
  {
    if n == 0 then out else Copy(out + [out[|out| - distance]], distance, n - 1)
  }

  /** The n bytes from p on repeat what stands `d` bytes before them. */
  ghost predicate Repeats(s: seq<byte>, p: nat, n: nat, d: nat)
  {
    d <= p && p + n <= |s| && forall k :: p <= k < p + n ==> s[k] == s[k - d]
  }

  /** How far the match of `o` and `p`, known for `i` bytes, goes on, up to a limit. */
  function MatchLen(s: seq<byte>, o: nat, p: nat, i: nat, limit: nat): (len: nat)
    requires o < p && i <= limit && p + limit <= |s|
    requires Repeats(s, p, i, p - o)
    ensures i <= len <= limit && Repeats(s, p, len, p - o)
    ensures len == limit || s[o + len] != s[p + len]
    decreases limit - i
  {
    if i < limit && s[o + i] == s[p + i] then MatchLen(s, o, p, i + 1, limit) else i
  }

  lemma Longer(s: seq<byte>, o: nat, p: nat, k: nat)
    requires o < p && Repeats(s, p, k, p - o) && p + k < |s| && s[o + k] == s[p + k]
    ensures Repeats(s, p, k + 1, p - o)
  {
  }

  /** A match that cannot be extended has its full length. */
  lemma {:induction false} MatchLenIs(s: seq<byte>, o: nat, p: nat, i: nat, limit: nat, len: nat)
    requires o < p && i <= len <= limit && p + limit <= |s| && Repeats(s, p, i, p - o)
    requires Repeats(s, p, len, p - o) && (len == limit || s[o + len] != s[p + len])
    ensures MatchLen(s, o, p, i, limit) == len
    decreases len - i
  {
    if i < len {
      assert s[p + i] == s[p + i - (p - o)];
      MatchLenIs(s, o, p, i + 1, limit, len);
    }
  }

  /** If s repeats itself at `distance` for n bytes from p on, copying rebuilds that piece of it. */
  lemma {:induction false} CopyOf(s: seq<byte>, p: nat, distance: nat, n: nat)
    requires 1 <= distance && Repeats(s, p, n, distance)
    ensures Copy(s[..p], distance, n) == s[..p + n]
    decreases n
  {
    if n > 0 {
      assert s[..p] + [s[p]] == s[..p + 1];
      CopyOf(s, p + 1, distance, n - 1);
    }
  }

  /** Copies n bytes from `distance` back, byte by byte. */
  method CopyBack(buf: array<byte>, at: nat, distance: nat, n: nat)
    requires 1 <= distance <= at && at + n <= buf.Length
    modifies buf
    ensures buf[..at + n] == Copy(old(buf[..at]), distance, n)
  {
    var p1, p2, k: nat := at, at - distance, n;
    while k > 0
      invariant p1 + k == at + n && p2 + distance == p1 && at <= p1
      invariant Copy(buf[..p1], distance, k) == Copy(old(buf[..at]), distance, n)
    {
      buf[p1] := buf[p2];
      assert buf[..p1 + 1] == buf[..p1] + [buf[p1 - distance]];
      p1, p2, k := p1 + 1, p2 + 1, k - 1;
    }
  }
}
