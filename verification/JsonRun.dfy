/** A parse of a piece of text, and what it means to go on with the next piece. */
module JsonRun {
  import opened Bytes
  import opened Json
  import opened JsonToken

  /** The machine after a call, its error, and how many characters it took. */
  datatype Result = Result(t: Tok, err: Err, offset: nat) {
    /** The object handed to the caller; JNull stands for NULL. */
    function Obj(): Json { if err == Success then t.top.current else JNull }
  }

  /** The characters have run out: a complete value, or more is needed. */
  function AtEnd(t: Tok): Err {
    if t.below == [] && t.top.state == EatWs && t.top.saved == Finish then Success else Continue
  }

  /** The parse ends on the character c. */
  function AtStop(t: Tok, c: char, err: Err): Err {
    if c == NUL && t.top.state != Finish && t.top.saved != Finish then ErrEof else err
  }

  /** json_tokener_parse_ex on the characters of s. */
  function Run(t: Tok, s: Text): (r: Result)
    requires Valid(t)
    ensures Valid(r.t) && r.offset <= |s|
    decreases |s|
  {
    if s == [] then Result(t, AtEnd(t), 0)
    else
      var o := Step(t, s[0]);
      if o.Halt? then Result(o.t, AtStop(o.t, s[0], o.err), 0)
      else if s[0] == NUL then Result(o.t, AtStop(o.t, NUL, Success), 1)
      else
        var r := Run(o.t, s[1..]);
        r.(offset := r.offset + 1)
  }

  function Shifted(r: Result, n: nat): Result { r.(offset := r.offset + n) }

  /** A call that says "continue" can be followed by one with the rest of the text: together they do exactly what one
      call does, wherever the text is cut. */
  lemma {:induction false} Resume(t: Tok, a: Text, b: Text)
    requires Valid(t) && Run(t, a).err == Continue
    ensures Run(t, a + b) == Shifted(Run(Run(t, a).t, b), |a|)
    decreases |a|
  {
    if a == [] {
      assert a + b == b;
    } else {
      var more := a + b;
      assert more[0] == a[0] && more[1..] == a[1..] + b;
      RunNext(t, a);
      RunNext(t, more);
      hide Step, Valid, Run;
      Resume(Step(t, a[0]).t, a[1..], b);
    }
  }

  /** The first character of a text: taken, unless the call ends there. */
  lemma RunNext(t: Tok, s: Text)
    requires Valid(t) && s != []
    ensures var o := Step(t, s[0]);
            if o.Halt? || s[0] == NUL then Run(t, s).err != Continue
            else Run(t, s) == Shifted(Run(o.t, s[1..]), 1)
  {
    hide Step, Valid;
  }

  /** The depth is always 0..31: the stack never overflows, and there is always a current level. */
  lemma DepthBounded(t: Tok, s: Text)
    requires Valid(t)
    ensures 0 <= |Run(t, s).t.below| <= 31
  {
  }

  // ---------- characters taken without an end ----------

  /** What is reached when all of s has been taken, if it is. */
  function Feed(t: Tok, s: Text): (o: Outcome)
    requires Valid(t)
    ensures !o.Redo? && Valid(o.t)
    decreases |s|
  {
    if s == [] then More(t)
    else
      var o := Step(t, s[0]);
      if o.Halt? then o else Feed(o.t, s[1..])
  }

  lemma FeedNothing(t: Tok)
    requires Valid(t)
    ensures Feed(t, []) == More(t)
  {
  }

  lemma Rejoin(p: Text, s: Text)
    requires s != []
    ensures p + [s[0]] + s[1..] == p + s
  {
  }

  lemma FeedFirst(t: Tok, s: Text)
    requires Valid(t) && s != [] && (Step(t, s[0]).More? || Feed(t, s).More?)
    ensures Step(t, s[0]).More? && Feed(t, s) == Feed(Step(t, s[0]).t, s[1..])
    ensures NUL !in s <==> s[0] != NUL && NUL !in s[1..]
  {
    hide Step, Valid;
    assert s == [s[0]] + s[1..];
  }

  lemma {:induction false} FeedAppend(t: Tok, a: Text, b: Text)
    requires Valid(t) && Feed(t, a).More?
    ensures Feed(t, a + b) == Feed(Feed(t, a).t, b)
    decreases |a|
  {
    hide Step, Valid;
    if a == [] {
      assert a + b == b;
    } else {
      assert (a + b)[0] == a[0] && (a + b)[1..] == a[1..] + b;
      FeedAppend(Step(t, a[0]).t, a[1..], b);
    }
  }

  lemma FeedOne(t: Tok, c: char)
    requires Valid(t)
    ensures Feed(t, [c]) == Step(t, c)
  {
    hide Step, Valid;
  }

  /** Characters other than NUL, all taken. */
  lemma {:induction false} RunAfterFeed(t: Tok, a: Text, b: Text)
    requires Valid(t) && Feed(t, a).More? && NUL !in a
    ensures Run(t, a + b) == Shifted(Run(Feed(t, a).t, b), |a|)
    decreases |a|
  {
    hide Step, Valid, Run, Feed;
    if a == [] {
      assert a + b == b;
      FeedNothing(t);
    } else {
      var more := a + b;
      assert more[0] == a[0] && more[1..] == a[1..] + b;
      FeedFirst(t, a);
      RunNext(t, more);
      RunAfterFeed(Step(t, a[0]).t, a[1..], b);
    }
  }
}
