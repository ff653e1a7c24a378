/** White space and comments between the tokens of a JSON text: what they are, and that they change nothing. */
module JsonBlank {
  import opened Bytes
  import opened Json
  import opened JsonToken
  import opened JsonRun
  import opened JsonRoundTrip
  import opened JsonValues
  import opened JsonTheorems

  const SPACES := " \t\n\U{0B}\U{0C}\r"

  // ---------- comments ----------

  /** How many stars the text ends with. */
  function Stars(b: Text): (n: nat) {
    if b == [] || b[|b| - 1] != '*' then 0 else Stars(b[..|b| - 1]) + 1
  }

  /** No slash of the text ends the comment: the stars before it, if any, make pairs. */
  predicate StillOpen(b: Text) {
    forall i :: 0 <= i < |b| && b[i] == '/' ==> Stars(b[..i]) % 2 == 0
  }

  /** Only what has been gathered for the comment differs. */
  predicate Same(t: Tok, u: Tok) {
    u.below == t.below && u.top == t.top && u.scratch == t.scratch.(pb := u.scratch.pb)
  }

  lemma SameTwice(t: Tok, u: Tok, w: Tok)
    requires Same(t, u) && Same(u, w)
    ensures Same(t, w)
  {
  }

  /** In a block comment, behind an even or an odd number of stars. */
  predicate InBlock(t: Tok, u: Tok, odd: bool) {
    Valid(u) && Same(Go(t, if odd then CommentEnd else Comment), u)
  }

  lemma BlockStep(t: Tok, u: Tok, odd: bool, c: char) returns (w: Tok)
    requires t.top.state == EatWs && InBlock(t, u, odd)
    ensures Step(u, c) == More(w) && Valid(w)
    ensures if odd && c == '/' then Same(t, w) else InBlock(t, w, c == '*' && !odd)
  {
    Again(u, c);
    TurnKeeps(u, c);
    w := Turn(u, c).t;
    hide Step, Valid;
  }

  lemma StarsSnoc(b: Text, c: char)
    ensures Stars(b + [c]) == if c == '*' then Stars(b) + 1 else 0
  {
    assert (b + [c])[..|b|] == b;
  }

  lemma OpenSnoc(a: Text, c: char)
    requires StillOpen(a + [c])
    ensures StillOpen(a) && (c == '/' ==> Stars(a) % 2 == 0)
  {
    hide Stars;
    var b := a + [c];
    assert b[..|a|] == a && b[|a|] == c;
    assert forall i :: 0 <= i < |a| ==> a[i] == b[i] && a[..i] == b[..i];
  }

  lemma BlockBegins(t: Tok, u: Tok)
    requires InBlock(t, u, false)
    ensures Valid(u) && Feed(u, []) == More(u) && Stars([]) == 0
  {
    hide Step;
  }

  lemma {:induction false} BlockBody(t: Tok, u: Tok, b: Text) returns (w: Tok)
    requires t.top.state == EatWs && InBlock(t, u, false) && StillOpen(b)
    ensures Feed(u, b) == More(w) && InBlock(t, w, Stars(b) % 2 == 1)
    decreases |b|
  {
    hide StillOpen, Stars, Step, InBlock, Feed, Valid;
    BlockBegins(t, u);
    if b == [] {
      w := u;
    } else {
      var a, c := b[..|b| - 1], b[|b| - 1];
      assert b == a + [c];
      OpenSnoc(a, c);
      var v := BlockBody(t, u, a);
      StarsSnoc(a, c);
      w := BlockStep(t, v, Stars(a) % 2 == 1, c);
      FeedSnoc(u, a, v, c);
    }
  }

  lemma FeedSnoc(u: Tok, a: Text, v: Tok, c: char)
    requires Valid(u) && Feed(u, a) == More(v)
    ensures Valid(v) && Feed(u, a + [c]) == Step(v, c)
  {
    hide Step, Valid, Feed;
    FeedThen(u, a, v, c);
  }

  /** The two characters that begin a comment. */
  lemma Opening(t: Tok, c: char) returns (u: Tok)
    requires Valid(t) && t.top.state == EatWs && (c == '*' || c == '/')
    ensures Feed(t, ['/', c]) == More(u) && Valid(u) && Same(Go(t, if c == '*' then Comment else CommentEol), u)
  {
    Again(t, '/');
    TurnKeeps(t, '/');
    var v := Turn(t, '/').t;
    assert v == Append(Clear(Go(t, CommentStart)), '/');
    Again(v, c);
    TurnKeeps(v, c);
    u := Turn(v, c).t;
    FeedOne(t, '/');
    hide Step, Valid, Feed;
    FeedSnoc(t, ['/'], v, c);
    assert ['/'] + [c] == ['/', c];
  }

  /** A block comment ends at a slash exactly if the stars before it are odd in number; otherwise it goes on. */
  lemma BlockEndsExactly(t: Tok, b: Text) returns (w: Tok)
    requires Valid(t) && t.top.state == EatWs && StillOpen(b)
    ensures Feed(t, "/*" + b + "/") == More(w) && Valid(w)
    ensures if Stars(b) % 2 == 1 then Same(t, w) else InBlock(t, w, false)
  {
    hide Step, Valid, Feed, Stars, StillOpen;
    var u := Opening(t, '*');
    assert Valid(u);
    hide InBlock;
    var v := BlockBody(t, u, b);
    w := BlockStep(t, v, Stars(b) % 2 == 1, '/');
    FeedSnoc(u, b, v, '/');
    FeedAppend(t, "/*", b + "/");
    assert "/*" + (b + "/") == "/*" + b + "/";
  }

  /** In C, a comment ends with its first star and slash; here one that ends with two stars does not end there. */
  lemma NotEnded(t: Tok) returns (w: Tok)
    requires Valid(t) && t.top.state == EatWs
    ensures Feed(t, "/***/") == More(w) && w.top.state == Comment
  {
    assert Stars("**") == 2 by { assert "**"[..1] == "*" && "*"[..0] == ""; }
    hide Step, Valid, Feed, Stars;
    w := BlockEndsExactly(t, "**");
    assert "/*" + "**" + "/" == "/***/";
  }

  lemma {:induction false} LineBody(t: Tok, u: Tok, b: Text) returns (w: Tok)
    requires t.top.state == EatWs && Valid(u) && Same(Go(t, CommentEol), u) && '\n' !in b
    ensures Feed(u, b) == More(w) && Valid(w) && Same(Go(t, CommentEol), w)
    decreases |b|
  {
    if b == [] {
      w := u;
    } else {
      var a, c := b[..|b| - 1], b[|b| - 1];
      assert b == a + [c] && c in b;
      var v := LineBody(t, u, a);
      w := LineStep(t, v, c);
      FeedSnoc(u, a, v, c);
    }
  }

  lemma LineStep(t: Tok, u: Tok, c: char) returns (w: Tok)
    requires t.top.state == EatWs && Valid(u) && Same(Go(t, CommentEol), u)
    ensures Step(u, c) == More(w) && Valid(w) && (if c == '\n' then Same(t, w) else Same(Go(t, CommentEol), w))
  {
    Again(u, c);
    TurnKeeps(u, c);
    w := Turn(u, c).t;
    hide Step, Valid;
  }

  lemma LineEnds(t: Tok, b: Text) returns (w: Tok)
    requires Valid(t) && t.top.state == EatWs && '\n' !in b
    ensures Feed(t, "//" + b + "\n") == More(w) && Valid(w) && Same(t, w)
  {
    hide Step, Valid, Feed, Same;
    var u := Opening(t, '/');
    var v := LineBody(t, u, b);
    w := LineStep(t, v, '\n');
    FeedSnoc(u, b, v, '\n');
    FeedAppend(t, "//", b + "\n");
    assert "//" + (b + "\n") == "//" + b + "\n";
  }

  // ---------- white space ----------

  /** Between tokens the six space characters change nothing; any other one but the slash goes to what is to follow. */
  lemma SpaceExactly(t: Tok, c: char)
    requires Valid(t) && t.top.state == EatWs && c != '/'
    ensures if c in SPACES then Step(t, c) == More(t)
            else Valid(Go(t, t.top.saved)) && Step(t, c) == Step(Go(t, t.top.saved), c)
  {
    SpacesAre(c);
    hide SPACES;
    Again(t, c);
    if c !in SPACES { Wake(t, c); }
    hide Step, Valid;
  }

  lemma SpacesAre(c: char)
    ensures c in SPACES <==> IsSpace(c)
  {
    assert |SPACES| == 6;
    assert SPACES[0] == ' ' && SPACES[1] == '\t' && SPACES[2] == '\n' && SPACES[5] == '\r';
    assert SPACES[3] == 11 as char && SPACES[4] == 12 as char;
  }

  // ---------- any number of them ----------

  datatype Piece = Space(c: char) | Block(body: Text) | Line(body: Text)

  predicate Proper(p: Piece) {
    match p
    case Space(c) => c in SPACES
    case Block(b) => StillOpen(b) && Stars(b) % 2 == 1
    case Line(b) => '\n' !in b
  }

  function PieceText(p: Piece): (w: Text) {
    match p
    case Space(c) => [c]
    case Block(b) => "/*" + b + "/"
    case Line(b) => "//" + b + "\n"
  }

  function BlankText(ps: seq<Piece>): (w: Text) {
    if ps == [] then [] else PieceText(ps[0]) + BlankText(ps[1..])
  }

  lemma PieceSkipped(t: Tok, p: Piece) returns (u: Tok)
    requires Valid(t) && t.top.state == EatWs && Proper(p)
    ensures Feed(t, PieceText(p)) == More(u) && Valid(u) && Same(t, u)
  {
    hide Step, Valid, Feed, StillOpen, Stars, SPACES, InBlock;
    match p
    case Space(c) =>
      SpacesAre('/');
      SpaceExactly(t, c);
      FeedOne(t, c);
      u := t;
    case Block(b) => u := BlockEndsExactly(t, b);
    case Line(b) => u := LineEnds(t, b);
  }

  /** Wherever a token may begin or has ended, white space and comments lead back to the same place. */
  lemma {:induction false} BlankSkipped(t: Tok, ps: seq<Piece>) returns (u: Tok)
    requires Valid(t) && t.top.state == EatWs && forall p :: p in ps ==> Proper(p)
    ensures Feed(t, BlankText(ps)) == More(u) && Valid(u) && Same(t, u)
    decreases |ps|
  {
    hide Valid, Step, Proper;
    if ps == [] {
      u := t;
      FeedNothing(t);
    } else {
      var w := PieceSkipped(t, ps[0]);
      u := BlankSkipped(w, ps[1..]);
      hide PieceText, Feed;
      FeedAppend(t, PieceText(ps[0]), BlankText(ps[1..]));
      SameTwice(t, w, u);
    }
  }

  // ---------- around a value ----------

  /** A printed value, with white space and comments before and behind it, still gives the value. */
  lemma BlankAround(t: Tok, v: Json, before: seq<Piece>, behind: seq<Piece>)
    requires Rested(t) && Good(v) && Nest(v) <= 31
    requires forall p :: p in before + behind ==> Proper(p) && NUL !in PieceText(p)
    ensures var r := Parse(t, BlankText(before) + Print(v) + BlankText(behind)); r.err == Success && r.Obj() == v
  {
    hide Step, Valid, Feed, Run, Print, Proper, PieceText, BlankText;
    var w1, w2, text := BlankText(before), BlankText(behind), Print(v);
    var u := BlankSkipped(t, before);
    var c := (w2 + [NUL])[0];
    BehindIs(behind, c);
    var s := ValueText(u, v, c);
    Unpack(u, text, c, v, s);
    var d := BlankSkipped(Done(u, v, s), behind);
    EndsAfter(u, text, v, s, w2, d);
    FeedAppend(t, w1, text + w2 + [NUL]);
    NoNulBlank(before);
    NoNulBlank(behind);
    NoNulPrinted(v);
    var all := w1 + text + w2 + [NUL];
    assert w1 + (text + w2 + [NUL]) == all && all[..|all| - 1] == w1 + text + w2;
    RunHalts(t, all);
  }

  lemma BehindIs(ps: seq<Piece>, c: char)
    requires c == (BlankText(ps) + [NUL])[0] && forall p :: p in ps ==> Proper(p)
    ensures !IsNumberChar(c)
  {
    if ps != [] {
      assert Proper(ps[0]);
      assert |PieceText(ps[0])| > 0 && c == PieceText(ps[0])[0];
      SpacesAre(c);
    }
    hide StillOpen, Stars, SPACES;
  }

  lemma {:induction false} NoNulBlank(ps: seq<Piece>)
    requires forall p :: p in ps ==> NUL !in PieceText(p)
    ensures NUL !in BlankText(ps)
    decreases |ps|
  {
    hide PieceText;
    if ps != [] { NoNulBlank(ps[1..]); }
  }

  /** The value is complete, what is behind it is skipped, and the text ends. */
  lemma EndsAfter(u: Tok, text: Text, v: Json, s: Scratch, w: Text, d: Tok)
    requires Valid(u) && Valid(Done(u, v, s)) && u.below == []
    requires Feed(u, text + [(w + [NUL])[0]]) == Step(Done(u, v, s), (w + [NUL])[0])
    requires Feed(Done(u, v, s), w) == More(d) && Valid(d) && Same(Done(u, v, s), d)
    ensures Feed(u, text + w + [NUL]) == Halt(Go(d, Finish), Success)
    ensures d.top.current == v
  {
    hide Step, Valid, Feed;
    var m := Done(u, v, s);
    DoneEnds(d, v, d.scratch);
    assert Done(d, v, d.scratch) == d;
    if w == [] {
      FeedNothing(m);
      assert text + w + [NUL] == text + [(w + [NUL])[0]];
    } else {
      var c := w[0];
      FeedFirst(m, w);
      FeedAppend(u, text + [c], w[1..] + [NUL]);
      FeedSnoc(Step(m, c).t, w[1..], d, NUL);
      assert text + [c] + (w[1..] + [NUL]) == text + w + [NUL];
    }
  }
}
