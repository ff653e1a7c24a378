/** Printing a value and parsing the text gives the value back. */
module JsonRoundTrip {
  import opened Bytes
  import opened Json
  import opened JsonToken
  import opened JsonRun

  // ---------- what is printed ----------

  predicate UniqueKeys(fields: seq<(Text, Json)>) {
    forall i, j :: 0 <= i < j < |fields| ==> fields[i].0 != fields[j].0
  }

  /** Strings and keys without NUL, and no key twice in an object. */
  predicate Clean(v: Json) {
    match v
    case JString(s) => NUL !in s
    case JArray(items) => forall i :: 0 <= i < |items| ==> Clean(items[i])
    case JObject(fields) =>
      UniqueKeys(fields) && forall i :: 0 <= i < |fields| ==> NUL !in fields[i].0 && Clean(fields[i].1)
    case _ => true
  }

  /** How deep the deepest child stands below the value. */
  function Nest(v: Json): (n: nat) {
    match v
    case JArray(items) => if items == [] then 0 else 1 + NestItems(v, |items|)
    case JObject(fields) => if fields == [] then 0 else 1 + NestFields(v, |fields|)
    case _ => 0
  }

  function NestItems(v: Json, n: nat): (m: nat)
    requires v.JArray? && n <= |v.items|
    decreases v, n
  {
    if n == 0 then 0 else Max(NestItems(v, n - 1), Nest(v.items[n - 1]))
  }

  function NestFields(v: Json, n: nat): (m: nat)
    requires v.JObject? && n <= |v.fields|
    decreases v, n
  {
    if n == 0 then 0 else Max(NestFields(v, n - 1), Nest(v.fields[n - 1].1))
  }

  lemma {:induction false} NestItem(v: Json, n: nat, i: nat)
    requires v.JArray? && i < n <= |v.items|
    ensures Nest(v.items[i]) <= NestItems(v, n)
    decreases n
  {
    if i < n - 1 { NestItem(v, n - 1, i); }
  }

  lemma {:induction false} NestField(v: Json, n: nat, i: nat)
    requires v.JObject? && i < n <= |v.fields|
    ensures Nest(v.fields[i].1) <= NestFields(v, n)
    decreases n
  {
    if i < n - 1 { NestField(v, n - 1, i); }
  }

  // ---------- steps ----------

  lemma Again(t: Tok, c: char)
    requires Valid(t)
    ensures Step(t, c) == if Turn(t, c).Redo? then (TurnKeeps(t, c); Step(Turn(t, c).t, c)) else Turn(t, c)
  {
  }

  /** A value stands complete; the machine waits for what follows. */
  function Done(t: Tok, v: Json, s: Scratch): Tok {
    Tok(t.below, Level(EatWs, Finish, v, None), s)
  }

  /** The machine before a value. */
  predicate Ready(t: Tok) { Valid(t) && t.top == RESET }

  lemma DoneValid(t: Tok, v: Json, s: Scratch)
    requires Valid(t)
    ensures Valid(Done(t, v, s))
  {
  }

  /** The first character of a value. */
  lemma StartStep(t: Tok, c: char)
    requires Ready(t) && !IsSpace(c) && c != '/'
    ensures Valid(Go(t, Start)) && Step(t, c) == StartValue(Go(t, Start), c)
  {
    Again(t, c);
    TurnKeeps(t, c);
    Again(Go(t, Start), c);
    hide Step;
  }

  // ---------- null, true, false ----------

  /** The machine is reading the literal and has taken its first n characters. */
  predicate Reading(t: Tok, lit: Text, n: nat) {
    Valid(t) && n <= |lit| && t.scratch.pb == lit[..n] && t.scratch.stPos == n &&
    (if lit == "null" then t.top.state == InNull else (lit == "true" || lit == "false") && t.top.state == InBoolean)
  }

  function Value(lit: Text): Json { if lit == "null" then JNull else JBool(lit == "true") }

  lemma LiteralChar(t: Tok, lit: Text, n: nat)
    requires Reading(t, lit, n) && n < |lit|
    ensures Step(t, lit[n]) == More(SetPos(Append(t, lit[n]), n + 1))
    ensures Reading(SetPos(Append(t, lit[n]), n + 1), lit, n + 1)
  {
    var u := Append(t, lit[n]);
    assert u.scratch.pb == lit[..n + 1];
    NoCapitals(lit);
    if lit == "false" { assert u.scratch.pb[0] == 'f'; }
    Again(t, lit[n]);
  }

  lemma NoCapitals(lit: Text)
    requires lit == "null" || lit == "true" || lit == "false"
    ensures forall i :: 0 <= i < |lit| ==> Lower(lit[i]) == lit[i]
  {
  }

  lemma {:induction false} LiteralRest(t: Tok, lit: Text, n: nat) returns (u: Tok)
    requires Reading(t, lit, n)
    ensures Feed(t, lit[n..]) == More(u) && Reading(u, lit, |lit|) && u.below == t.below && u.top == t.top
    decreases |lit| - n
  {
    u := t;
    if n < |lit| {
      LiteralChar(t, lit, n);
      hide Step, Valid;
      var s := lit[n..];
      assert s[0] == lit[n] && s[1..] == lit[n + 1..];
      u := LiteralRest(SetPos(Append(t, lit[n]), n + 1), lit, n + 1);
    }
  }

  /** After the last character any other completes the literal. */
  lemma LiteralEnd(t: Tok, lit: Text, c: char)
    requires Reading(t, lit, |lit|)
    ensures Step(t, c) == (TurnKeeps(t, c); Step(Complete(Append(t, c), Value(lit)), c))
  {
    hide *;
    LiteralTurn(t, lit, c);
    Again(t, c);
  }

  lemma WholeLiteral(lit: Text, c: char)
    requires lit == "null" || lit == "true" || lit == "false"
    ensures SameStart(lit, lit + [c], |lit|) && (lit == "false" ==> !SameStart("true", lit + [c], 4))
  {
    NoCapitals(lit);
    assert (lit + [c])[0] == lit[0];
    if lit == "false" { assert Lower((lit + [c])[0]) != "true"[0]; }
  }

  lemma LiteralTurn(t: Tok, lit: Text, c: char)
    requires Reading(t, lit, |lit|)
    ensures Valid(t) && Turn(t, c) == Redo(Complete(Append(t, c), Value(lit)))
  {
    hide SameStart, Valid, Step, WhiteStep, StartValue, NumberStep, StringStep, FieldStep, StructureStep, EscapeStep;
    hide HexDigit, CommentStep;
    WholeLiteral(lit, c);
    assert lit[..|lit|] == lit;
  }

  /** A text after which the machine holds the value complete, whatever is used for reading tokens. */
  ghost predicate Yields(t: Tok, text: Text, c: char, v: Json, s: Scratch) {
    Valid(t) && Valid(Done(t, v, s)) && Feed(t, text + [c]) == Step(Done(t, v, s), c)
  }

  /** Feeding a text and one more character, when all of the text is taken. */
  lemma FeedThen(t: Tok, a: Text, u: Tok, c: char)
    requires Valid(t) && Valid(u) && Feed(t, a) == More(u)
    ensures Feed(t, a + [c]) == Step(u, c)
  {
    hide Step, Valid, Feed;
    FeedAppend(t, a, [c]);
    FeedOne(u, c);
  }

  /** One character taken, then the rest. */
  lemma FeedCons(t: Tok, c: char, u: Tok, rest: Text)
    requires Valid(t) && Valid(u) && Step(t, c) == More(u)
    ensures Feed(t, [c] + rest) == Feed(u, rest)
  {
    hide Step, Valid;
    assert ([c] + rest)[1..] == rest;
  }

  lemma LiteralStart(t: Tok, lit: Text) returns (u: Tok)
    requires Ready(t) && (lit == "null" || lit == "true" || lit == "false")
    ensures Step(t, lit[0]) == More(u) && Reading(u, lit, 1) && u.below == t.below
    ensures u.top.saved == Start && u.top.field == None
  {
    StartStep(t, lit[0]);
    u := Step(t, lit[0]).t;
    assert lit[..1] == [lit[0]];
    hide Step;
  }

  lemma LiteralText(t: Tok, lit: Text, c: char) returns (s: Scratch)
    requires Ready(t) && (lit == "null" || lit == "true" || lit == "false")
    ensures Yields(t, lit, c, Value(lit), s)
  {
    var u := LiteralStart(t, lit);
    var w := LiteralRest(u, lit, 1);
    LiteralEnd(w, lit, c);
    s := Append(w, c).scratch;
    DoneValid(t, Value(lit), s);
    assert Complete(Append(w, c), Value(lit)) == Done(t, Value(lit), s);
    assert Valid(u) && Valid(w) && Valid(t);
    hide Step, Valid, Feed, Reading;
    assert [lit[0]] + lit[1..] == lit;
    FeedCons(t, lit[0], u, lit[1..]);
    FeedThen(t, lit, w, c);
  }

  // ---------- numbers ----------

  predicate AllDigits(s: Text) { forall i :: 0 <= i < |s| ==> IsDigit(s[i]) }

  lemma {:induction false} DigitsAreDigits(n: nat)
    ensures AllDigits(Digits(n))
    decreases n
  {
    if n >= 10 { DigitsAreDigits(n / 10); }
  }

  lemma {:induction false} ScanSnoc(s: Text, d: char, acc: nat)
    requires AllDigits(s) && IsDigit(d)
    ensures ScanDigits(s + [d], acc) == 10 * ScanDigits(s, acc) + (d as int - '0' as int)
    decreases |s|
  {
    if s == [] {
      assert ([d])[1..] == [];
    } else {
      assert (s + [d])[0] == s[0] && (s + [d])[1..] == s[1..] + [d];
      ScanSnoc(s[1..], d, 10 * acc + (s[0] as int - '0' as int));
    }
  }

  lemma {:induction false} ScanBack(n: nat)
    ensures ScanDigits(Digits(n), 0) == n
    decreases n
  {
    if n < 10 {
      assert [Digit(n)][1..] == [];
    } else {
      ScanBack(n / 10);
      DigitsAreDigits(n / 10);
      ScanSnoc(Digits(n / 10), Digit(n % 10), 0);
    }
  }

  /** %d reads what %d has printed. */
  lemma ScanDecimal(i: int)
    ensures ScanInt(Decimal(i)) == Some(i)
  {
    var n: nat := if i < 0 then -i else i;
    ScanBack(n);
    DigitsAreDigits(n);
    if i < 0 { assert ("-" + Digits(n))[1..] == Digits(n); }
    hide ScanDigits, Digits;
  }

  /** The machine is reading a number without fraction or exponent. */
  predicate Counting(t: Tok, pb: Text) {
    Valid(t) && t.top.state == InNumber && t.scratch.pb == pb && !t.scratch.isDouble
  }

  lemma {:induction false} DigitsRest(t: Tok, pb: Text, s: Text) returns (u: Tok)
    requires Counting(t, pb) && AllDigits(s)
    ensures Feed(t, s) == More(u) && Counting(u, pb + s) && u.below == t.below && u.top == t.top
    decreases |s|
  {
    u := t;
    if s == [] {
      assert pb + s == pb;
    } else {
      assert AllDigits(s[1..]);
      hide *;
      var w := DigitTaken(t, pb, s[0]);
      FeedFirst(t, s);
      u := DigitsRest(w, pb + [s[0]], s[1..]);
      Rejoin(pb, s);
    }
  }

  lemma DigitTaken(t: Tok, pb: Text, d: char) returns (w: Tok)
    requires Counting(t, pb) && IsDigit(d)
    ensures Valid(t) && Valid(w) && Step(t, d) == More(w) && Counting(w, pb + [d]) && w.below == t.below && w.top == t.top
  {
    Again(t, d);
    assert Valid(Step(t, d).t);
    w := Step(t, d).t;
    hide Step, Valid;
  }

  lemma NumberStart(t: Tok, d: char) returns (u: Tok)
    requires Ready(t) && (IsDigit(d) || d == '-')
    ensures Step(t, d) == More(u) && Counting(u, [d]) && u.below == t.below && u.top == RESET.(state := InNumber)
  {
    StartStep(t, d);
    u := Step(t, d).t;
    hide Step;
  }

  lemma NumberEnd(t: Tok, i: int, c: char)
    requires Counting(t, Decimal(i)) && !IsNumberChar(c)
    ensures Step(t, c) == (TurnKeeps(t, c); Step(Complete(t, JInt(i)), c))
  {
    ScanDecimal(i);
    Again(t, c);
    hide Step, Decimal, ScanInt;
  }

  lemma NumberText(t: Tok, i: int, c: char) returns (s: Scratch)
    requires Ready(t) && !IsNumberChar(c)
    ensures Yields(t, Decimal(i), c, JInt(i), s)
  {
    var text := Decimal(i);
    DigitsAreDigits(if i < 0 then -i else i);
    assert (IsDigit(text[0]) || text[0] == '-') && AllDigits(text[1..]);
    var u := NumberStart(t, text[0]);
    var w := DigitsRest(u, [text[0]], text[1..]);
    assert [text[0]] + text[1..] == text;
    NumberEnd(w, i, c);
    s := w.scratch;
    DoneValid(t, JInt(i), s);
    assert Complete(w, JInt(i)) == Done(t, JInt(i), s);
    assert Valid(u) && Valid(w) && Valid(t);
    hide Step, Valid, Feed, Counting, Decimal;
    FeedCons(t, text[0], u, text[1..]);
    FeedThen(t, text, w, c);
  }

  // ---------- strings ----------

  /** The machine is inside double quotes, in a string or a key. */
  predicate Quoting(t: Tok, pb: Text) {
    Valid(t) && (t.top.state == InString || t.top.state == InField) && t.scratch.pb == pb && t.scratch.quote == '"'
  }

  /** The same place, up to what an escape leaves behind. */
  predicate SamePlace(t: Tok, u: Tok) { u.below == t.below && u.top == t.top.(saved := u.top.saved) }

  lemma PlainChar(t: Tok, pb: Text, c: char) returns (u: Tok)
    requires Quoting(t, pb) && c != '"' && c != '\\'
    ensures Step(t, c) == More(u) && Quoting(u, pb + [c]) && SamePlace(t, u)
  {
    Again(t, c);
    u := Step(t, c).t;
    hide Step;
  }

  /** A backslash in a quoted text. */
  lemma Backslash(t: Tok, pb: Text) returns (u: Tok)
    requires Quoting(t, pb)
    ensures Step(t, '\\') == More(u) && Valid(u) && u.scratch == t.scratch && u.below == t.below
    ensures u.top == t.top.(saved := t.top.state, state := StringEscape)
  {
    Again(t, '\\');
    u := Step(t, '\\').t;
    hide Step;
  }

  /** What stands for the character after a backslash, other than u. */
  function Escaped(c: char): char {
    if c == 'b' then '\U{08}' else if c == 'n' then '\n' else if c == 'r' then '\r' else if c == 't' then '\t' else c
  }

  lemma SimpleEscape(t: Tok, pb: Text, c: char) returns (u: Tok)
    requires Quoting(t, pb) && c in {'"', '\\', '/', 'b', 'n', 'r', 't'}
    ensures Feed(t, ['\\', c]) == More(u) && Quoting(u, pb + [Escaped(c)]) && SamePlace(t, u)
  {
    var w := Backslash(t, pb);
    EscapeDone(w, c);
    u := Step(w, c).t;
    hide Step, Valid, Feed;
    FeedCons(t, '\\', w, [c]);
    FeedOne(w, c);
  }

  lemma EscapeDone(w: Tok, c: char)
    requires Valid(w) && w.top.state == StringEscape && c in {'"', '\\', '/', 'b', 'n', 'r', 't'}
    ensures Step(w, c) == More(Go(Append(w, Escaped(c)), w.top.saved)) && Valid(Step(w, c).t)
  {
    Again(w, c);
    hide Step;
  }

  // the escape \u00xy

  lemma HexBack(n: nat)
    requires n < 16
    ensures IsHex(Hex(n)) && HexValue(Hex(n)) == n && Hex(n) != NUL
  {
  }

  const HEX_DIGITS: Text := "0123456789abcdef"

  /** In a \u escape the ten digits and the small letters a to f are taken; any other character ends the parse. */
  lemma HexTaken(t: Tok, c: char)
    requires Valid(t) && t.top.state == EscapeUnicode && c != NUL
    ensures if c in HEX_DIGITS then Step(t, c).More? else Step(t, c) == Halt(t, ErrString)
  {
    Again(t, c);
    TurnHex(t, c);
    IsHexDigit(c);
    hide *;
    HexOutcome(t, c);
  }

  lemma IsHexDigit(c: char)
    ensures IsHex(c) <==> c in HEX_DIGITS
  {
    if '0' <= c <= '9' { assert HEX_DIGITS[c as int - '0' as int] == c; }
    if 'a' <= c <= 'f' { assert HEX_DIGITS[c as int - 'a' as int + 10] == c; }
  }

  lemma HexOutcome(t: Tok, c: char)
    requires c != NUL
    ensures if IsHex(c) then HexDigit(t, c).More? else HexDigit(t, c) == Halt(t, ErrString)
  {
    hide IsHex;
  }

  lemma HexGoesOn(t: Tok, c: char)
    requires Valid(t) && t.top.state == EscapeUnicode && c in HEX_DIGITS && c != NUL && t.scratch.stPos < 3
    ensures Step(t, c).More? && Step(t, c).t.top.state == EscapeUnicode
    ensures Step(t, c).t.scratch.stPos == t.scratch.stPos + 1
  {
    HexTaken(t, c);
    Again(t, c);
    TurnHex(t, c);
    IsHexDigit(c);
    hide Step, Valid, Turn, IsHex;
  }

  /** So an escape of four characters is accepted if and only if all of them are such digits; capital letters are not. */
  lemma {:induction false} EscapeAccepted(t: Tok, h: Text)
    requires Valid(t) && t.top.state == EscapeUnicode && NUL !in h && h != [] && t.scratch.stPos + |h| == 4
    ensures Feed(t, h).More? <==> forall i :: 0 <= i < |h| ==> h[i] in HEX_DIGITS
    ensures !Feed(t, h).More? ==> Feed(t, h).err == ErrString
    decreases |h|
  {
    HexTaken(t, h[0]);
    hide Step, Valid;
    if h[0] in HEX_DIGITS && |h| > 1 {
      HexGoesOn(t, h[0]);
      EscapeAccepted(Step(t, h[0]).t, h[1..]);
      assert forall i :: 1 <= i < |h| ==> h[i] == h[1..][i - 1];
    }
  }

  /** The machine is in the middle of a \u escape. */
  predicate Hexing(t: Tok, pb: Text, pos: nat, ucs: nat) {
    Valid(t) && t.top.state == EscapeUnicode && t.scratch.pb == pb && t.scratch.stPos == pos < 4 &&
    t.scratch.ucs == ucs && t.scratch.quote == '"'
  }

  lemma UnicodeStart(w: Tok, pb: Text) returns (u: Tok)
    requires Valid(w) && w.top.state == StringEscape && w.scratch.pb == pb && w.scratch.quote == '"'
    ensures Step(w, 'u') == More(u) && Hexing(u, pb, 0, 0) && u.below == w.below
    ensures u.top == w.top.(state := EscapeUnicode)
  {
    Again(w, 'u');
    u := Step(w, 'u').t;
    hide Step;
  }

  lemma HexStep(w: Tok, pb: Text, pos: nat, ucs: nat, n: nat) returns (u: Tok)
    requires Hexing(w, pb, pos, ucs) && pos < 3 && n < 16 && ucs + n * Place(pos) < 0x1_0000
    ensures Step(w, Hex(n)) == More(u) && Hexing(u, pb, pos + 1, ucs + n * Place(pos))
    ensures u.below == w.below && u.top == w.top
  {
    HexBack(n);
    Again(w, Hex(n));
    u := Step(w, Hex(n)).t;
    hide Step, Hex, IsHex, HexValue, Place;
  }

  lemma HexLast(w: Tok, pb: Text, ucs: nat, n: nat) returns (u: Tok)
    requires Hexing(w, pb, 3, ucs) && n < 16 && ucs + n < 0x80
    ensures Step(w, Hex(n)) == More(u) && Quoting(u, pb + [(ucs + n) as char])
    ensures u.below == w.below && u.top == w.top.(state := w.top.saved)
  {
    hide *;
    var s := HexLastTurn(w, pb, ucs, n);
    Again(w, Hex(n));
    u := Tok(w.below, w.top.(state := w.top.saved), s);
    assert Valid(Step(w, Hex(n)).t);
    QuotingAgain(w, u, pb + [(ucs + n) as char]);
  }

  lemma HexLastTurn(w: Tok, pb: Text, ucs: nat, n: nat) returns (s: Scratch)
    requires Hexing(w, pb, 3, ucs) && n < 16 && ucs + n < 0x80
    ensures Valid(w) && w.top.saved in {InString, InField}
    ensures s.quote == '"' && s.pb == pb + [(ucs + n) as char]
    ensures Turn(w, Hex(n)) == More(Tok(w.below, w.top.(state := w.top.saved), s))
  {
    s := w.scratch.(ucs := ucs + n, stPos := 4, pb := pb + [(ucs + n) as char]);
    HexBack(n);
    EscapeSaved(w);
    TurnHex(w, Hex(n));
    hide *;
    HexFourth(w, Hex(n), ucs, n, s);
  }

  lemma EscapeSaved(w: Tok)
    requires Valid(w) && w.top.state == EscapeUnicode
    ensures w.top.saved in {InString, InField}
  {
  }

  lemma TurnHex(w: Tok, c: char)
    requires Valid(w) && w.top.state == EscapeUnicode
    ensures Turn(w, c) == HexDigit(w, c)
  {
    hide Valid, HexDigit;
  }

  lemma HexFourth(w: Tok, c: char, ucs: nat, n: nat, s: Scratch)
    requires c != NUL && IsHex(c) && HexValue(c) == n && ucs + n < 0x80 && w.scratch.stPos == 3 && w.scratch.ucs == ucs
    requires s == w.scratch.(ucs := ucs + n, stPos := 4, pb := w.scratch.pb + [(ucs + n) as char])
    ensures HexDigit(w, c) == More(Tok(w.below, w.top.(state := w.top.saved), s))
  {
    hide IsHex, HexValue;
  }

  lemma QuotingAgain(w: Tok, u: Tok, pb: Text)
    requires Valid(u) && u.top == w.top.(state := w.top.saved) && w.top.saved in {InString, InField}
    requires u.scratch.pb == pb && u.scratch.quote == '"'
    ensures Quoting(u, pb)
  {
    hide Valid;
  }

  lemma UnicodeEscape(t: Tok, pb: Text, c: char) returns (u: Tok)
    requires Quoting(t, pb) && c < ' '
    ensures var x := c as int;
            Feed(t, "\\u00" + [Hex(x / 16), Hex(x % 16)]) == More(u) && Quoting(u, pb + [c]) && SamePlace(t, u)
  {
    var x := c as int;
    var w := Backslash(t, pb);
    var w0 := UnicodeStart(w, pb);
    var w1 := HexStep(w0, pb, 0, 0, 0);
    var w2 := HexStep(w1, pb, 1, 0, 0);
    var w3 := HexStep(w2, pb, 2, 0, x / 16);
    u := HexLast(w3, pb, x / 16 * 16, x % 16);
    assert Hex(0) == '0' && x / 16 * 16 + x % 16 == x;
    assert Valid(w) && Valid(w0) && Valid(w1) && Valid(w2) && Valid(w3) && Valid(t);
    hide Step, Valid, Feed, Hexing, Hex;
    var a, b := Hex(x / 16), Hex(x % 16);
    FeedOne(w3, b);
    FeedCons(w2, a, w3, [b]);
    FeedCons(w1, '0', w2, [a, b]);
    FeedCons(w0, '0', w1, ['0', a, b]);
    FeedCons(w, 'u', w0, ['0', '0', a, b]);
    FeedCons(t, '\\', w, ['u', '0', '0', a, b]);
    assert ['\\'] + ['u', '0', '0', a, b] == "\\u00" + [a, b];
  }

  /** Any character but NUL, as it is printed. */
  lemma EscapedChar(t: Tok, pb: Text, c: char) returns (u: Tok)
    requires Quoting(t, pb) && c != NUL
    ensures Feed(t, EscapeChar(c)) == More(u) && Quoting(u, pb + [c]) && SamePlace(t, u)
  {
    hide Feed, Step, Valid;
    if c == '\U{08}' { u := SimpleEscape(t, pb, 'b'); assert "\\b" == ['\\', 'b']; }
    else if c == '\n' { u := SimpleEscape(t, pb, 'n'); }
    else if c == '\r' { u := SimpleEscape(t, pb, 'r'); }
    else if c == '\t' { u := SimpleEscape(t, pb, 't'); }
    else if c == '"' { u := SimpleEscape(t, pb, '"'); }
    else if c == '\\' { u := SimpleEscape(t, pb, '\\'); }
    else if c == '/' { u := SimpleEscape(t, pb, '/'); }
    else if c < ' ' { u := UnicodeEscape(t, pb, c); }
    else { u := PlainChar(t, pb, c); FeedOneQ(t, pb, c); }
  }

  lemma FeedOneQ(t: Tok, pb: Text, c: char)
    requires Quoting(t, pb)
    ensures Feed(t, [c]) == Step(t, c)
  {
    FeedOne(t, c);
  }

  /** A text without NUL, as it is printed between quotes. */
  lemma {:induction false} EscapedText(t: Tok, pb: Text, s: Text) returns (u: Tok)
    requires Quoting(t, pb) && NUL !in s
    ensures Feed(t, Escape(s)) == More(u) && Quoting(u, pb + s) && SamePlace(t, u)
    decreases |s|
  {
    hide Feed, Step, Valid, EscapeChar, Quoting;
    u := t;
    QuotingValid(t, pb);
    if s == [] {
      assert pb + s == pb;
    } else {
      assert s[0] in s;
      var w := EscapedChar(t, pb, s[0]);
      QuotingValid(w, pb + [s[0]]);
      u := EscapedText(w, pb + [s[0]], s[1..]);
      FeedAppend(t, EscapeChar(s[0]), Escape(s[1..]));
      assert pb + [s[0]] + s[1..] == pb + s;
    }
  }

  lemma QuotingValid(t: Tok, pb: Text)
    requires Quoting(t, pb)
    ensures Valid(t) && Feed(t, []) == More(t)
  {
  }

  lemma {:induction false} NoNul(s: Text)
    requires NUL !in s
    ensures CString(s) == s
    decreases |s|
  {
    if s != [] {
      assert s[0] in s;
      NoNul(s[1..]);
    }
  }

  lemma StringStart(t: Tok) returns (u: Tok)
    requires Ready(t)
    ensures Step(t, '"') == More(u) && Quoting(u, []) && u.below == t.below && u.top == RESET.(state := InString)
  {
    StartStep(t, '"');
    u := Step(t, '"').t;
    hide Step;
  }

  lemma StringEnd(t: Tok, s: Text)
    requires Quoting(t, s) && t.top.state == InString && NUL !in s
    ensures Step(t, '"') == More(Complete(t, JString(s))) && Valid(Complete(t, JString(s)))
  {
    NoNul(s);
    Again(t, '"');
    hide Step, CString;
  }

  lemma StringText(t: Tok, v: Text, c: char) returns (s: Scratch)
    requires Ready(t) && NUL !in v
    ensures Yields(t, "\"" + Escape(v) + "\"", c, JString(v), s)
  {
    var u := StringStart(t);
    var w := EscapedText(u, [], v);
    assert [] + v == v;
    StringEnd(w, v);
    var d := Complete(w, JString(v));
    s := d.scratch;
    assert d == Done(t, JString(v), s);
    assert Valid(t) && Valid(u) && Valid(w);
    hide Feed, Step, Valid, Quoting;
    FeedCons(t, '"', u, Escape(v) + "\"");
    FeedAppend(u, Escape(v), "\"");
    FeedOne(w, '"');
    assert ['"'] + (Escape(v) + "\"") == "\"" + Escape(v) + "\"";
    FeedThen(t, "\"" + Escape(v) + "\"", d, c);
  }
}
