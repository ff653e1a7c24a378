/** The tokener of json-c as a machine that takes one character after the other (json_tokener.c). */
module JsonToken {
  import opened Bytes
  import opened Json

  datatype Err =
    | Success | Continue | ErrDepth | ErrEof | ErrUnexpected | ErrNull | ErrBoolean | ErrNumber | ErrArray
    | ErrKeyName | ErrKeySep | ErrValueSep | ErrString | ErrComment

  datatype St =
    | EatWs | Start | Finish | InNull | CommentStart | Comment | CommentEol | CommentEnd | InString | StringEscape
    | EscapeUnicode | InBoolean | InNumber | InArray | ArrayAdd | ArraySep | FieldStart | InField | FieldEnd
    | ObjectValue | ObjectValueAdd | ObjectSep

  const MAX_DEPTH := 32

  /** One level of the stack; `current` is JNull where the pointer is NULL. */
  datatype Level = Level(state: St, saved: St, current: Json, field: Option<Text>)

  const RESET := Level(EatWs, Start, JNull, None)

  /** What is used while a token is read. */
  datatype Scratch = Scratch(pb: Text, isDouble: bool, stPos: nat, ucs: nat, quote: char)

  /** The levels below the current one, the current one, and the token being read. */
  datatype Tok = Tok(below: seq<Level>, top: Level, scratch: Scratch)

  /** The character is taken, or the switch is entered once more with it, or the parse ends before it. */
  datatype Outcome = More(t: Tok) | Redo(t: Tok) | Halt(t: Tok, err: Err)

  // ---------- characters ----------

  predicate IsSpace(c: char) { c == ' ' || '\t' <= c <= '\r' }

  predicate IsNumberChar(c: char) {
    '0' <= c <= '9' || c == '.' || c == '+' || c == '-' || c == 'e' || c == 'E'
  }

  predicate IsHex(c: char) { '0' <= c <= '9' || 'a' <= c <= 'f' }

  function HexValue(c: char): (n: nat)
    requires IsHex(c)
    ensures n < 16
  {
    if c <= '9' then c as int - '0' as int else c as int % 8 + 9
  }

  function Lower(c: char): char { if 'A' <= c <= 'Z' then (c as int + 32) as char else c }

  /** strncasecmp(lit, buf, n) == 0 */
  predicate SameStart(lit: Text, buf: Text, n: nat) {
    n <= |lit| && n <= |buf| && forall i :: 0 <= i < n ==> Lower(buf[i]) == lit[i]
  }

  /** The C string in a buffer ends at the first NUL. */
  function CString(buf: Text): (s: Text) {
    if buf == [] || buf[0] == NUL then [] else [buf[0]] + CString(buf[1..])
  }

  /** The bytes of a \u escape: UTF-8 of up to three bytes. */
  function Utf8(ucs: nat): (s: Text)
    requires ucs < 0x1_0000
  {
    if ucs < 0x80 then [ucs as char]
    else if ucs < 0x800 then [(0xC0 + ucs / 64) as char, (0x80 + ucs % 64) as char]
    else [(0xE0 + ucs / 4096) as char, (0x80 + ucs / 64 % 64) as char, (0x80 + ucs % 64) as char]
  }

  // ---------- numbers ----------

  predicate IsDigit(c: char) { '0' <= c <= '9' }

  /** The digits at the beginning of the text, as a number with those before it. */
  function ScanDigits(s: Text, acc: nat): (n: nat) {
    if s == [] || !IsDigit(s[0]) then acc else ScanDigits(s[1..], 10 * acc + (s[0] as int - '0' as int))
  }

  /** sscanf with %d */
  function ScanInt(s: Text): (r: Option<int>) {
    if s != [] && IsDigit(s[0]) then Some(ScanDigits(s, 0) as int)
    else if |s| > 1 && s[0] == '-' && IsDigit(s[1]) then Some(0 - ScanDigits(s[1..], 0) as int)
    else if |s| > 1 && s[0] == '+' && IsDigit(s[1]) then Some(ScanDigits(s[1..], 0) as int)
    else None
  }

  /** Whether sscanf with %lf finds a number in a text of number characters. */
  predicate ScansDouble(s: Text) {
    var u := if s != [] && (s[0] == '-' || s[0] == '+') then s[1..] else s;
    u != [] && (IsDigit(u[0]) || (|u| > 1 && u[0] == '.' && IsDigit(u[1])))
  }

  // ---------- the machine ----------

  /** state := st */
  function Go(t: Tok, st: St): Tok
  {
    t.(top := t.top.(state := st))
  }

  /** A token is complete: white space, then `saved`. */
  function Then(t: Tok, saved: St): Tok
  {
    t.(top := t.top.(state := EatWs, saved := saved))
  }

  function Complete(t: Tok, v: Json): Tok
  {
    t.(top := t.top.(state := EatWs, saved := Finish, current := v))
  }

  function Append(t: Tok, c: char): Tok { t.(scratch := t.scratch.(pb := t.scratch.pb + [c])) }

  function Clear(t: Tok): Tok { t.(scratch := t.scratch.(pb := [])) }

  function Saving(t: Tok, saved: St, st: St): Tok
  {
    t.(top := t.top.(state := st, saved := saved))
  }

  function SetPos(t: Tok, n: nat): Tok { t.(scratch := t.scratch.(stPos := n)) }

  // ---------- which states fit together ----------

  /** What white space and comments may lead back to. */
  predicate Resumable(st: St) {
    st in {Start, Finish, InArray, ArraySep, FieldStart, FieldEnd, ObjectValue, ObjectSep}
  }

  predicate InComment(st: St) { st in {CommentStart, Comment, CommentEol, CommentEnd} }

  predicate InEscape(st: St) { st == StringEscape || st == EscapeUnicode }

  /** The state that says what the level is about. */
  function Meaning(l: Level): St {
    if l.state == EatWs || InComment(l.state) || InEscape(l.state) then l.saved else l.state
  }

  predicate Typed(l: Level) {
    var m := Meaning(l);
    (m in {InArray, ArrayAdd, ArraySep} ==> l.current.JArray?) &&
    (m in {FieldStart, InField, FieldEnd, ObjectValue, ObjectValueAdd, ObjectSep} ==> l.current.JObject?) &&
    (m in {FieldEnd, ObjectValue, ObjectValueAdd} ==> l.field.Some?)
  }

  predicate TopOk(l: Level, s: Scratch) {
    Typed(l) && l.state != ArrayAdd && l.state != ObjectValueAdd &&
    (l.state == EatWs || InComment(l.state) ==> Resumable(l.saved)) &&
    (InEscape(l.state) ==> l.saved == InString || l.saved == InField) &&
    (l.state == EscapeUnicode ==> s.stPos < 4)
  }

  /** A level below waits for its child. */
  predicate Waiting(l: Level) {
    Typed(l) && (l.state == ArrayAdd || l.state == ObjectValueAdd)
  }

  /** The stack never has more than 32 levels. */
  predicate Valid(t: Tok) {
    |t.below| < MAX_DEPTH && TopOk(t.top, t.scratch) && forall i :: 0 <= i < |t.below| ==> Waiting(t.below[i])
  }

  // ---------- one character ----------

  /** The first character of a value. */
  function StartValue(t: Tok, c: char): (o: Outcome)
  {
    if c == '{' then More(t.(top := t.top.(state := EatWs, saved := FieldStart, current := JObject([]))))
    else if c == '[' then More(t.(top := t.top.(state := EatWs, saved := InArray, current := JArray([]))))
    else if c == 'N' || c == 'n' then More(SetPos(Append(Clear(Go(t, InNull)), c), 1))
    else if c == '"' || c == '\'' then More(Clear(Go(t, InString)).(scratch := Clear(t).scratch.(quote := c)))
    else if c == 'T' || c == 't' || c == 'F' || c == 'f' then More(SetPos(Append(Clear(Go(t, InBoolean)), c), 1))
    else if IsDigit(c) || c == '-' then
      More(Go(t, InNumber).(scratch := t.scratch.(pb := [c], isDouble := false)))
    else Halt(t, ErrUnexpected)
  }

  /** A level for a child, unless the stack is full. */
  function Push(t: Tok, waiting: St): (o: Outcome)
  {
    if |t.below| >= MAX_DEPTH - 1 then Halt(t, ErrDepth)
    else Redo(t.(below := t.below + [t.top.(state := waiting)], top := RESET))
  }

  /** The finished child goes into its parent. */
  function Pop(t: Tok): (u: Tok)
    requires t.below != [] && Waiting(t.below[|t.below| - 1])
  {
    var obj, p := t.top.current, t.below[|t.below| - 1];
    var q :=
      if p.state == ArrayAdd then
        p.(state := EatWs, saved := ArraySep, current := JArray(p.current.items + [obj]))
      else
        p.(state := EatWs, saved := ObjectSep, current := JObject(Put(p.current.fields, p.field.value, obj)), field := None);
    t.(below := t.below[..|t.below| - 1], top := q)
  }

  function Place(p: nat): nat {
    if p == 0 then 4096 else if p == 1 then 256 else if p == 2 then 16 else 1
  }

  /** One hexadecimal digit of a \u escape. */
  function HexDigit(t: Tok, c: char): (o: Outcome)
  {
    if c == NUL then More(t)
    else if IsHex(c) then
      var s := t.scratch;
      var ucs := (s.ucs + HexValue(c) * Place(s.stPos)) % 0x1_0000;
      var u := t.(scratch := s.(ucs := ucs, stPos := s.stPos + 1));
      if s.stPos + 1 == 4 then
        More(Go(u.(scratch := u.scratch.(pb := s.pb + Utf8(ucs))), t.top.saved))
      else More(u)
    else Halt(t, ErrString)
  }

  /** The character after a backslash. */
  function EscapeStep(t: Tok, c: char): (o: Outcome)
  {
    if c == '"' || c == '\\' || c == '/' then More(Go(Append(t, c), t.top.saved))
    else if c == 'b' then More(Go(Append(t, '\U{08}'), t.top.saved))
    else if c == 'n' then More(Go(Append(t, '\n'), t.top.saved))
    else if c == 'r' then More(Go(Append(t, '\r'), t.top.saved))
    else if c == 't' then More(Go(Append(t, '\t'), t.top.saved))
    else if c == 'u' then More(Go(t, EscapeUnicode).(scratch := t.scratch.(ucs := 0, stPos := 0)))
    else Halt(t, ErrString)
  }

  function WhiteStep(t: Tok, c: char): (o: Outcome)
  {
    if IsSpace(c) then More(t)
    else if c == '/' then More(Append(Clear(Go(t, CommentStart)), c))
    else Redo(Go(t, t.top.saved))
  }

  function NullStep(t: Tok, c: char): (o: Outcome)
  {
    var u, p := Append(t, c), t.scratch.stPos;
    if !SameStart("null", u.scratch.pb, Min(p + 1, 4)) then Halt(u, ErrNull)
    else if p == 4 then Redo(Complete(u, JNull))
    else More(SetPos(u, p + 1))
  }

  function BooleanStep(t: Tok, c: char): (o: Outcome)
  {
    var u, p := Append(t, c), t.scratch.stPos;
    if SameStart("true", u.scratch.pb, Min(p + 1, 4)) then
      if p == 4 then Redo(Complete(u, JBool(true))) else More(SetPos(u, p + 1))
    else if SameStart("false", u.scratch.pb, Min(p + 1, 5)) then
      if p == 5 then Redo(Complete(u, JBool(false))) else More(SetPos(u, p + 1))
    else Halt(u, ErrBoolean)
  }

  function NumberStep(t: Tok, c: char): (o: Outcome)
  {
    var s := t.scratch;
    if IsNumberChar(c) then
      More(t.(scratch := s.(pb := s.pb + [c], isDouble := s.isDouble || c == '.' || c == 'e')))
    else if !s.isDouble && ScanInt(s.pb).Some? then Redo(Complete(t, JInt(ScanInt(s.pb).value)))
    else if s.isDouble && ScansDouble(s.pb) then Redo(Complete(t, JDouble(s.pb)))
    else Halt(t, ErrNumber)
  }

  function StringStep(t: Tok, c: char): (o: Outcome)
  {
    if c == t.scratch.quote then More(Complete(t, JString(CString(t.scratch.pb))))
    else if c == '\\' then More(Saving(t, InString, StringEscape))
    else More(Append(t, c))
  }

  function FieldStep(t: Tok, c: char): (o: Outcome)
  {
    if c == t.scratch.quote then
      More(t.(top := t.top.(state := EatWs, saved := FieldEnd, field := Some(CString(t.scratch.pb)))))
    else if c == '\\' then More(Saving(t, InField, StringEscape))
    else More(Append(t, c))
  }

  /** The states between the values of an array or object. */
  function StructureStep(t: Tok, c: char): (o: Outcome)
  {
    match t.top.state
    case InArray => if c == ']' then More(Then(t, Finish)) else Push(t, ArrayAdd)
    case ArraySep =>
      if c == ']' then More(Then(t, Finish)) else if c == ',' then More(Then(t, InArray)) else Halt(t, ErrArray)
    case FieldStart =>
      if c == '}' then More(Then(t, Finish))
      else if c == '"' || c == '\'' then More(Go(t, InField).(scratch := Clear(t).scratch.(quote := c)))
      else Halt(t, ErrKeyName)
    case FieldEnd => if c == ':' then More(Then(t, ObjectValue)) else Halt(t, ErrKeySep)
    case ObjectValue => Push(t, ObjectValueAdd)
    case _ =>
      if c == '}' then More(Then(t, Finish)) else if c == ',' then More(Then(t, FieldStart)) else Halt(t, ErrValueSep)
  }

  function CommentStep(t: Tok, c: char): (o: Outcome)
  {
    match t.top.state
    case CommentStart =>
      if c == '*' then More(Append(Go(t, Comment), c))
      else if c == '/' then More(Append(Go(t, CommentEol), c))
      else Halt(t, ErrComment)
    case Comment => More(Append(if c == '*' then Go(t, CommentEnd) else t, c))
    case CommentEol => More(if c == '\n' then Go(t, EatWs) else Append(t, c))
    case _ => More(Append(Go(t, if c == '/' then EatWs else Comment), c))
  }

  /** One turn of the switch. */
  function Turn(t: Tok, c: char): (o: Outcome)
    requires Valid(t)
  {
    var st := t.top.state;
    if st == EatWs then WhiteStep(t, c)
    else if st == Start then StartValue(t, c)
    else if st == Finish then if t.below == [] then Halt(t, Success) else Redo(Pop(t))
    else if st == InNull then NullStep(t, c)
    else if st == InBoolean then BooleanStep(t, c)
    else if st == InNumber then NumberStep(t, c)
    else if st == InString then StringStep(t, c)
    else if st == StringEscape then EscapeStep(t, c)
    else if st == EscapeUnicode then HexDigit(t, c)
    else if st == InField then FieldStep(t, c)
    else if InComment(st) then CommentStep(t, c)
    else StructureStep(t, c)
  }

  /** How many more turns a character can take. */
  function Weight(l: Level): nat {
    match l.state
    case InNull => 4
    case InBoolean => 4
    case InNumber => 4
    case Finish => 2
    case InArray => 3
    case ObjectValue => 3
    case Start => 1
    case EatWs =>
      if l.saved in {InArray, ObjectValue} then 4 else if l.saved == Finish then 3 else if l.saved == Start then 2 else 1
    case _ => 0
  }

  /** The machine stays in order, and a character takes only so many turns. */
  predicate Kept(t: Tok, o: Outcome) {
    Valid(o.t) && (o.Redo? ==> Weight(o.t.top) < Weight(t.top)) && (o.Halt? ==> o.err != Continue)
  }

  lemma StartKept(t: Tok, c: char)
    requires Valid(t) && t.top.state == Start
    ensures Kept(t, StartValue(t, c))
  {
    hide IsDigit;
  }

  lemma NullKept(t: Tok, c: char)
    requires Valid(t) && t.top.state == InNull
    ensures Kept(t, NullStep(t, c))
  {
    hide SameStart;
  }

  lemma BooleanKept(t: Tok, c: char)
    requires Valid(t) && t.top.state == InBoolean
    ensures Kept(t, BooleanStep(t, c))
  {
    hide SameStart;
  }

  lemma NumberKept(t: Tok, c: char)
    requires Valid(t) && t.top.state == InNumber
    ensures Kept(t, NumberStep(t, c))
  {
    hide ScanInt, ScansDouble, IsNumberChar;
  }

  lemma StringKept(t: Tok, c: char)
    requires Valid(t) && t.top.state == InString
    ensures Kept(t, StringStep(t, c))
  {
    hide CString;
  }

  lemma FieldKept(t: Tok, c: char)
    requires Valid(t) && t.top.state == InField
    ensures Kept(t, FieldStep(t, c))
  {
    hide CString;
  }

  lemma EscapeKept(t: Tok, c: char)
    requires Valid(t) && t.top.state == StringEscape
    ensures Kept(t, EscapeStep(t, c))
  {
    hide IsHex;
  }

  lemma HexKept(t: Tok, c: char)
    requires Valid(t) && t.top.state == EscapeUnicode
    ensures Kept(t, HexDigit(t, c))
  {
    hide Utf8, HexValue, IsHex, Place;
  }

  lemma CommentKept(t: Tok, c: char)
    requires Valid(t) && InComment(t.top.state)
    ensures Kept(t, CommentStep(t, c))
  {
    hide IsHex;
  }

  lemma WhiteKept(t: Tok, c: char)
    requires Valid(t) && t.top.state == EatWs
    ensures Kept(t, WhiteStep(t, c))
  {
    hide IsSpace;
  }

  lemma PushKept(t: Tok, waiting: St)
    requires Valid(t) && t.top.state in {InArray, ObjectValue}
    requires waiting == if t.top.state == InArray then ArrayAdd else ObjectValueAdd
    ensures Kept(t, Push(t, waiting))
  {
  }

  lemma StructureKept(t: Tok, c: char)
    requires Valid(t) && t.top.state in {InArray, ArraySep, FieldStart, FieldEnd, ObjectValue, ObjectSep}
    ensures Kept(t, StructureStep(t, c))
  {
    if t.top.state in {InArray, ObjectValue} {
      PushKept(t, if t.top.state == InArray then ArrayAdd else ObjectValueAdd);
      hide Push;
    }
  }

  lemma PopKept(t: Tok)
    requires Valid(t) && t.below != [] && t.top.state == Finish
    ensures Kept(t, Redo(Pop(t)))
  {
    hide Put;
  }

  lemma TurnKeeps(t: Tok, c: char)
    requires Valid(t)
    ensures Kept(t, Turn(t, c))
  {
    var st := t.top.state;
    assert TopOk(t.top, t.scratch);
    hide Kept, Valid, StartValue, NullStep, BooleanStep, NumberStep, StringStep, FieldStep, EscapeStep, HexDigit;
    hide CommentStep, WhiteStep, StructureStep;
    if st == EatWs { WhiteKept(t, c); }
    else if st == Start { StartKept(t, c); }
    else if st == Finish { if t.below != [] { PopKept(t); } else { FinishKept(t); } }
    else if st == InNull { NullKept(t, c); }
    else if st == InBoolean { BooleanKept(t, c); }
    else if st == InNumber { NumberKept(t, c); }
    else if st == InString { StringKept(t, c); }
    else if st == StringEscape { EscapeKept(t, c); }
    else if st == EscapeUnicode { HexKept(t, c); }
    else if st == InField { FieldKept(t, c); }
    else if InComment(st) { CommentKept(t, c); }
    else { StructureKept(t, c); }
  }

  lemma FinishKept(t: Tok)
    requires Valid(t)
    ensures Kept(t, Halt(t, Success))
  {
  }

  /** One character: the switch, entered as often as it takes. */
  function Step(t: Tok, c: char): (o: Outcome)
    requires Valid(t)
    ensures !o.Redo? && Valid(o.t) && (o.Halt? ==> o.err != Continue)
    decreases Weight(t.top)
  {
    TurnKeeps(t, c);
    var o := Turn(t, c);
    if o.Redo? then Step(o.t, c) else o
  }
}
