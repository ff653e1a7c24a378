/** The tokener in memory: its stack, its print buffer, and the loops that take several characters at once. */
module JsonTokener {
  import opened Bytes
  import opened Json
  import opened JsonToken
  import opened JsonRun

  /** What one turn of the switch comes to. */
  datatype Res = Taken | Again | Out

  class Tokener {
    const stack: array<Level>
    var depth: nat
    var pb: Text
    var isDouble: bool
    var stPos: nat
    var ucs: nat
    var quote: char
    var err: Err
    var charOffset: nat

    ghost predicate Sized()
      reads `depth
    {
      depth < 32 == stack.Length
    }

    /** The machine that the fields make up. */
    ghost function Machine(): Tok
      requires Sized()
      reads this, stack
    {
      Tok(stack[..depth], stack[depth], Scratch(pb, isDouble, stPos, ucs, quote))
    }

    ghost predicate Ok()
      reads this, stack
    {
      Sized() && Valid(Machine())
    }

    /** json_tokener_new */
    constructor ()
      ensures Ok() && fresh(stack) && Machine() == Tok([], RESET, Scratch([], false, 0, 0, NUL))
    {
      stack := new Level[32](_ => RESET);
      depth := 0;
      pb, isDouble, stPos, ucs, quote := [], false, 0, 0, NUL;
      err, charOffset := Success, 0;
    }

    /** json_tokener_reset: back to the bottom level, whatever state the tokener is in. */
    method Reset()
      requires Sized()
      modifies this, stack
      ensures Ok() && Machine().below == [] && Machine().top == RESET && err == Success
    {
      var i: int := depth;
      while i >= 0
        invariant -1 <= i < 32 && Sized()
        invariant forall j :: i < j <= old(depth) ==> stack[j] == RESET
        invariant depth == old(depth)
      {
        stack[i] := RESET;
        i := i - 1;
      }
      depth := 0;
      err := Success;
    }

    /** The machine is what the outcome says, and the result is its kind. */
    ghost predicate Is(o: Outcome, r: Res)
      reads this, stack
    {
      Sized() && Machine() == o.t && (r == Taken <==> o.More?) && (r == Again <==> o.Redo?) &&
      (r == Out <==> o.Halt?) && (o.Halt? ==> err == o.err)
    }

    /** The current level is replaced. */
    method SetTop(l: Level)
      requires Sized()
      modifies stack
      ensures Machine() == old(Machine()).(top := l)
    {
      stack[depth] := l;
    }

    /** json_tokener_state_eatws */
    method WhiteTurn(c: char) returns (r: Res)
      requires Sized()
      modifies `depth, `pb, `isDouble, `stPos, `ucs, `quote, `err, stack
      ensures Is(WhiteStep(old(Machine()), c), r) && (r != Out ==> err == old(err))
    {
      var l := stack[depth];
      if IsSpace(c) { return Taken; }
      if c == '/' {
        pb := [c];
        SetTop(l.(state := CommentStart));
        return Taken;
      }
      SetTop(l.(state := l.saved));
      return Again;
    }

    /** json_tokener_state_start */
    method StartTurn(c: char) returns (r: Res)
      requires Sized()
      modifies `depth, `pb, `isDouble, `stPos, `ucs, `quote, `err, stack
      ensures Is(StartValue(old(Machine()), c), r) && (r != Out ==> err == old(err))
    {
      var l := stack[depth];
      if c == '{' {
        SetTop(l.(state := EatWs, saved := FieldStart, current := JObject([])));
      } else if c == '[' {
        SetTop(l.(state := EatWs, saved := InArray, current := JArray([])));
      } else if c == 'N' || c == 'n' {
        SetTop(l.(state := InNull));
        pb, stPos := [c], 1;
      } else if c == '"' || c == '\'' {
        SetTop(l.(state := InString));
        pb, quote := [], c;
      } else if c == 'T' || c == 't' || c == 'F' || c == 'f' {
        SetTop(l.(state := InBoolean));
        pb, stPos := [c], 1;
      } else if IsDigit(c) || c == '-' {
        SetTop(l.(state := InNumber));
        pb, isDouble := [c], false;
      } else {
        err := ErrUnexpected;
        return Out;
      }
      return Taken;
    }

    /** json_tokener_state_null */
    method NullTurn(c: char) returns (r: Res)
      requires Sized()
      modifies `depth, `pb, `isDouble, `stPos, `ucs, `quote, `err, stack
      ensures Is(NullStep(old(Machine()), c), r) && (r != Out ==> err == old(err))
    {
      pb := pb + [c];
      if !SameStart("null", pb, Min(stPos + 1, 4)) {
        err := ErrNull;
        return Out;
      }
      if stPos == 4 {
        SetTop(stack[depth].(state := EatWs, saved := Finish, current := JNull));
        return Again;
      }
      stPos := stPos + 1;
      return Taken;
    }

    /** json_tokener_state_boolean */
    method BooleanTurn(c: char) returns (r: Res)
      requires Sized()
      modifies `depth, `pb, `isDouble, `stPos, `ucs, `quote, `err, stack
      ensures Is(BooleanStep(old(Machine()), c), r) && (r != Out ==> err == old(err))
    {
      pb := pb + [c];
      if SameStart("true", pb, Min(stPos + 1, 4)) {
        if stPos == 4 {
          SetTop(stack[depth].(state := EatWs, saved := Finish, current := JBool(true)));
          return Again;
        }
      } else if SameStart("false", pb, Min(stPos + 1, 5)) {
        if stPos == 5 {
          SetTop(stack[depth].(state := EatWs, saved := Finish, current := JBool(false)));
          return Again;
        }
      } else {
        err := ErrBoolean;
        return Out;
      }
      stPos := stPos + 1;
      return Taken;
    }

    /** json_tokener_state_number, one character */
    method NumberTurn(c: char) returns (r: Res)
      requires Sized()
      modifies `depth, `pb, `isDouble, `stPos, `ucs, `quote, `err, stack
      ensures Is(NumberStep(old(Machine()), c), r) && (r != Out ==> err == old(err))
    {
      if IsNumberChar(c) {
        pb := pb + [c];
        if c == '.' || c == 'e' { isDouble := true; }
        return Taken;
      }
      if !isDouble && ScanInt(pb).Some? {
        SetTop(stack[depth].(state := EatWs, saved := Finish, current := JInt(ScanInt(pb).value)));
        return Again;
      }
      if isDouble && ScansDouble(pb) {
        SetTop(stack[depth].(state := EatWs, saved := Finish, current := JDouble(pb)));
        return Again;
      }
      err := ErrNumber;
      return Out;
    }

    /** json_tokener_state_string, one character */
    method StringTurn(c: char) returns (r: Res)
      requires Sized()
      modifies `depth, `pb, `isDouble, `stPos, `ucs, `quote, `err, stack
      ensures Is(StringStep(old(Machine()), c), r) && (r != Out ==> err == old(err))
    {
      if c == quote {
        SetTop(stack[depth].(state := EatWs, saved := Finish, current := JString(CString(pb))));
      } else if c == '\\' {
        SetTop(stack[depth].(saved := InString, state := StringEscape));
      } else {
        pb := pb + [c];
      }
      return Taken;
    }

    /** json_tokener_state_object_field, one character */
    method FieldTurn(c: char) returns (r: Res)
      requires Sized()
      modifies `depth, `pb, `isDouble, `stPos, `ucs, `quote, `err, stack
      ensures Is(FieldStep(old(Machine()), c), r) && (r != Out ==> err == old(err))
    {
      if c == quote {
        SetTop(stack[depth].(state := EatWs, saved := FieldEnd, field := Some(CString(pb))));
      } else if c == '\\' {
        SetTop(stack[depth].(saved := InField, state := StringEscape));
      } else {
        pb := pb + [c];
      }
      return Taken;
    }

    /** json_tokener_state_string_escape */
    method EscapeTurn(c: char) returns (r: Res)
      requires Sized()
      modifies `depth, `pb, `isDouble, `stPos, `ucs, `quote, `err, stack
      ensures Is(EscapeStep(old(Machine()), c), r) && (r != Out ==> err == old(err))
    {
      var l := stack[depth];
      if c == '"' || c == '\\' || c == '/' {
        pb := pb + [c];
        SetTop(l.(state := l.saved));
      } else if c == 'b' || c == 'n' || c == 'r' || c == 't' {
        pb := pb + [if c == 'b' then '\U{08}' else if c == 'n' then '\n' else if c == 'r' then '\r' else '\t'];
        SetTop(l.(state := l.saved));
      } else if c == 'u' {
        ucs, stPos := 0, 0;
        SetTop(l.(state := EscapeUnicode));
      } else {
        err := ErrString;
        return Out;
      }
      return Taken;
    }

    /** json_tokener_state_escape_unicode, one character */
    method HexTurn(c: char) returns (r: Res)
      requires Sized()
      modifies `depth, `pb, `isDouble, `stPos, `ucs, `quote, `err, stack
      ensures Is(HexDigit(old(Machine()), c), r) && (r != Out ==> err == old(err))
    {
      if c == NUL { return Taken; }
      if !IsHex(c) {
        err := ErrString;
        return Out;
      }
      ucs := (ucs + HexValue(c) * Place(stPos)) % 0x1_0000;
      stPos := stPos + 1;
      if stPos == 4 {
        pb := pb + Utf8(ucs);
        SetTop(stack[depth].(state := stack[depth].saved));
      }
      return Taken;
    }

    /** The comment states, one character */
    method CommentTurn(c: char) returns (r: Res)
      requires Sized()
      modifies `depth, `pb, `isDouble, `stPos, `ucs, `quote, `err, stack
      ensures Is(CommentStep(old(Machine()), c), r) && (r != Out ==> err == old(err))
    {
      var l := stack[depth];
      if l.state == CommentStart {
        if c == '*' {
          SetTop(l.(state := Comment));
        } else if c == '/' {
          SetTop(l.(state := CommentEol));
        } else {
          err := ErrComment;
          return Out;
        }
        pb := pb + [c];
      } else if l.state == Comment {
        pb := pb + [c];
        if c == '*' { SetTop(l.(state := CommentEnd)); }
      } else if l.state == CommentEol {
        if c == '\n' { SetTop(l.(state := EatWs)); } else { pb := pb + [c]; }
      } else {
        pb := pb + [c];
        SetTop(l.(state := if c == '/' then EatWs else Comment));
      }
      return Taken;
    }

    /** A new level, if there is room for it. */
    method PushTurn(waiting: St) returns (r: Res)
      requires Sized()
      modifies `depth, `pb, `isDouble, `stPos, `ucs, `quote, `err, stack
      ensures Is(Push(old(Machine()), waiting), r) && (r != Out ==> err == old(err))
    {
      if depth >= MAX_DEPTH - 1 {
        err := ErrDepth;
        return Out;
      }
      stack[depth] := stack[depth].(state := waiting);
      depth := depth + 1;
      stack[depth] := RESET;
      return Again;
    }

    /** json_tokener_state_finish and the adding state of the parent: the level is left, and its value added. */
    method PopTurn() returns (r: Res)
      requires Sized() && depth > 0 && Waiting(stack[depth - 1])
      modifies `depth, `pb, `isDouble, `stPos, `ucs, `quote, `err, stack
      ensures Is(Redo(Pop(old(Machine()))), r) && (r != Out ==> err == old(err))
    {
      var obj := stack[depth].current;
      stack[depth] := RESET;
      depth := depth - 1;
      var p := stack[depth];
      if p.state == ArrayAdd {
        stack[depth] := p.(state := EatWs, saved := ArraySep, current := JArray(p.current.items + [obj]));
      } else {
        stack[depth] := p.(state := EatWs, saved := ObjectSep, current := JObject(Put(p.current.fields, p.field.value, obj)),
                           field := None);
      }
      return Again;
    }

    /** The states between values */
    method StructureTurn(c: char) returns (r: Res)
      requires Sized()
      modifies `depth, `pb, `isDouble, `stPos, `ucs, `quote, `err, stack
      ensures Is(StructureStep(old(Machine()), c), r) && (r != Out ==> err == old(err))
    {
      var l := stack[depth];
      if l.state == InArray {
        if c != ']' {
          r := PushTurn(ArrayAdd);
          return;
        }
        SetTop(l.(state := EatWs, saved := Finish));
      } else if l.state == ArraySep {
        if c != ']' && c != ',' {
          err := ErrArray;
          return Out;
        }
        SetTop(l.(state := EatWs, saved := if c == ']' then Finish else InArray));
      } else if l.state == FieldStart {
        if c == '}' {
          SetTop(l.(state := EatWs, saved := Finish));
        } else if c == '"' || c == '\'' {
          quote, pb := c, [];
          SetTop(l.(state := InField));
        } else {
          err := ErrKeyName;
          return Out;
        }
      } else if l.state == FieldEnd {
        if c != ':' {
          err := ErrKeySep;
          return Out;
        }
        SetTop(l.(state := EatWs, saved := ObjectValue));
      } else if l.state == ObjectValue {
        r := PushTurn(ObjectValueAdd);
        return;
      } else {
        if c != '}' && c != ',' {
          err := ErrValueSep;
          return Out;
        }
        SetTop(l.(state := EatWs, saved := if c == '}' then Finish else FieldStart));
      }
      return Taken;
    }

    /** One turn of the switch. */
    method OneTurn(c: char) returns (r: Res)
      requires Ok()
      modifies `depth, `pb, `isDouble, `stPos, `ucs, `quote, `err, stack
      ensures Is(Turn(old(Machine()), c), r) && (r != Out ==> err == old(err))
    {
      BelowWaits();
      hide StartValue, NullStep, BooleanStep, NumberStep, StringStep, FieldStep, EscapeStep, HexDigit;
      hide CommentStep, WhiteStep, StructureStep, Valid, Pop, Waiting;
      var st := stack[depth].state;
      if st == EatWs { r := WhiteTurn(c); }
      else if st == Start { r := StartTurn(c); }
      else if st == Finish {
        if depth == 0 {
          err := Success;
          r := Out;
        } else {
          r := PopTurn();
        }
      }
      else if st == InNull { r := NullTurn(c); }
      else if st == InBoolean { r := BooleanTurn(c); }
      else if st == InNumber { r := NumberTurn(c); }
      else if st == InString { r := StringTurn(c); }
      else if st == StringEscape { r := EscapeTurn(c); }
      else if st == EscapeUnicode { r := HexTurn(c); }
      else if st == InField { r := FieldTurn(c); }
      else if InComment(st) { r := CommentTurn(c); }
      else { r := StructureTurn(c); }
    }

    lemma BelowWaits()
      requires Ok()
      ensures depth > 0 ==> Waiting(stack[depth - 1])
    {
      if depth > 0 { assert stack[..depth][depth - 1] == stack[depth - 1]; }
    }

    // ---------- the loops that take several characters ----------

    /** White space. */
    method SkipSpaces(str: Text)
      requires Ok() && stack[depth].state == EatWs && charOffset <= |str|
      modifies this`charOffset
      ensures Sized() && Machine() == old(Machine())
      ensures old(charOffset) <= charOffset <= |str| && AllSpaces(str[old(charOffset)..charOffset])
    {
      ghost var i := charOffset;
      while charOffset < |str| && IsSpace(str[charOffset])
        invariant i <= charOffset <= |str| && AllSpaces(str[i..charOffset]) && Sized() && Machine() == old(Machine())
      {
        assert str[i..charOffset + 1] == str[i..charOffset] + [str[charOffset]];
        charOffset := charOffset + 1;
      }
    }

    /** Characters that are only gathered, in one piece, up to one for which the state changes. */
    method Gather(str: Text)
      requires Ok() && Gathers(stack[depth].state) && charOffset <= |str|
      modifies this`charOffset, this`pb
      ensures Sized() && old(charOffset) <= charOffset <= |str|
      ensures var s := str[old(charOffset)..charOffset];
              AllOrdinary(old(Machine()), s) && Machine() == Gathered(old(Machine()), s)
    {
      ghost var i, m := charOffset, Machine();
      var caseStart := charOffset;
      while charOffset < |str| && Ordinary(stack[depth].state, quote, str[charOffset])
        invariant i <= charOffset <= |str| && Sized() && Machine() == m && AllOrdinary(m, str[i..charOffset])
      {
        assert str[i..charOffset + 1] == str[i..charOffset] + [str[charOffset]];
        charOffset := charOffset + 1;
      }
      pb := pb + str[caseStart..charOffset];
    }

    /** The characters of a number, in one piece. */
    method GatherNumber(str: Text)
      requires Ok() && stack[depth].state == InNumber && charOffset <= |str|
      modifies this`charOffset, this`pb, this`isDouble
      ensures Sized() && old(charOffset) <= charOffset <= |str|
      ensures var s := str[old(charOffset)..charOffset];
              AllNumber(s) && Machine() == Counted(old(Machine()), s)
    {
      hide AllNumber, HasPoint, IsNumberChar;
      ghost var i, m := charOffset, Machine();
      var caseStart, caseLen := charOffset, 0;
      NoNumber(str, i);
      while charOffset < |str| && IsNumberChar(str[charOffset])
        invariant i <= charOffset <= |str| && caseLen == charOffset - i && Sized()
        invariant Machine() == m.(scratch := m.scratch.(isDouble := isDouble))
        invariant AllNumber(str[i..charOffset]) && isDouble == (m.scratch.isDouble || HasPoint(str[i..charOffset]))
      {
        OneMore(str, i, charOffset);
        caseLen := caseLen + 1;
        if str[charOffset] == '.' || str[charOffset] == 'e' { isDouble := true; }
        charOffset := charOffset + 1;
      }
      pb := pb + str[caseStart..caseStart + caseLen];
    }

    /** The loop of the current state, if it has one. */
    method TightLoop(str: Text)
      requires Ok() && charOffset <= |str|
      modifies this`charOffset, this`pb, this`isDouble
      ensures Ok() && old(charOffset) <= charOffset <= |str| && stack[depth] == old(stack[depth])
      ensures var s := str[old(charOffset)..charOffset];
              NUL !in s && Feed(old(Machine()), s) == More(Machine())
    {
      ghost var m, i := Machine(), charOffset;
      hide Valid, Feed, AllSpaces, AllOrdinary, AllNumber, Gathered, Counted;
      if stack[depth].state == EatWs {
        SkipSpaces(str);
        FeedSpaces(m, str[i..charOffset]);
      } else if Gathers(stack[depth].state) {
        Gather(str);
        FeedGathered(m, str[i..charOffset]);
      } else if stack[depth].state == InNumber {
        GatherNumber(str);
        FeedCounted(m, str[i..charOffset]);
      } else {
        FeedNothing(m);
      }
    }

    /** So far the call comes to what it would come to from here. */
    ghost predicate Going(m0: Tok, str: Text)
      reads this, stack
    {
      Ok() && Valid(m0) && charOffset <= |str| &&
      Run(m0, str) == Shifted(Run(Machine(), str[charOffset..]), charOffset)
    }

    /** The call ends here, on the character c. */
    ghost predicate Ended(m0: Tok, str: Text, c: char)
      reads this, stack
    {
      Ok() && Valid(m0) && Run(m0, str) == Result(Machine(), AtStop(Machine(), c, err), charOffset)
    }

    /** A turn of the switch on the character at the offset. */
    method TakeTurn(str: Text, ghost m0: Tok) returns (c: char, out: bool)
      requires Going(m0, str) && charOffset < |str| && err == Success
      modifies this, stack
      ensures if out then Ended(m0, str, c) else Going(m0, str) && err == Success
      ensures out || charOffset == old(charOffset) + 1 ||
              (charOffset == old(charOffset) && Weight(stack[depth]) < old(Weight(stack[depth])))
    {
      hide Valid, Run, Turn, Weight;
      ghost var t, i := Machine(), charOffset;
      c := str[charOffset];
      TurnKeeps(t, c);
      RunTurn(m0, t, str, i);
      assert |str[i..]| > 0;
      var r := OneTurn(c);
      out := false;
      if r == Taken {
        charOffset := charOffset + 1;
        out := c == NUL;
      } else if r == Out {
        out := true;
      }
    }

    /** The loop of the state, and then, if characters are left, a turn. */
    method TakeSome(str: Text, ghost m0: Tok) returns (c: char, out: bool)
      requires Going(m0, str) && charOffset < |str| && err == Success
      modifies this, stack
      ensures if out then Ended(m0, str, c) else Going(m0, str) && err == Success
      ensures out || charOffset > old(charOffset) ||
              (charOffset == old(charOffset) && Weight(stack[depth]) < old(Weight(stack[depth])))
    {
      hide Valid, Run, Feed, Weight;
      ghost var t, i := Machine(), charOffset;
      TightLoop(str);
      RunLoop(m0, t, Machine(), str, i, charOffset);
      c, out := '\U{01}', false;
      if charOffset < |str| { c, out := TakeTurn(str, m0); }
    }

    /** json_tokener_parse_ex, for a text of the given length. */
    method ParseEx(str: Text) returns (obj: Json)
      requires Ok()
      modifies this, stack
      ensures Ok()
      ensures var r := Run(old(Machine()), str);
              Machine() == r.t && err == r.err && charOffset == r.offset && obj == r.Obj()
    {
      ghost var m0 := Machine();
      charOffset, err := 0, Success;
      var c, out := '\U{01}', false;
      assert str[0..] == str;
      hide Valid, Run, Weight;
      while charOffset < |str| && !out
        invariant if out then Ended(m0, str, c) else Going(m0, str) && err == Success
        decreases !out, |str| - charOffset, Weight(stack[depth])
      {
        c, out := TakeSome(str, m0);
      }
      if !out {
        RunEnds(Machine(), str);
        err := if depth == 0 && stack[depth].state == EatWs && stack[depth].saved == Finish then Success else Continue;
      } else if c == NUL && stack[depth].state != Finish && stack[depth].saved != Finish {
        err := ErrEof;
      }
      obj := if err == Success then stack[depth].current else JNull;
    }
  }

  // ---------- what the loops do to the machine ----------

  predicate AllSpaces(s: Text) { forall i :: 0 <= i < |s| ==> IsSpace(s[i]) }

  /** The states that gather characters. */
  predicate Gathers(st: St) { st in {InString, InField, Comment, CommentEol} }

  /** A character, other than NUL, that such a state only gathers. */
  predicate Ordinary(st: St, quote: char, c: char) {
    c != NUL &&
    if st == Comment then c != '*' else if st == CommentEol then c != '\n' else c != quote && c != '\\'
  }

  predicate AllOrdinary(t: Tok, s: Text) { forall i :: 0 <= i < |s| ==> Ordinary(t.top.state, t.scratch.quote, s[i]) }

  function Gathered(t: Tok, s: Text): Tok { t.(scratch := t.scratch.(pb := t.scratch.pb + s)) }

  predicate AllNumber(s: Text) { forall i :: 0 <= i < |s| ==> IsNumberChar(s[i]) }

  predicate HasPoint(s: Text) { exists i :: 0 <= i < |s| && (s[i] == '.' || s[i] == 'e') }

  lemma OneMore(str: Text, i: nat, j: nat)
    requires i <= j < |str| && AllNumber(str[i..j]) && IsNumberChar(str[j])
    ensures AllNumber(str[i..j + 1])
    ensures HasPoint(str[i..j + 1]) <==> HasPoint(str[i..j]) || str[j] == '.' || str[j] == 'e'
  {
    var s, u := str[i..j], str[i..j + 1];
    assert u == s + [str[j]];
    assert u[|s|] == str[j];
    if HasPoint(s) {
      var k :| 0 <= k < |s| && (s[k] == '.' || s[k] == 'e');
      assert u[k] == s[k];
    }
  }

  lemma NoNumber(str: Text, i: nat)
    requires i <= |str|
    ensures AllNumber(str[i..i]) && !HasPoint(str[i..i])
  {
  }

  function Counted(t: Tok, s: Text): Tok {
    t.(scratch := t.scratch.(pb := t.scratch.pb + s, isDouble := t.scratch.isDouble || HasPoint(s)))
  }

  lemma SpaceStep(t: Tok, c: char)
    requires Valid(t) && t.top.state == EatWs && IsSpace(c)
    ensures Step(t, c) == More(t) && c != NUL
  {
  }

  lemma {:induction false} FeedSpaces(t: Tok, s: Text)
    requires Valid(t) && t.top.state == EatWs && AllSpaces(s)
    ensures Feed(t, s) == More(t) && NUL !in s
    decreases |s|
  {
    if s != [] {
      SpaceStep(t, s[0]);
      hide Step, Valid;
      FeedSpaces(t, s[1..]);
    }
  }

  lemma GatherStep(t: Tok, c: char)
    requires Valid(t) && Gathers(t.top.state) && Ordinary(t.top.state, t.scratch.quote, c)
    ensures Step(t, c) == More(Append(t, c)) && Valid(Append(t, c))
  {
    hide CString;
  }

  lemma {:induction false} FeedGathered(t: Tok, s: Text)
    requires Valid(t) && Gathers(t.top.state) && AllOrdinary(t, s)
    ensures Valid(Gathered(t, s)) && Feed(t, s) == More(Gathered(t, s)) && NUL !in s
    decreases |s|
  {
    if s == [] {
      assert t.scratch.pb + s == t.scratch.pb;
    } else {
      GatherStep(t, s[0]);
      var u := Append(t, s[0]);
      assert u.top == t.top && u.scratch.quote == t.scratch.quote;
      GatheredTwice(t, s);
      assert AllOrdinary(u, s[1..]);
      hide *;
      FeedGathered(u, s[1..]);
      FeedFirst(t, s);
    }
  }

  lemma GatheredTwice(t: Tok, s: Text)
    requires s != []
    ensures Gathered(Append(t, s[0]), s[1..]) == Gathered(t, s)
    ensures Ordinary(t.top.state, t.scratch.quote, s[0]) ==> s[0] != NUL
  {
    Rejoin(t.scratch.pb, s);
  }

  lemma CountStep(t: Tok, c: char)
    requires Valid(t) && t.top.state == InNumber && IsNumberChar(c)
    ensures Step(t, c) == More(Counted(t, [c])) && Valid(Counted(t, [c])) && c != NUL
  {
    assert HasPoint([c]) <==> c == '.' || c == 'e' by { assert [c][0] == c; }
    hide ScanInt, ScansDouble;
  }

  lemma {:induction false} FeedCounted(t: Tok, s: Text)
    requires Valid(t) && t.top.state == InNumber && AllNumber(s)
    ensures Valid(Counted(t, s)) && Feed(t, s) == More(Counted(t, s)) && NUL !in s
    decreases |s|
  {
    if s == [] {
      CountNothing(t);
    } else {
      hide *;
      FirstNumber(s);
      CountStep(t, s[0]);
      CountedTwice(t, s);
      FeedCounted(Counted(t, [s[0]]), s[1..]);
      FeedFirst(t, s);
    }
  }

  lemma FirstNumber(s: Text)
    requires s != [] && AllNumber(s)
    ensures IsNumberChar(s[0]) && AllNumber(s[1..])
  {
    hide IsNumberChar;
  }

  lemma CountedTwice(t: Tok, s: Text)
    requires s != []
    ensures Counted(Counted(t, [s[0]]), s[1..]) == Counted(t, s) && Counted(t, [s[0]]).top == t.top
  {
    PointFirst(s);
    hide HasPoint;
    Rejoin(t.scratch.pb, s);
  }

  lemma CountNothing(t: Tok)
    ensures Counted(t, []) == t
  {
    assert t.scratch.pb + [] == t.scratch.pb;
  }

  lemma PointFirst(s: Text)
    requires s != []
    ensures HasPoint(s) <==> HasPoint([s[0]]) || HasPoint(s[1..])
  {
    if HasPoint(s) {
      var i :| 0 <= i < |s| && (s[i] == '.' || s[i] == 'e');
      if i > 0 { assert s[1..][i - 1] == s[i]; } else { assert [s[0]][0] == s[0]; }
    }
    if HasPoint(s[1..]) {
      var i :| 0 <= i < |s[1..]| && (s[1..][i] == '.' || s[1..][i] == 'e');
      assert s[i + 1] == s[1..][i];
    }
    if HasPoint([s[0]]) { assert [s[0]][0] == s[0]; }
  }

  /** A loop does not change what the call comes to. */
  lemma RunLoop(m0: Tok, t: Tok, u: Tok, str: Text, i: nat, j: nat)
    requires Valid(m0) && Valid(t) && i <= j <= |str| && NUL !in str[i..j] && Feed(t, str[i..j]) == More(u)
    requires Run(m0, str) == Shifted(Run(t, str[i..]), i)
    ensures Run(m0, str) == Shifted(Run(u, str[j..]), j)
  {
    hide Valid, Feed, Run;
    var a, b := str[i..j], str[j..];
    assert a + b == str[i..];
    RunAfterFeed(t, a, b);
  }

  /** What the call comes to after one turn. */
  lemma RunTurn(m0: Tok, t: Tok, str: Text, i: nat)
    requires Valid(m0) && Valid(t) && i < |str| && Run(m0, str) == Shifted(Run(t, str[i..]), i)
    ensures var o := Turn(t, str[i]);
            Valid(o.t) &&
            (o.Redo? ==> Run(m0, str) == Shifted(Run(o.t, str[i..]), i)) &&
            (o.More? && str[i] != NUL ==> Run(m0, str) == Shifted(Run(o.t, str[i + 1..]), i + 1)) &&
            (o.More? && str[i] == NUL ==> Run(m0, str) == Result(o.t, AtStop(o.t, NUL, Success), i + 1)) &&
            (o.Halt? ==> Run(m0, str) == Result(o.t, AtStop(o.t, str[i], o.err), i))
  {
    hide Valid, Step, Turn, AtStop, Run;
    var s := str[i..];
    assert s[0] == str[i] && s[1..] == str[i + 1..];
    RunFirst(t, s);
  }

  lemma RunFirst(t: Tok, s: Text)
    requires Valid(t) && s != []
    ensures var o := Turn(t, s[0]);
            Valid(o.t) &&
            (o.Redo? ==> Run(t, s) == Run(o.t, s)) &&
            (o.More? && s[0] != NUL ==> Run(t, s) == Shifted(Run(o.t, s[1..]), 1)) &&
            (o.More? && s[0] == NUL ==> Run(t, s) == Result(o.t, AtStop(o.t, NUL, Success), 1)) &&
            (o.Halt? ==> Run(t, s) == Result(o.t, AtStop(o.t, s[0], o.err), 0))
  {
    StepTurn(t, s[0]);
    hide Valid, Step, Turn, AtStop;
    RunOnce(t, s);
    if Turn(t, s[0]).Redo? { RunOnce(Turn(t, s[0]).t, s); }
    hide Run;
  }

  lemma RunOnce(t: Tok, s: Text)
    requires Valid(t) && s != []
    ensures var o := Step(t, s[0]);
            Run(t, s) ==
              if o.Halt? then Result(o.t, AtStop(o.t, s[0], o.err), 0)
              else if s[0] == NUL then Result(o.t, AtStop(o.t, NUL, Success), 1)
              else Shifted(Run(o.t, s[1..]), 1)
  {
    hide Valid, Step, AtStop;
  }

  lemma StepTurn(t: Tok, c: char)
    requires Valid(t)
    ensures Valid(Turn(t, c).t) && Step(t, c) == if Turn(t, c).Redo? then Step(Turn(t, c).t, c) else Turn(t, c)
  {
    TurnKeeps(t, c);
  }

  lemma RunEnds(t: Tok, str: Text)
    requires Valid(t)
    ensures Run(t, str[|str|..]) == Result(t, AtEnd(t), 0)
  {
  }
}
