/** The printers of json-c, which append to a buffer (json_object.c). */
module JsonPrinter {
  import opened Json
  import opened JsonRoundTrip
  import opened JsonValues

  /** printbuf: what has been appended so far. */
  class PrintBuf {
    var buf: Text

    constructor ()
      ensures buf == []
    {
      buf := [];
    }

    method Append(s: Text)
      modifies this
      ensures buf == old(buf) + s
    {
      buf := buf + s;
    }
  }

  lemma {:induction false} EscapeSnoc(s: Text, c: char)
    ensures Escape(s + [c]) == Escape(s) + EscapeChar(c)
    decreases |s|
  {
    if s == [] {
      assert [c][1..] == [];
    } else {
      assert (s + [c])[0] == s[0] && (s + [c])[1..] == s[1..] + [c];
      EscapeSnoc(s[1..], c);
      hide EscapeChar;
      assert EscapeChar(s[0]) + (Escape(s[1..]) + EscapeChar(c)) == EscapeChar(s[0]) + Escape(s[1..]) + EscapeChar(c);
    }
  }

  /** A character that is printed as it is. */
  predicate Unescaped(c: char) {
    c !in {'\U{08}', '\n', '\r', '\t', '"', '\\', '/'} && c >= ' '
  }

  /** The escape of one character. */
  method AppendEscape(pb: PrintBuf, c: char)
    requires !Unescaped(c)
    modifies pb
    ensures pb.buf == old(pb.buf) + EscapeChar(c)
  {
    if c == '\U{08}' { pb.Append("\\b"); }
    else if c == '\n' { pb.Append("\\n"); }
    else if c == '\r' { pb.Append("\\r"); }
    else if c == '\t' { pb.Append("\\t"); }
    else if c == '"' { pb.Append("\\\""); }
    else if c == '\\' { pb.Append("\\\\"); }
    else if c == '/' { pb.Append("\\/"); }
    else { pb.Append("\\u00" + [Hex(c as int / 16), Hex(c as int % 16)]); }
  }

  /** json_escape_str: what needs no escape is appended in pieces, from startOffset on. */
  method EscapeStr(pb: PrintBuf, str: Text)
    modifies pb
    ensures pb.buf == old(pb.buf) + Escape(str)
  {
    ghost var was := pb.buf;
    var pos, startOffset := 0, 0;
    hide EscapeChar, Unescaped;
    while pos < |str|
      invariant startOffset <= pos <= |str| && pb.buf + str[startOffset..pos] == was + Escape(str[..pos])
    {
      var c := str[pos];
      EscapeSnoc(str[..pos], c);
      assert str[..pos] + [c] == str[..pos + 1];
      hide Escape;
      if Unescaped(c) {
        ItselfEscaped(c);
        Extend(pb.buf, str, startOffset, pos, was + Escape(str[..pos]));
        Join(was, Escape(str[..pos]), [c]);
        pos := pos + 1;
      } else {
        Flush(pb, str, startOffset, pos);
        Join(was, Escape(str[..pos]), EscapeChar(c));
        AppendEscape(pb, c);
        pos := pos + 1;
        startOffset := pos;
      }
    }
    Flush(pb, str, startOffset, pos);
    assert str[..pos] == str;
  }

  lemma Join(a: Text, b: Text, c: Text)
    ensures a + b + c == a + (b + c)
  {
  }

  /** The characters that have not been appended yet. */
  method Flush(pb: PrintBuf, str: Text, start: nat, pos: nat)
    requires start <= pos <= |str|
    modifies pb
    ensures pb.buf == old(pb.buf) + str[start..pos]
  {
    if pos > start { pb.Append(str[start..pos]); }
  }

  lemma ItselfEscaped(c: char)
    requires Unescaped(c)
    ensures EscapeChar(c) == [c]
  {
  }

  lemma Extend(buf: Text, str: Text, start: nat, pos: nat, whole: Text)
    requires start <= pos < |str| && buf + str[start..pos] == whole
    ensures buf + str[start..pos + 1] == whole + [str[pos]]
  {
    assert str[start..pos + 1] == str[start..pos] + [str[pos]];
  }

  // ---------- values ----------

  /** What is still to be printed of an array when n of its items have been. */
  function RestOfItems(v: Json, n: nat): Text
    requires Plain(v) && v.JArray? && n <= |v.items|
  {
    if n == |v.items| then " ]" else (if n > 0 then ", " else " ") + PrintItems(v, n)
  }

  function RestOfFields(v: Json, n: nat): Text
    requires Plain(v) && v.JObject? && n <= |v.fields|
  {
    if n == |v.fields| then " }" else (if n > 0 then "," else "") + PrintFields(v, n)
  }

  lemma NextItem(v: Json, n: nat)
    requires Plain(v) && v.JArray? && n < |v.items|
    ensures RestOfItems(v, n) == (if n > 0 then ", " else " ") + Print(v.items[n]) + RestOfItems(v, n + 1)
  {
    PrintItem(v, n);
    hide Print;
    if n + 1 < |v.items| {
      var p, r := Print(v.items[n]), PrintItems(v, n + 1);
      assert (if n > 0 then ", " else " ") + ((p + [',']) + ([' '] + r)) == (if n > 0 then ", " else " ") + p + (", " + r);
    }
  }

  lemma NextField(v: Json, n: nat)
    requires Plain(v) && v.JObject? && n < |v.fields|
    ensures RestOfFields(v, n) ==
              (if n > 0 then "," else "") + (" \"" + Escape(v.fields[n].0) + "\": ") + Print(v.fields[n].1) +
              RestOfFields(v, n + 1)
  {
    PrintField(v, n);
    var c, k, p := if n > 0 then "," else "", " \"" + Escape(v.fields[n].0) + "\": ", Print(v.fields[n].1);
    hide Print, Escape, PrintFields;
    if n + 1 < |v.fields| {
      Comma(c, k, p, PrintFields(v, n + 1));
    } else {
      Attach(c, k, p, " }");
    }
  }

  lemma Comma(c: Text, k: Text, p: Text, r: Text)
    ensures c + (k + ((p + [',']) + r)) == c + k + p + ("," + r)
  {
  }

  lemma Attach(c: Text, k: Text, p: Text, rest: Text)
    ensures c + (k + (p + rest)) == c + k + p + rest && c + (k + p + rest) == c + k + p + rest
  {
  }

  lemma WholeArray(v: Json)
    requires Plain(v) && v.JArray?
    ensures Print(v) == "[" + RestOfItems(v, 0)
  {
    if v.items != [] { assert "[" + (" " + PrintItems(v, 0)) == "[ " + PrintItems(v, 0); }
  }

  lemma WholeObject(v: Json)
    requires Plain(v) && v.JObject?
    ensures Print(v) == "{" + RestOfFields(v, 0)
  {
  }

  /** json_object_array_to_json_string */
  method PrintArrayTo(pb: PrintBuf, v: Json)
    requires Plain(v) && v.JArray?
    modifies pb
    ensures pb.buf == old(pb.buf) + Print(v)
    decreases v, 0
  {
    ghost var whole := pb.buf + Print(v);
    WholeArray(v);
    hide Print, RestOfItems;
    Join(pb.buf, "[", RestOfItems(v, 0));
    pb.Append("[");
    var i := 0;
    while i < |v.items|
      invariant 0 <= i <= |v.items| && pb.buf + RestOfItems(v, i) == whole
    {
      NextItem(v, i);
      Attach(pb.buf, if i > 0 then ", " else " ", Print(v.items[i]), RestOfItems(v, i + 1));
      pb.Append(if i > 0 then ", " else " ");
      PrintTo(pb, v.items[i]);
      i := i + 1;
    }
    LastItem(v);
    pb.Append(" ]");
  }

  lemma LastItem(v: Json)
    requires Plain(v)
    ensures v.JArray? ==> RestOfItems(v, |v.items|) == " ]"
    ensures v.JObject? ==> RestOfFields(v, |v.fields|) == " }"
  {
  }

  /** json_object_object_to_json_string: the fields in their order. */
  method PrintObjectTo(pb: PrintBuf, v: Json)
    requires Plain(v) && v.JObject?
    modifies pb
    ensures pb.buf == old(pb.buf) + Print(v)
    decreases v, 0
  {
    ghost var whole := pb.buf + Print(v);
    WholeObject(v);
    hide Print, RestOfFields, Escape;
    Join(pb.buf, "{", RestOfFields(v, 0));
    pb.Append("{");
    var i := 0;
    while i < |v.fields|
      invariant 0 <= i <= |v.fields| && pb.buf + RestOfFields(v, i) == whole
    {
      NextField(v, i);
      ghost var now, c, k := pb.buf, if i > 0 then "," else "", " \"" + Escape(v.fields[i].0) + "\": ";
      Attach(now + c, k, Print(v.fields[i].1), RestOfFields(v, i + 1));
      Join4(now, c, k, Print(v.fields[i].1), RestOfFields(v, i + 1));
      if i > 0 { pb.Append(","); }
      assert pb.buf == now + c;
      PrintKeyTo(pb, v.fields[i].0);
      PrintTo(pb, v.fields[i].1);
      i := i + 1;
    }
    LastItem(v);
    pb.Append(" }");
  }

  lemma Join4(now: Text, c: Text, k: Text, p: Text, rest: Text)
    ensures now + (c + k + p + rest) == now + c + k + p + rest
  {
  }

  /** A key, its quotes and the colon. */
  method PrintKeyTo(pb: PrintBuf, key: Text)
    modifies pb
    ensures pb.buf == old(pb.buf) + (" \"" + Escape(key) + "\": ")
  {
    hide Escape;
    Quoted(pb.buf, " \"", Escape(key), "\": ");
    pb.Append(" \"");
    EscapeStr(pb, key);
    pb.Append("\": ");
  }

  lemma Quoted(now: Text, a: Text, e: Text, b: Text)
    ensures now + (a + e + b) == now + a + e + b
  {
  }

  /** json_object_string_to_json_string */
  method PrintStringTo(pb: PrintBuf, s: Text)
    modifies pb
    ensures pb.buf == old(pb.buf) + ("\"" + Escape(s) + "\"")
  {
    hide Escape;
    Quoted(pb.buf, "\"", Escape(s), "\"");
    pb.Append("\"");
    EscapeStr(pb, s);
    pb.Append("\"");
  }

  /** The printer of the value's type. */
  method PrintTo(pb: PrintBuf, v: Json)
    requires Plain(v)
    modifies pb
    ensures pb.buf == old(pb.buf) + Print(v)
    decreases v, 1
  {
    match v
    case JNull => pb.Append("null");
    case JBool(b) => pb.Append(if b then "true" else "false");
    case JInt(i) => pb.Append(Decimal(i));
    case JString(s) => PrintStringTo(pb, s);
    case JArray(_) => PrintArrayTo(pb, v);
    case JObject(_) => PrintObjectTo(pb, v);
  }
}
