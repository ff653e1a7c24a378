/** JSON values and their text, as json-c prints it (json_object.c). */
module Json {

  /** A character stands for a byte of a C string. */
  type Text = seq<char>

  const NUL := '\0'

  /** A value; of a double only the text is kept. */
  datatype Json =
    | JNull
    | JBool(b: bool)
    | JInt(i: int)
    | JDouble(text: Text)
    | JString(s: Text)
    | JArray(items: seq<Json>)
    | JObject(fields: seq<(Text, Json)>)

  // ---------- fields in order of insertion ----------

  /** The entries of a hash table, without that of the key. */
  function Without(fields: seq<(Text, Json)>, key: Text): (r: seq<(Text, Json)>) {
    if fields == [] then []
    else if fields[0].0 == key then fields[1..]
    else [fields[0]] + Without(fields[1..], key)
  }

  /** json_object_object_add: an entry of the key goes, the new one comes last. */
  function Put(fields: seq<(Text, Json)>, key: Text, v: Json): (r: seq<(Text, Json)>) {
    Without(fields, key) + [(key, v)]
  }

  // ---------- the text of strings ----------

  function Hex(n: nat): (c: char)
    requires n < 16
  {
    if n < 10 then '0' + n as char else 'a' + (n - 10) as char
  }

  /** json_escape_str, one character. */
  function EscapeChar(c: char): (t: Text)
    ensures t != []
  {
    if c == '\U{08}' then "\\b"
    else if c == '\n' then "\\n"
    else if c == '\r' then "\\r"
    else if c == '\t' then "\\t"
    else if c == '"' then "\\\""
    else if c == '\\' then "\\\\"
    else if c == '/' then "\\/"
    else if c < ' ' then "\\u00" + [Hex(c as int / 16), Hex(c as int % 16)]
    else [c]
  }

  function Escape(s: Text): (t: Text) {
    if s == [] then [] else EscapeChar(s[0]) + Escape(s[1..])
  }

  // ---------- the text of numbers ----------

  function Digit(n: nat): (c: char)
    requires n < 10
  {
    '0' + n as char
  }

  /** The decimal digits of a number. */
  function Digits(n: nat): (t: Text)
    ensures t != []
  {
    if n < 10 then [Digit(n)] else Digits(n / 10) + [Digit(n % 10)]
  }

  /** %d */
  function Decimal(i: int): (t: Text)
    ensures t != []
  {
    if i < 0 then "-" + Digits(-i) else Digits(i)
  }

  // ---------- the text of values ----------

  /** No doubles anywhere. */
  predicate Plain(v: Json) {
    match v
    case JDouble(_) => false
    case JArray(items) => forall i :: 0 <= i < |items| ==> Plain(items[i])
    case JObject(fields) => forall i :: 0 <= i < |fields| ==> Plain(fields[i].1)
    case _ => true
  }

  function Print(v: Json): (t: Text)
    requires Plain(v)
    decreases v
  {
    match v
    case JNull => "null"
    case JBool(b) => if b then "true" else "false"
    case JInt(i) => Decimal(i)
    case JString(s) => "\"" + Escape(s) + "\""
    case JArray(items) => if items == [] then "[ ]" else "[ " + PrintItems(v, 0)
    case JObject(fields) => if fields == [] then "{ }" else "{" + PrintFields(v, 0)
  }

  /** The items of an array from the n-th on, and its end. */
  function PrintItems(v: Json, n: nat): (t: Text)
    requires Plain(v) && v.JArray? && n < |v.items|
    decreases v, |v.items| - n
  {
    Print(v.items[n]) + if n + 1 < |v.items| then ", " + PrintItems(v, n + 1) else " ]"
  }

  /** The fields of an object from the n-th on, and its end. */
  function PrintFields(v: Json, n: nat): (t: Text)
    requires Plain(v) && v.JObject? && n < |v.fields|
    decreases v, |v.fields| - n
  {
    " \"" + Escape(v.fields[n].0) + "\": " + Print(v.fields[n].1) +
    if n + 1 < |v.fields| then "," + PrintFields(v, n + 1) else " }"
  }
}
