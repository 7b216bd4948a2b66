/**
 The text that encode_value gives a finite tree of Lua values (JSON.lua), with the
 compact, pretty and array_newline layouts; align_keys is off.
 */
module JsonPrinter {
  import opened LuaText
  import opened Utf8
  import opened JsonGrammar

  datatype EncodeOptions = EncodeOptions(pretty: bool, arrayNewline: bool, indent: Bytes, stringsAreUtf8: bool,
                                         placeholder: Bytes)

  /**
   A Lua value with its tables unfolded. The entries of an object are in output order;
   TNull is a hole of an array.
   */
  datatype Tree =
    | TNull
    | TBool(b: bool)
    | TNum(lexeme: Bytes)
    | TStr(s: Bytes)
    | TArr(items: seq<Tree>)
    | TObj(entries: seq<Entry>)

  datatype Entry = Entry(key: Bytes, value: Tree)

  // ---- strings

  function HexDigit(d: nat): (c: char)
    requires d < 16
    ensures IsHex(c) && HexValue(c) == d
  {
    "0123456789abcdef"[d]
  }

  // %04x
  function Hex4(u: nat): (h: Bytes)
    requires u < 0x10000
    ensures IsHex4(h) && Hex4Value(h) == u
  {
    var d3, d2, d1, d0 := u / 0x1000, u / 0x100 % 0x10, u / 0x10 % 0x10, u % 0x10;
    assert u == d3 * 0x1000 + d2 * 0x100 + d1 * 0x10 + d0;
    [HexDigit(d3), HexDigit(d2), HexDigit(d1), HexDigit(d0)]
  }

  // backslash_replacement_function; the source leaves '/' as it is
  function BackslashReplacement(c: char): Bytes
    requires c as int < 0x20 || c == '"' || c == '\\' || c == '/'
  {
    if c == '\n' then "\\n"
    else if c == '\r' then "\\r"
    else if c == '\t' then "\\t"
    else if c as int == 8 then "\\b"
    else if c as int == 12 then "\\f"
    else if c == '"' then "\\\""
    else if c == '\\' then "\\\\"
    else if c == '/' then "/"
    else "\\u" + Hex4(c as int)
  }

  // gsub(chars_to_be_escaped_in_JSON_string, backslash_replacement_function)
  function EscapeBytes(s: Bytes): Bytes {
    if s == "" then ""
    else
      var c := s[0];
      (if c == '"' || c == '\\' || c == '/' || c as int < 0x20 then BackslashReplacement(c) else [c])
      + EscapeBytes(s[1..])
  }

  // gsub of a plain pattern
  function ReplaceAll(s: Bytes, pattern: Bytes, replacement: Bytes): Bytes
    requires pattern != ""
    decreases |s|
  {
    if s == "" then ""
    else if At(s, 0, pattern) then replacement + ReplaceAll(s[|pattern|..], pattern, replacement)
    else [s[0]] + ReplaceAll(s[1..], pattern, replacement)
  }

  // The UTF-8 forms of U+2028 and U+2029.
  const LINE_SEPARATOR: Bytes := [0xE2 as char, 0x80 as char, 0xA8 as char]
  const PARAGRAPH_SEPARATOR: Bytes := [0xE2 as char, 0x80 as char, 0xA9 as char]

  function LiteralContents(s: Bytes, stringsAreUtf8: bool): Bytes {
    var escaped := EscapeBytes(s);
    if stringsAreUtf8 then
      ReplaceAll(ReplaceAll(escaped, LINE_SEPARATOR, "\\u2028"), PARAGRAPH_SEPARATOR, "\\u2029")
    else escaped
  }

  // json_string_literal
  function StringLiteral(s: Bytes, stringsAreUtf8: bool): Bytes {
    "\"" + LiteralContents(s, stringsAreUtf8) + "\""
  }

  // ---- values

  // table.concat
  function Concat(parts: seq<Bytes>, sep: Bytes): Bytes {
    if parts == [] then ""
    else if |parts| == 1 then parts[0]
    else parts[0] + sep + Concat(parts[1..], sep)
  }

  function ArrayIndent(o: EncodeOptions, indent: Bytes): Bytes {
    if o.arrayNewline then indent + o.indent else indent
  }

  function EntryIndent(o: EncodeOptions, indent: Bytes): Bytes {
    if o.pretty then indent + o.indent else indent
  }

  function ArrayText(items: seq<Bytes>, o: EncodeOptions, indent: Bytes): Bytes {
    var keyIndent := ArrayIndent(o, indent);
    if o.arrayNewline then "[\n" + keyIndent + Concat(items, ",\n" + keyIndent) + "\n" + indent + "]"
    else if o.pretty then "[ " + Concat(items, ", ") + " ]"
    else "[" + Concat(items, ",") + "]"
  }

  function EntryText(key: Bytes, val: Bytes, o: EncodeOptions, indent: Bytes): Bytes {
    if o.pretty then EntryIndent(o, indent) + key + ": " + val else key + ":" + val
  }

  function ObjectText(parts: seq<Bytes>, o: EncodeOptions, indent: Bytes): Bytes {
    if o.pretty then "{\n" + Concat(parts, ",\n") + "\n" + indent + "}"
    else "{" + Concat(parts, ",") + "}"
  }

  function Print(v: Tree, o: EncodeOptions, indent: Bytes): Bytes
    decreases v, 0
  {
    match v
    case TNull => "null"
    case TBool(b) => if b then "true" else "false"
    case TNum(lexeme) => lexeme
    case TStr(s) => if s == o.placeholder then "null" else StringLiteral(s, o.stringsAreUtf8)
    case TArr(items) => if items == [] then "[]" else ArrayText(PrintItems(items, o, ArrayIndent(o, indent)), o, indent)
    case TObj(entries) => ObjectText(PrintEntries(entries, o, indent), o, indent)
  }

  function PrintItems(items: seq<Tree>, o: EncodeOptions, indent: Bytes): (parts: seq<Bytes>)
    ensures |parts| == |items|
    decreases items, 1
  {
    if items == [] then [] else [Print(items[0], o, indent)] + PrintItems(items[1..], o, indent)
  }

  function PrintEntries(entries: seq<Entry>, o: EncodeOptions, indent: Bytes): (parts: seq<Bytes>)
    ensures |parts| == |entries|
    decreases entries, 1
  {
    if entries == [] then []
    else
      var val := Print(entries[0].value, o, EntryIndent(o, indent));
      var key := StringLiteral(entries[0].key, o.stringsAreUtf8);
      [EntryText(key, val, o, indent)] + PrintEntries(entries[1..], o, indent)
  }

  // ---- what a tree means as a decoded value

  function Erase(v: Tree, placeholder: Bytes): Value
    decreases v, 0
  {
    match v
    case TNull => Str(placeholder)
    case TBool(b) => Bool(b)
    case TNum(lexeme) => Num(lexeme)
    case TStr(s) => Str(s)
    case TArr(items) => Arr(EraseItems(items, placeholder))
    case TObj(entries) => Obj(EraseEntries(entries, placeholder, map[]))
  }

  function EraseItems(items: seq<Tree>, placeholder: Bytes): (r: seq<Value>)
    ensures |r| == |items|
    decreases items, 1
  {
    if items == [] then [] else [Erase(items[0], placeholder)] + EraseItems(items[1..], placeholder)
  }

  function EraseEntries(entries: seq<Entry>, placeholder: Bytes, before: map<Bytes, Value>): map<Bytes, Value>
    decreases entries, 1
  {
    if entries == [] then before
    else EraseEntries(entries[1..], placeholder, before[entries[0].key := Erase(entries[0].value, placeholder)])
  }

  // ---- trees that can be written as JSON: strings of whole groups, numbers with a valid lexeme

  predicate IsGrouped(s: Bytes) {
    s == "" ||
    (var n := ByteCount(s[0]); 0 < n <= |s| && IsGroup(s[..n]) && IsGrouped(s[n..]))
  }

  ghost predicate Writable(v: Tree)
    decreases v, 0
  {
    match v
    case TNum(lexeme) => IsNumber(lexeme)
    case TStr(s) => IsGrouped(s)
    case TArr(items) => WritableItems(items)
    case TObj(entries) => WritableEntries(entries)
    case _ => true
  }

  ghost predicate WritableItems(items: seq<Tree>)
    decreases items, 1
  {
    items == [] || (Writable(items[0]) && WritableItems(items[1..]))
  }

  ghost predicate WritableEntries(entries: seq<Entry>)
    decreases entries, 1
  {
    entries == [] || (IsGrouped(entries[0].key) && Writable(entries[0].value) && WritableEntries(entries[1..]))
  }
}
