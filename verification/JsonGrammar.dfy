/**
 The JSON grammar of RFC 8259 (sections 2 to 7) as concrete syntax trees: a tree records
 every byte of a text, whitespace included, Flatten gives the text back, and Denote gives
 the value the text stands for. Nothing here refers to a parsing algorithm.
 String contents are only required to be lead/continuation groups.
 */
module JsonGrammar {
  import opened Optional
  import opened LuaText
  import opened Utf8

  /**
   A decoded value. Numbers are number objects, which keep their lexeme; arrays and objects
   are distinct types; null is the caller's placeholder string.
   */
  datatype Value =
    | Bool(b: bool)
    | Num(lexeme: Bytes)
    | Str(s: Bytes)
    | Arr(items: seq<Value>)
    | Obj(members: map<Bytes, Value>)

  // One character of a string: raw, a two-character escape, or \u with four hex digits.
  datatype StringItem = Raw(group: Bytes) | Esc(letter: char) | Uni(hex: Bytes)

  datatype Syntax =
    | STrue
    | SFalse
    | SNull
    | SNum(whole: Bytes, frac: Bytes, exp: Bytes)
    | SStr(items: seq<StringItem>)
    | SEmptyArr(ws: Bytes)
    | SArr(elements: Elements)
    | SEmptyObj(ws: Bytes)
    | SObj(members: Members)

  // value *( value-separator value ) end-array, with the whitespace around each value.
  datatype Elements =
    | LastElement(before: Bytes, v: Syntax, after: Bytes)
    | Element(before: Bytes, v: Syntax, after: Bytes, rest: Elements)

  // member *( value-separator member ) end-object.
  datatype Members =
    | LastMember(before: Bytes, key: seq<StringItem>, preColon: Bytes, postColon: Bytes, v: Syntax, after: Bytes)
    | Member(before: Bytes, key: seq<StringItem>, preColon: Bytes, postColon: Bytes, v: Syntax, after: Bytes,
             rest: Members)

  // ---- numbers (section 6)

  predicate IsDigits(s: Bytes) {
    forall k :: 0 <= k < |s| ==> IsDigit(s[k])
  }

  // int = [ minus ] ( zero / ( digit1-9 *DIGIT ) )
  predicate IsInt(s: Bytes) {
    var u := if |s| > 0 && s[0] == '-' then s[1..] else s;
    u == "0" || (|u| > 0 && IsDigits(u) && u[0] != '0')
  }

  // [ frac ]
  predicate IsFrac(s: Bytes) {
    s == "" || (|s| >= 2 && s[0] == '.' && IsDigits(s[1..]))
  }

  // [ exp ]
  predicate IsExp(s: Bytes) {
    s == "" ||
    (|s| >= 2 && (s[0] == 'e' || s[0] == 'E') &&
     var u := if s[1] == '-' || s[1] == '+' then s[2..] else s[1..];
     |u| > 0 && IsDigits(u))
  }

  predicate SplitsNumber(lexeme: Bytes, i: nat, j: nat) {
    i <= j <= |lexeme| && IsInt(lexeme[..i]) && IsFrac(lexeme[i..j]) && IsExp(lexeme[j..])
  }

  ghost predicate IsNumber(lexeme: Bytes) {
    exists i: nat, j: nat :: SplitsNumber(lexeme, i, j)
  }

  // ---- strings (section 7)

  function SimpleEscape(c: char): Option<char> {
    if c == '"' then Some('"')
    else if c == '/' then Some('/')
    else if c == '\\' then Some('\\')
    else if c == 'b' then Some(8 as char)
    else if c == 'f' then Some(12 as char)
    else if c == 'n' then Some('\n')
    else if c == 'r' then Some('\r')
    else if c == 't' then Some('\t')
    else None
  }

  predicate ItemOk(item: StringItem) {
    match item
    case Raw(g) => IsGroup(g) && (|g| == 1 ==> g[0] as int >= 0x20 && g[0] != '"' && g[0] != '\\')
    case Esc(c) => SimpleEscape(c).Some?
    case Uni(h) => IsHex4(h)
  }

  predicate ItemsOk(items: seq<StringItem>) {
    forall k :: 0 <= k < |items| ==> ItemOk(items[k])
  }

  function FlattenItem(item: StringItem): Bytes {
    match item
    case Raw(g) => g
    case Esc(c) => ['\\', c]
    case Uni(h) => "\\u" + h
  }

  function FlattenItems(items: seq<StringItem>): Bytes {
    if items == [] then "" else FlattenItem(items[0]) + FlattenItems(items[1..])
  }

  predicate IsHigh(cp: nat) {
    0xD800 <= cp <= 0xDBFF
  }

  predicate IsLow(cp: nat) {
    0xDC00 <= cp <= 0xDFFF
  }

  // The scalar a UTF-16 surrogate pair stands for.
  function Paired(high: nat, low: nat): (cp: nat)
    requires IsHigh(high) && IsLow(low)
    ensures 0x10000 <= cp <= 0x10FFFF
  {
    0x10000 + (high - 0xD800) * 0x400 + (low - 0xDC00)
  }

  predicate StartsPair(items: seq<StringItem>)
    requires ItemsOk(items)
  {
    |items| >= 2 && items[0].Uni? && items[1].Uni? && IsHigh(Hex4Value(items[0].hex)) && IsLow(Hex4Value(items[1].hex))
  }

  function DenoteItem(item: StringItem): Bytes
    requires ItemOk(item)
  {
    match item
    case Raw(g) => g
    case Esc(c) => [SimpleEscape(c).value]
    case Uni(h) => CodepointAsUtf8(Hex4Value(h))
  }

  function DenoteItems(items: seq<StringItem>): Bytes
    requires ItemsOk(items)
  {
    if items == [] then ""
    else if StartsPair(items) then
      CodepointAsUtf8(Paired(Hex4Value(items[0].hex), Hex4Value(items[1].hex))) + DenoteItems(items[2..])
    else DenoteItem(items[0]) + DenoteItems(items[1..])
  }

  // ---- values, arrays and objects (sections 3 to 5)

  predicate Ok(c: Syntax) {
    match c
    case SNum(whole, frac, exp) => IsInt(whole) && IsFrac(frac) && IsExp(exp)
    case SStr(items) => ItemsOk(items)
    case SEmptyArr(ws) => IsBlank(ws)
    case SArr(es) => ElementsOk(es)
    case SEmptyObj(ws) => IsBlank(ws)
    case SObj(ms) => MembersOk(ms)
    case _ => true
  }

  predicate ElementsOk(es: Elements) {
    IsBlank(es.before) && Ok(es.v) && IsBlank(es.after) && (es.Element? ==> ElementsOk(es.rest))
  }

  predicate MembersOk(ms: Members) {
    && IsBlank(ms.before) && ItemsOk(ms.key) && IsBlank(ms.preColon) && IsBlank(ms.postColon)
    && Ok(ms.v) && IsBlank(ms.after) && (ms.Member? ==> MembersOk(ms.rest))
  }

  function Quoted(items: seq<StringItem>): Bytes {
    "\"" + FlattenItems(items) + "\""
  }

  function Flatten(c: Syntax): Bytes {
    match c
    case STrue => "true"
    case SFalse => "false"
    case SNull => "null"
    case SNum(whole, frac, exp) => whole + frac + exp
    case SStr(items) => Quoted(items)
    case SEmptyArr(ws) => "[" + ws + "]"
    case SArr(es) => "[" + FlattenElements(es)
    case SEmptyObj(ws) => "{" + ws + "}"
    case SObj(ms) => "{" + FlattenMembers(ms)
  }

  function FlattenElements(es: Elements): Bytes {
    es.before + Flatten(es.v) + es.after + (if es.Element? then "," + FlattenElements(es.rest) else "]")
  }

  function FlattenMembers(ms: Members): Bytes {
    ms.before + Quoted(ms.key) + ms.preColon + ":" + ms.postColon + Flatten(ms.v) + ms.after
    + (if ms.Member? then "," + FlattenMembers(ms.rest) else "}")
  }

  function Denote(c: Syntax, placeholder: Bytes): Value
    requires Ok(c)
  {
    match c
    case STrue => Bool(true)
    case SFalse => Bool(false)
    case SNull => Str(placeholder)
    case SNum(whole, frac, exp) => Num(whole + frac + exp)
    case SStr(items) => Str(DenoteItems(items))
    case SEmptyArr(_) => Arr([])
    case SArr(es) => Arr(DenoteElements(es, placeholder))
    case SEmptyObj(_) => Obj(map[])
    case SObj(ms) => Obj(DenoteMembers(ms, placeholder, map[]))
  }

  function DenoteElements(es: Elements, placeholder: Bytes): seq<Value>
    requires ElementsOk(es)
  {
    [Denote(es.v, placeholder)] + (if es.Element? then DenoteElements(es.rest, placeholder) else [])
  }

  // A later member replaces an earlier one of the same name.
  function DenoteMembers(ms: Members, placeholder: Bytes, before: map<Bytes, Value>): map<Bytes, Value>
    requires MembersOk(ms)
    decreases ms
  {
    var now := before[DenoteItems(ms.key) := Denote(ms.v, placeholder)];
    if ms.Member? then DenoteMembers(ms.rest, placeholder, now) else now
  }

  // JSON-text = ws value ws
  ghost predicate IsTextOf(t: Bytes, w1: Bytes, c: Syntax, w2: Bytes) {
    IsBlank(w1) && Ok(c) && IsBlank(w2) && t == w1 + Flatten(c) + w2
  }

  ghost predicate InGrammar(t: Bytes) {
    exists w1, c, w2 :: IsTextOf(t, w1, c, w2)
  }
}
