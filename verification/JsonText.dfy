/**
JSON values (json/json.c, json_buf_parse and its helpers): what the recursive descent
reads from the bytes that follow, as functions on streams. Numbers are a token whose
length in a stream is given.
 */
module JsonText {
  import opened Bytes
  import opened Utf8
  import opened JsonString

  /** An object keeps its members in the order they are written. */
  datatype Json =
    | Null
    | Bool(b: bool)
    | Number(token: seq<byte>)
    | Text(bytes: seq<byte>)
    | List(items: seq<Json>)
    | Map(members: seq<Member>)
  datatype Member = Member(key: seq<byte>, value: Json)

  /**
  What the parser depends on: the number of bytes of the number token at the front of a
  stream, zero for none, and the characters beyond ASCII that count as space.

  The functions below also take `sure`: whether the look-ahead after `null` is sure to see
  what follows. A device may fail there, and then `null` is taken without it.
   */
  datatype Lexer = Lexer(number: seq<byte> -> nat, space: nat -> bool)

  const NULL_WORD: seq<byte> := [0x6E, 0x75, 0x6C, 0x6C]
  const TRUE_WORD: seq<byte> := [0x74, 0x72, 0x75, 0x65]
  const FALSE_WORD: seq<byte> := [0x66, 0x61, 0x6C, 0x73, 0x65]

  const LIST_OPEN: byte := 0x5B
  const LIST_CLOSE: byte := 0x5D
  const MAP_OPEN: byte := 0x7B
  const MAP_CLOSE: byte := 0x7D
  const COMMA: byte := 0x2C
  const COLON: byte := 0x3A

  predicate IsSpace(b: byte) {
    b == 0x20 || b == 0x09 || b == 0x0D || b == 0x0A
  }

  /** The stream from its first byte that is not a space: json_buf_peek_non_space. */
  function Trim(s: seq<byte>): (t: seq<byte>)
    ensures |t| <= |s| && (t != [] ==> !IsSpace(t[0]))
  {
    if s == [] || !IsSpace(s[0]) then s else Trim(s[1..])
  }

  predicate StartsNumber(b: byte) {
    0x30 <= b <= 0x39 || b == 0x2D
  }

  /** ident_character_is_reserved. */
  predicate Reserved(lex: Lexer, c: nat) {
    || c <= 0x20 || c == 0x7F || (c >= 0x80 && lex.space(c))
    || c in {0x23, 0x28, 0x29, 0x2C, 0x2E, 0x3B, 0x5B, 0x5D, 0x7B, 0x7D}
  }

  /** What may follow `null`. */
  predicate EndsNull(lex: Lexer, sure: bool, s: seq<byte>) {
    !sure || !Decode(s).Char? || Reserved(lex, Decode(s).c)
  }

  /** json_buf_parse_bool. */
  function BoolAt(s: seq<byte>): (r: Read<Json>)
    ensures r.Got? ==> |r.rest| < |s|
  {
    if FALSE_WORD <= s then Got(Bool(false), s[5..])
    else if TRUE_WORD <= s then Got(Bool(true), s[4..])
    else Fail
  }

  /** json_buf_parse_null. */
  function NullAt(lex: Lexer, sure: bool, s: seq<byte>): (r: Read<Json>)
    ensures r.Got? ==> |r.rest| < |s|
  {
    if NULL_WORD <= s && EndsNull(lex, sure, s[4..]) then Got(Null, s[4..]) else Fail
  }

  function NumberAt(lex: Lexer, s: seq<byte>): (r: Read<Json>)
    ensures r.Got? ==> |r.rest| < |s|
  {
    var n := lex.number(s);
    if 0 < n <= |s| then Got(Number(s[..n]), s[n..]) else Fail
  }

  /** json_buf_parse. */
  function ValueAt(lex: Lexer, sure: bool, s: seq<byte>): (r: Read<Json>)
    ensures r.Got? ==> |r.rest| < |s|
    decreases |s|, 1
  {
    var t := Trim(s);
    if t == [] then Fail
    else if t[0] == LIST_OPEN then ListAt(lex, sure, t)
    else if t[0] == MAP_OPEN then MapAt(lex, sure, t)
    else if t[0] == QUOTE then
      (match Str(t) case Fail => Fail case Got(v, rest) => Got(Text(v), rest))
    else if StartsNumber(t[0]) then NumberAt(lex, t)
    else if t[0] == 0x74 || t[0] == 0x66 then BoolAt(t)
    else if t[0] == 0x6E then NullAt(lex, sure, t)
    else Fail
  }

  /** json_buf_parse_list. */
  function ListAt(lex: Lexer, sure: bool, t: seq<byte>): (r: Read<Json>)
    ensures r.Got? ==> |r.rest| < |t|
    decreases |t|, 0
  {
    if t == [] || t[0] != LIST_OPEN then Fail else
    var u := Trim(t[1..]);
    if u == [] then Fail
    else if u[0] == LIST_CLOSE then Got(List([]), u[1..])
    else Items(lex, sure, u, [])
  }

  /** The loop over the items of a list. */
  function Items(lex: Lexer, sure: bool, s: seq<byte>, done: seq<Json>): (r: Read<Json>)
    ensures r.Got? ==> |r.rest| < |s|
    decreases |s|, 2
  {
    match ValueAt(lex, sure, s)
    case Fail => Fail
    case Got(v, rest) =>
      var u := Trim(rest);
      if u == [] then Fail
      else if u[0] == LIST_CLOSE then Got(List(done + [v]), u[1..])
      else if u[0] == COMMA then Items(lex, sure, u[1..], done + [v])
      else Fail
  }

  /** json_buf_parse_map. */
  function MapAt(lex: Lexer, sure: bool, t: seq<byte>): (r: Read<Json>)
    ensures r.Got? ==> |r.rest| < |t|
    decreases |t|, 0
  {
    if t == [] || t[0] != MAP_OPEN then Fail else
    var u := Trim(t[1..]);
    if u == [] then Fail
    else if u[0] == MAP_CLOSE then Got(Map([]), u[1..])
    else Members(lex, sure, u, [])
  }

  /** A key, its colon and its value. */
  function MemberAt(lex: Lexer, sure: bool, s: seq<byte>): (r: Read<Member>)
    ensures r.Got? ==> |r.rest| < |s|
    decreases |s|, 2
  {
    match Str(s)
    case Fail => Fail
    case Got(key, rest) =>
      var u := Trim(rest);
      if u == [] || u[0] != COLON then Fail
      else
        match ValueAt(lex, sure, Trim(u[1..]))
        case Fail => Fail
        case Got(v, after) => Got(Member(key, v), after)
  }

  /** The loop over the members of an object. */
  function Members(lex: Lexer, sure: bool, s: seq<byte>, done: seq<Member>): (r: Read<Json>)
    ensures r.Got? ==> |r.rest| < |s|
    decreases |s|, 3
  {
    match MemberAt(lex, sure, s)
    case Fail => Fail
    case Got(m, rest) =>
      var u := Trim(rest);
      if u == [] then Fail
      else if u[0] == MAP_CLOSE then Got(Map(done + [m]), u[1..])
      else if u[0] == COMMA then Members(lex, sure, Trim(u[1..]), done + [m])
      else Fail
  }
}
