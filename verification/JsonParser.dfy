/**
The recursive descent parser of json/json.c over the byte buffer. Each method is proved
against the stream functions of JsonString and JsonText; a failure puts the cursor back.

`sure` says that the rest of the stream is within reach: in memory, or on a device that
does not fail and with a window that has room for it, so that nothing is read in vain.
Without it a device may fail at any byte, and then parsing may fail too, but what is
returned is still what the stream says.
 */
module JsonParser {
  import opened Bytes
  import opened Utf8
  import opened Buffer
  import opened JsonString
  import opened JsonText

  /** The saves still mark what they marked. */
  twostate predicate Kept(buf: Buf, sure: bool)
    requires old(buf.Valid())
    reads buf, buf.data
  {
    && buf.Valid() && |buf.saves| == |old(buf.saves)| && buf.Marks() == old(buf.Marks())
    && (sure ==> buf.Ample())
  }

  /** The value of the first digits. */
  function HexSum(s: seq<byte>, i: nat): (v: nat)
    requires i <= |s| && forall k :: 0 <= k < i ==> IsHex(s[k])
  {
    if i == 0 then 0 else HexSum(s, i - 1) * 16 + HexValue(s[i - 1])
  }

  lemma HexSumOfFour(s: seq<byte>)
    requires |s| >= 4 && forall k :: 0 <= k < 4 ==> IsHex(s[k])
    ensures Hex4(s) == Got(HexSum(s, 4), s[4..])
  {
    assert HexSum(s, 1) == HexValue(s[0]);
    assert HexSum(s, 2) == HexSum(s, 1) * 16 + HexValue(s[1]);
    assert HexSum(s, 3) == HexSum(s, 2) * 16 + HexValue(s[2]);
    assert HexSum(s, 4) == HexSum(s, 3) * 16 + HexValue(s[3]);
  }

  /** json_buf_parse_str_hex4. */
  method ParseHex4(buf: Buf, ghost sure: bool) returns (ok: bool, c: nat)
    requires buf.Valid() && (sure ==> buf.Ample())
    modifies buf`rpos, buf`wpos, buf`saves, buf`unread, buf.data
    ensures Kept(buf, sure)
    ensures ok ==> Hex4(old(buf.Rest())) == Got(c, buf.Rest())
    ensures sure && !ok ==> Hex4(old(buf.Rest())) == Fail
  {
    hide Chain, ReadMarks, Behind, Hex4;
    ghost var s := buf.Rest();
    var i := 0;
    c := 0;
    assert s[0..] == s;
    while i < 4
      invariant 0 <= i <= 4 && i <= |s|
      invariant Kept(buf, sure) && buf.Rest() == s[i..]
      invariant (forall k :: 0 <= k < i ==> IsHex(s[k])) && c == HexSum(s, i)
    {
      var r, b := buf.ReadU8();
      if r <= 0 {
        assert sure ==> Hex4(s) == Fail by { NotHex(s, i); }
        return false, c;
      }
      assert b == s[i] && s[i..][1..] == s[i + 1..];
      if 0x30 <= b <= 0x39 {
        c := c * 16 + b as int - 0x30;
      } else if 0x41 <= b <= 0x46 {
        c := c * 16 + b as int - 0x41 + 10;
      } else if 0x61 <= b <= 0x66 {
        c := c * 16 + b as int - 0x61 + 10;
      } else {
        NotHex(s, i);
        return false, c;
      }
      i := i + 1;
    }
    HexSumOfFour(s);
    ok := true;
  }

  lemma NotHex(s: seq<byte>, i: nat)
    requires i < 4
    ensures i >= |s| || !IsHex(s[i]) ==> Hex4(s) == Fail
  {
  }

  /** One more byte: the stream's first, or none. */
  method ReadByte(buf: Buf, ghost sure: bool) returns (ok: bool, b: byte)
    requires buf.Valid() && (sure ==> buf.Ample())
    modifies buf`rpos, buf`wpos, buf`saves, buf`unread, buf.data
    ensures Kept(buf, sure)
    ensures ok ==> old(buf.Rest()) != [] && b == old(buf.Rest())[0] && buf.Rest() == old(buf.Rest())[1..]
    ensures sure && !ok ==> old(buf.Rest()) == []
  {
    hide Chain, ReadMarks, Behind;
    var r;
    r, b := buf.ReadU8();
    ok := r > 0;
  }

  /** The low surrogate behind a high one. */
  method ParseLowSurrogate(buf: Buf, high: nat, ghost sure: bool) returns (ok: bool, c: nat)
    requires buf.Valid() && (sure ==> buf.Ample()) && 0xD800 <= high <= 0xDBFF
    modifies buf`rpos, buf`wpos, buf`saves, buf`unread, buf.data
    ensures Kept(buf, sure)
    ensures ok ==> LowSurrogate(old(buf.Rest()), high) == Got(c, buf.Rest())
    ensures sure && !ok ==> LowSurrogate(old(buf.Rest()), high) == Fail
  {
    hide Chain, ReadMarks, Behind, Hex4;
    ghost var s := buf.Rest();
    c := 0;
    var b;
    ok, b := ReadByte(buf, sure);
    if !ok || b != BACKSLASH { return false, c; }
    ok, b := ReadByte(buf, sure);
    if !ok || b != 0x75 { return false, c; }
    assert s[1..][1..] == s[2..];
    var low;
    ok, low := ParseHex4(buf, sure);
    if !ok || low < 0xDC00 || low > 0xDFFF { return false, c; }
    c := 0x10000 + (high - 0xD800) * 1024 + low - 0xDC00;
  }

  /** The part of an escape after the backslash. */
  method ParseEscape(buf: Buf, ghost sure: bool) returns (ok: bool, c: nat)
    requires buf.Valid() && (sure ==> buf.Ample())
    modifies buf`rpos, buf`wpos, buf`saves, buf`unread, buf.data
    ensures Kept(buf, sure)
    ensures ok ==> Escape(old(buf.Rest())) == Got(c, buf.Rest())
    ensures sure && !ok ==> Escape(old(buf.Rest())) == Fail
  {
    hide Chain, ReadMarks, Behind, Hex4, LowSurrogate;
    c := 0;
    var b;
    ok, b := ReadByte(buf, sure);
    if !ok { return; }
    if b == QUOTE || b == BACKSLASH || b == 0x2F {
      c := b as int;
    } else if b == 0x62 {
      c := 8;
    } else if b == 0x66 {
      c := 12;
    } else if b == 0x6E {
      c := 10;
    } else if b == 0x72 {
      c := 13;
    } else if b == 0x74 {
      c := 9;
    } else if b == 0x75 {
      ok, c := ParseHex4(buf, sure);
      if !ok { return; }
      if 0xD800 <= c <= 0xDBFF {
        ok, c := ParseLowSurrogate(buf, c, sure);
      } else if 0xDC00 <= c <= 0xDFFF {
        ok := false;
      }
    } else {
      ok := false;
    }
  }

  /** The bits of a first byte and of the continuation bytes behind it. */
  function Bits(first: nat, s: seq<byte>, n: nat): nat
    requires n < |s|
  {
    if n == 0 then first else Bits(first, s, n - 1) * 64 + s[n] as int % 64
  }

  lemma BitsOfValue(s: seq<byte>, first: nat, count: nat)
    requires 1 <= count <= 3 && count < |s|
    requires first == s[0] as int % (if count == 1 then 32 else if count == 2 then 16 else 8)
    ensures Value(s, count + 1) == Bits(first, s, count)
  {
    assert Bits(first, s, 1) == first * 64 + s[1] as int % 64;
    if count >= 2 { assert Bits(first, s, 2) == Bits(first, s, 1) * 64 + s[2] as int % 64; }
    if count == 3 { assert Bits(first, s, 3) == Bits(first, s, 2) * 64 + s[3] as int % 64; }
  }

  /** The loop over continuation bytes; the first byte has been read. */
  method ParseContinuation(buf: Buf, first: nat, count: nat, ghost s: seq<byte>, ghost sure: bool)
    returns (ok: bool, c: nat)
    requires buf.Valid() && (sure ==> buf.Ample()) && s != [] && buf.Rest() == s[1..] && 1 <= count <= 3
    modifies buf`rpos, buf`wpos, buf`saves, buf`unread, buf.data
    ensures Kept(buf, sure)
    ensures ok ==>
              && count < |s| && (forall i :: 1 <= i <= count ==> IsContinuation(s[i]))
              && c == Bits(first, s, count) && buf.Rest() == s[count + 1..]
    ensures sure && !ok ==> |s| <= count || exists i :: 1 <= i <= count && !IsContinuation(s[i])
  {
    hide Chain, ReadMarks, Behind;
    var i := 0;
    c := first;
    while i < count
      invariant 0 <= i <= count && i < |s|
      invariant Kept(buf, sure) && buf.Rest() == s[i + 1..]
      invariant (forall k :: 1 <= k <= i ==> IsContinuation(s[k])) && c == Bits(first, s, i)
    {
      var b;
      ok, b := ReadByte(buf, sure);
      if !ok { return; }
      assert b == s[i + 1] && s[i + 1..][1..] == s[i + 2..];
      if !(0x80 <= b < 0xC0) { return false, c; }
      c := c * 64 + b as int % 64;
      i := i + 1;
    }
    ok := true;
  }

  /** json_buf_parse_str_character. */
  method ParseStrCharacter(buf: Buf, ghost sure: bool) returns (ok: bool, c: nat)
    requires buf.Valid() && (sure ==> buf.Ample())
    modifies buf`rpos, buf`wpos, buf`saves, buf`unread, buf.data
    ensures Kept(buf, sure)
    ensures ok ==> StrCharacter(old(buf.Rest())) == Got(c, buf.Rest())
    ensures sure && !ok ==> StrCharacter(old(buf.Rest())) == Fail
  {
    hide Chain, ReadMarks, Behind, Escape, Bits;
    ghost var s := buf.Rest();
    c := 0;
    var b;
    ok, b := ReadByte(buf, sure);
    if !ok || b < 0x20 { return false, c; }
    if b == BACKSLASH {
      ok, c := ParseEscape(buf, sure);
    } else if b < 0x80 {
      c := b as int;
    } else {
      var count, min;
      if 0xC2 <= b <= 0xDF {
        c, count, min := b as int % 32, 1, 0x80;
      } else if 0xE0 <= b <= 0xEF {
        c, count, min := b as int % 16, 2, 0x800;
      } else if 0xF0 <= b <= 0xF4 {
        c, count, min := b as int % 8, 3, 0x10000;
      } else {
        return false, c;
      }
      ghost var first := c;
      ok, c := ParseContinuation(buf, c, count, s, sure);
      if !ok { return; }
      BitsOfValue(s, first, count);
      hide Value;
      if c < min || c > 0x10FFFF || 0xD800 <= c <= 0xDFFF {
        return false, c;
      }
    }
  }

  /** character_utf8 into an array. */
  method PutCharacter(p: array<byte>, at: nat, c: nat)
    requires IsScalar(c) && at + EncodedSize(c) <= p.Length
    modifies p
    ensures p[..at + EncodedSize(c)] == old(p[..at]) + Encode(c)
  {
    var bytes := Encode(c);
    forall i | 0 <= i < |bytes| {
      p[at + i] := bytes[i];
    }
  }

  /** One round of the body: what the bytes before and the next character come to. */
  lemma BodyStep(s: seq<byte>, done: seq<byte>)
    requires s != [] && s[0] != QUOTE
    ensures StrCharacter(s).Fail? ==> Body(s, done) == Fail
    ensures StrCharacter(s).Got? ==>
              && IsScalar(StrCharacter(s).value)
              && Body(s, done) == (if |done| + EncodedSize(StrCharacter(s).value) > STR_MAX then Fail
                                   else Body(StrCharacter(s).rest, done + Encode(StrCharacter(s).value)))
  {
    hide StrCharacter, Encode;
    if StrCharacter(s).Got? { ReadsScalars(s); }
  }

  lemma BodyEnd(s: seq<byte>, done: seq<byte>)
    ensures s == [] ==> Body(s, done) == Fail
    ensures s != [] && s[0] == QUOTE ==> Body(s, done) == Got(done, s[1..])
  {
  }

  /**
  One pass of json_buf_parse_str after the opening quote: without an array it measures the
  string, with one of the measured size it fills it. The capacity check cannot fail.
   */
  method ParseBody(buf: Buf, p: array?<byte>, capacity: nat, ghost sure: bool) returns (ok: bool, size: nat)
    requires buf.Valid() && (sure ==> buf.Ample())
    requires p != null ==> p != buf.data && p.Length == capacity + 1
    requires p != null ==> Body(buf.Rest(), []).Got? && |Body(buf.Rest(), []).value| == capacity
    modifies buf`rpos, buf`wpos, buf`saves, buf`unread, buf.data, p
    ensures Kept(buf, sure)
    ensures ok ==>
              && Body(old(buf.Rest()), []).Got? && buf.Rest() == Body(old(buf.Rest()), []).rest
              && size == |Body(old(buf.Rest()), []).value|
              && (p != null ==> size == capacity && p[..size] == Body(old(buf.Rest()), []).value)
    ensures sure && !ok ==> Body(old(buf.Rest()), []) == Fail
  {
    hide Chain, ReadMarks, Behind, Body, StrCharacter, Encode;
    ghost var whole := Body(buf.Rest(), []);
    ghost var done: seq<byte> := [];
    size := 0;
    while true
      invariant Kept(buf, sure)
      invariant whole == Body(buf.Rest(), done) && size == |done| <= STR_MAX
      invariant p != null ==> size <= capacity && p[..size] == done
      decreases |buf.Rest()|
    {
      ghost var s := buf.Rest();
      BodyEnd(s, done);
      var r, b := buf.PeekU8();
      if r <= 0 { return false, size; }
      if b == QUOTE {
        ok, b := ReadByte(buf, sure);
        return;
      }
      BodyStep(s, done);
      var c;
      ok, c := ParseStrCharacter(buf, sure);
      if !ok { return; }
      var n := EncodedSize(c);
      if size > STR_MAX - n { return false, size; }
      if p != null {
        if n > capacity - size {
          assert false;
        }
        PutCharacter(p, size, c);
      }
      done := done + Encode(c);
      size := size + n;
    }
  }

  /** json_buf_parse_str: measure, then decode the saved input. */
  method ParseStr(buf: Buf, ghost sure: bool) returns (ok: bool, text: seq<byte>)
    requires buf.Valid() && (sure ==> buf.Ample())
    modifies buf`rpos, buf`wpos, buf`saves, buf`unread, buf.data
    ensures Kept(buf, sure)
    ensures ok ==> Str(old(buf.Rest())) == Got(text, buf.Rest())
    ensures !ok ==> buf.Rest() == old(buf.Rest())
    ensures sure && !ok ==> Str(old(buf.Rest())) == Fail
  {
    hide Chain, ReadMarks, Behind, Body;
    ghost var s := buf.Rest();
    text := [];
    buf.SaveInit();
    var capacity: nat, size: nat, pass := 0, 0, 0;
    var p: array?<byte> := null;
    while pass < 2
      invariant 0 <= pass <= 2
      invariant buf.Valid() && |buf.saves| == |old(buf.saves)| + 1 && (sure ==> buf.Ample())
      invariant buf.Marks() == [s] + old(buf.Marks())
      invariant pass == 0 <==> p == null
      invariant p != null ==> fresh(p) && p.Length == capacity + 1
      invariant pass > 0 ==> Str(s).Got? && capacity == size == |Str(s).value|
      invariant pass == 2 ==> p[..size] == Str(s).value && buf.Rest() == Str(s).rest
    {
      buf.SaveRestoreRpos();
      var b;
      ok, b := ReadByte(buf, sure);
      if ok && b == QUOTE {
        ok, size := ParseBody(buf, p, capacity, sure);
      } else {
        ok := false;
      }
      if !ok {
        buf.SaveRestoreRpos();
        buf.SaveClean();
        return;
      }
      if pass == 0 {
        capacity := size;
        p := new byte[capacity + 1];
      }
      pass := pass + 1;
    }
    p[size] := 0;
    buf.SaveClean();
    return true, p[..size];
  }

  // ---------- values ----------

  /** A byte that was peeked can be ignored: the check of buf_ignore cannot fail here. */
  method IgnoreByte(buf: Buf, ghost sure: bool)
    requires buf.Valid() && (sure ==> buf.Ample())
    requires buf.rpos < buf.wpos && buf.Rest() != [] && buf.Rest()[0] < 0x80
    modifies buf`rpos, buf`wpos, buf`saves, buf`unread, buf.data
    ensures Kept(buf, sure) && buf.Rest() == old(buf.Rest())[1..]
  {
    hide Chain, ReadMarks, Behind, SkipEnd, Aligned;
    AsciiIsAligned(buf.Rest(), 1);
    var r := buf.Ignore(1);
  }

  /** json_buf_peek_non_space. */
  method PeekNonSpace(buf: Buf, ghost sure: bool) returns (ok: bool, b: byte)
    requires buf.Valid() && (sure ==> buf.Ample())
    modifies buf`rpos, buf`wpos, buf`saves, buf`unread, buf.data
    ensures Kept(buf, sure) && Trim(buf.Rest()) == Trim(old(buf.Rest()))
    ensures |buf.Rest()| <= |old(buf.Rest())|
    ensures ok ==> buf.rpos < buf.wpos && buf.Rest() == Trim(old(buf.Rest())) != [] && b == buf.Rest()[0]
    ensures sure && !ok ==> buf.Rest() == Trim(old(buf.Rest())) == []
  {
    hide Chain, ReadMarks, Behind, Trim;
    var r;
    while true
      invariant Kept(buf, sure) && Trim(buf.Rest()) == Trim(old(buf.Rest()))
      invariant |buf.Rest()| <= |old(buf.Rest())|
      decreases |buf.Rest()|
    {
      TrimStep(buf.Rest());
      r, b := buf.PeekU8();
      if r <= 0 { return false, b; }
      if b != 0x20 && b != 0x09 && b != 0x0D && b != 0x0A { return true, b; }
      IgnoreByte(buf, sure);
    }
  }

  lemma TrimStep(s: seq<byte>)
    ensures s == [] || !IsSpace(s[0]) ==> Trim(s) == s
    ensures s != [] && IsSpace(s[0]) ==> Trim(s) == Trim(s[1..])
  {
  }

  /** json_buf_parse_bool. */
  method ParseBool(buf: Buf, ghost sure: bool) returns (v: Option<Json>)
    requires buf.Valid() && (sure ==> buf.Ample())
    modifies buf`rpos, buf`wpos, buf`saves, buf`unread, buf.data
    ensures Kept(buf, sure)
    ensures v.Some? ==> BoolAt(old(buf.Rest())) == Got(v.value, buf.Rest())
    ensures sure && v.None? ==> BoolAt(old(buf.Rest())) == Fail
  {
    hide Chain, ReadMarks, Behind;
    assert TRUE_WORD <= buf.Rest() ==> buf.Rest()[0] == TRUE_WORD[0];
    var r := buf.ReadStr(FALSE_WORD);
    if r > 0 { return Some(Bool(false)); }
    r := buf.ReadStr(TRUE_WORD);
    if r > 0 { return Some(Bool(true)); }
    v := None;
  }

  /** json_buf_parse_null. */
  method ParseNull(buf: Buf, lex: Lexer, ghost sure: bool) returns (v: Option<Json>)
    requires buf.Valid() && (sure ==> buf.Ample())
    modifies buf`rpos, buf`wpos, buf`saves, buf`unread, buf.data
    ensures Kept(buf, sure)
    ensures v.Some? ==> NullAt(lex, sure, old(buf.Rest())) == Got(v.value, buf.Rest())
    ensures v.None? ==> buf.Rest() == old(buf.Rest())
    ensures sure && v.None? ==> NullAt(lex, sure, old(buf.Rest())) == Fail
  {
    hide Chain, ReadMarks, Behind, Decode, Reserved;
    buf.SaveInit();
    v := None;
    var r := buf.ReadStr(NULL_WORD);
    if r > 0 {
      var c;
      r, c := buf.PeekCharacterUtf8();
      if r > 0 && !Reserved(lex, c) {
        buf.SaveRestoreRpos();
      } else {
        v := Some(Null);
      }
    }
    buf.SaveClean();
  }

  /** json_buf_parse_number, for the token that the number lexer finds. */
  method ParseNumber(buf: Buf, lex: Lexer, ghost sure: bool) returns (v: Option<Json>)
    requires buf.Valid() && (sure ==> buf.Ample())
    modifies buf`rpos, buf`wpos, buf`saves, buf`unread, buf.data
    ensures Kept(buf, sure)
    ensures v.Some? ==> NumberAt(lex, old(buf.Rest())) == Got(v.value, buf.Rest())
    ensures sure && v.None? ==> NumberAt(lex, old(buf.Rest())) == Fail
  {
    hide Chain, ReadMarks, Behind;
    var n := lex.number(buf.Rest());
    if n == 0 { return None; }
    var r := buf.Refill(n);
    buf.MemoryRest();
    if r < n { return None; }
    var token := buf.data[buf.rpos..buf.rpos + n];
    assert token == buf.Rest()[..n];
    buf.Advance(n);
    v := Some(Number(token));
  }

  /** json_buf_parse_list after the opening bracket. */
  method ParseItems(buf: Buf, lex: Lexer, ghost sure: bool) returns (v: Option<Json>)
    requires buf.Valid() && (sure ==> buf.Ample())
    modifies buf`rpos, buf`wpos, buf`saves, buf`unread, buf.data
    ensures Kept(buf, sure)
    ensures v.Some? ==> ListAt(lex, sure, [LIST_OPEN] + old(buf.Rest())) == Got(v.value, buf.Rest())
    ensures sure && v.None? ==> ListAt(lex, sure, [LIST_OPEN] + old(buf.Rest())) == Fail
    decreases |buf.Rest()|, 3
  {
    hide Chain, ReadMarks, Behind, ValueAt, Trim, Items;
    ghost var s := buf.Rest();
    assert ([LIST_OPEN] + s)[1..] == s;
    var ok, b := PeekNonSpace(buf, sure);
    if !ok { return None; }
    if b == LIST_CLOSE {
      IgnoreByte(buf, sure);
      return Some(List([]));
    }
    ghost var u := buf.Rest();
    var items: seq<Json> := [];
    while true
      invariant Kept(buf, sure) && |buf.Rest()| <= |s|
      invariant Items(lex, sure, u, []) == Items(lex, sure, buf.Rest(), items)
      decreases |buf.Rest()|
    {
      ItemsStep(lex, sure, buf.Rest(), items);
      var item := ParseValue(buf, lex, sure);
      if item.None? { return None; }
      items := items + [item.value];
      ok, b := PeekNonSpace(buf, sure);
      if !ok { return None; }
      if b == LIST_CLOSE {
        IgnoreByte(buf, sure);
        return Some(List(items));
      }
      if b != COMMA { return None; }
      IgnoreByte(buf, sure);
    }
  }

  lemma ItemsStep(lex: Lexer, sure: bool, s: seq<byte>, done: seq<Json>)
    ensures ValueAt(lex, sure, s).Fail? ==> Items(lex, sure, s, done) == Fail
    ensures ValueAt(lex, sure, s).Got? ==>
              var more := done + [ValueAt(lex, sure, s).value];
              var u := Trim(ValueAt(lex, sure, s).rest);
              Items(lex, sure, s, done) ==
              if u == [] then Fail
              else if u[0] == LIST_CLOSE then Got(List(more), u[1..])
              else if u[0] == COMMA then Items(lex, sure, u[1..], more)
              else Fail
  {
  }

  lemma NotAList(lex: Lexer, sure: bool, s: seq<byte>)
    ensures !([LIST_OPEN] <= s) ==> ListAt(lex, sure, s) == Fail
  {
  }

  /** json_buf_parse_list. */
  method ParseList(buf: Buf, lex: Lexer, ghost sure: bool) returns (v: Option<Json>)
    requires buf.Valid() && (sure ==> buf.Ample())
    modifies buf`rpos, buf`wpos, buf`saves, buf`unread, buf.data
    ensures Kept(buf, sure)
    ensures v.Some? ==> ListAt(lex, sure, old(buf.Rest())) == Got(v.value, buf.Rest())
    ensures v.None? ==> buf.Rest() == old(buf.Rest())
    ensures sure && v.None? ==> ListAt(lex, sure, old(buf.Rest())) == Fail
    decreases |buf.Rest()|, 0
  {
    hide Chain, ReadMarks, Behind, ListAt;
    NotAList(lex, sure, buf.Rest());
    buf.SaveInit();
    var r := buf.ReadStr([LIST_OPEN]);
    v := None;
    if r > 0 {
      assert old(buf.Rest()) == [LIST_OPEN] + buf.Rest();
      v := ParseItems(buf, lex, sure);
      if v.None? {
        buf.SaveRestoreRpos();
      }
    }
    buf.SaveClean();
  }

  /** A key, its colon and its value. */
  method ParseMember(buf: Buf, lex: Lexer, ghost sure: bool) returns (m: Option<Member>)
    requires buf.Valid() && (sure ==> buf.Ample())
    modifies buf`rpos, buf`wpos, buf`saves, buf`unread, buf.data
    ensures Kept(buf, sure)
    ensures m.Some? ==> MemberAt(lex, sure, old(buf.Rest())) == Got(m.value, buf.Rest())
    ensures sure && m.None? ==> MemberAt(lex, sure, old(buf.Rest())) == Fail
    decreases |buf.Rest()|, 2
  {
    hide Chain, ReadMarks, Behind, ValueAt, Trim, Str;
    var ok, key := ParseStr(buf, sure);
    if !ok { return None; }
    var b;
    ok, b := PeekNonSpace(buf, sure);
    if !ok || b != COLON { return None; }
    IgnoreByte(buf, sure);
    ghost var u := buf.Rest();
    ok, b := PeekNonSpace(buf, sure);
    if !ok {
      NothingToRead(lex, sure, u);
      return None;
    }
    var v := ParseValue(buf, lex, sure);
    if v.None? { return None; }
    return Some(Member(key, v.value));
  }

  lemma NothingToRead(lex: Lexer, sure: bool, s: seq<byte>)
    ensures Trim(s) == [] ==> ValueAt(lex, sure, Trim(s)) == Fail
    ensures forall done :: Trim(s) == [] ==> Members(lex, sure, Trim(s), done) == Fail
  {
    assert Trim(s) == [] ==> Trim(Trim(s)) == [];
    assert Trim(s) == [] ==> Str(Trim(s)) == Fail;
  }

  /** json_buf_parse_map after the opening brace. */
  method ParseMembers(buf: Buf, lex: Lexer, ghost sure: bool) returns (v: Option<Json>)
    requires buf.Valid() && (sure ==> buf.Ample())
    modifies buf`rpos, buf`wpos, buf`saves, buf`unread, buf.data
    ensures Kept(buf, sure)
    ensures v.Some? ==> MapAt(lex, sure, [MAP_OPEN] + old(buf.Rest())) == Got(v.value, buf.Rest())
    ensures sure && v.None? ==> MapAt(lex, sure, [MAP_OPEN] + old(buf.Rest())) == Fail
    decreases |buf.Rest()|, 3
  {
    hide Chain, ReadMarks, Behind, MemberAt, Trim, Members;
    ghost var s := buf.Rest();
    assert ([MAP_OPEN] + s)[1..] == s;
    var ok, b := PeekNonSpace(buf, sure);
    if !ok { return None; }
    if b == MAP_CLOSE {
      IgnoreByte(buf, sure);
      return Some(Map([]));
    }
    ghost var u := buf.Rest();
    var members: seq<Member> := [];
    while true
      invariant Kept(buf, sure) && |buf.Rest()| <= |s|
      invariant Members(lex, sure, u, []) == Members(lex, sure, buf.Rest(), members)
      decreases |buf.Rest()|
    {
      MembersStep(lex, sure, buf.Rest(), members);
      var m := ParseMember(buf, lex, sure);
      if m.None? { return None; }
      members := members + [m.value];
      ok, b := PeekNonSpace(buf, sure);
      if !ok { return None; }
      if b == MAP_CLOSE {
        IgnoreByte(buf, sure);
        return Some(Map(members));
      }
      if b != COMMA { return None; }
      IgnoreByte(buf, sure);
      NothingToRead(lex, sure, buf.Rest());
      ok, b := PeekNonSpace(buf, sure);
      if !ok { return None; }
    }
  }

  lemma MembersStep(lex: Lexer, sure: bool, s: seq<byte>, done: seq<Member>)
    ensures MemberAt(lex, sure, s).Fail? ==> Members(lex, sure, s, done) == Fail
    ensures MemberAt(lex, sure, s).Got? ==>
              var more := done + [MemberAt(lex, sure, s).value];
              var u := Trim(MemberAt(lex, sure, s).rest);
              Members(lex, sure, s, done) ==
              if u == [] then Fail
              else if u[0] == MAP_CLOSE then Got(Map(more), u[1..])
              else if u[0] == COMMA then Members(lex, sure, Trim(u[1..]), more)
              else Fail
  {
  }

  lemma NotAMap(lex: Lexer, sure: bool, s: seq<byte>)
    ensures !([MAP_OPEN] <= s) ==> MapAt(lex, sure, s) == Fail
  {
  }

  /** json_buf_parse_map. */
  method ParseMap(buf: Buf, lex: Lexer, ghost sure: bool) returns (v: Option<Json>)
    requires buf.Valid() && (sure ==> buf.Ample())
    modifies buf`rpos, buf`wpos, buf`saves, buf`unread, buf.data
    ensures Kept(buf, sure)
    ensures v.Some? ==> MapAt(lex, sure, old(buf.Rest())) == Got(v.value, buf.Rest())
    ensures v.None? ==> buf.Rest() == old(buf.Rest())
    ensures sure && v.None? ==> MapAt(lex, sure, old(buf.Rest())) == Fail
    decreases |buf.Rest()|, 0
  {
    hide Chain, ReadMarks, Behind, MapAt;
    NotAMap(lex, sure, buf.Rest());
    buf.SaveInit();
    var r := buf.ReadStr([MAP_OPEN]);
    v := None;
    if r > 0 {
      assert old(buf.Rest()) == [MAP_OPEN] + buf.Rest();
      v := ParseMembers(buf, lex, sure);
      if v.None? {
        buf.SaveRestoreRpos();
      }
    }
    buf.SaveClean();
  }

  /** The switch of json_buf_parse on the first byte of a value. */
  method ParseCore(buf: Buf, lex: Lexer, b: byte, ghost sure: bool) returns (v: Option<Json>)
    requires buf.Valid() && (sure ==> buf.Ample())
    requires buf.Rest() != [] && buf.Rest()[0] == b && !IsSpace(b)
    modifies buf`rpos, buf`wpos, buf`saves, buf`unread, buf.data
    ensures Kept(buf, sure)
    ensures v.Some? ==> ValueAt(lex, sure, old(buf.Rest())) == Got(v.value, buf.Rest())
    ensures sure && v.None? ==> ValueAt(lex, sure, old(buf.Rest())) == Fail
    decreases |buf.Rest()|, 1
  {
    hide Chain, ReadMarks, Behind, ListAt, MapAt, Str, NumberAt, NullAt, BoolAt;
    ghost var t := buf.Rest();
    if b == LIST_OPEN {
      v := ParseList(buf, lex, sure);
    } else if b == MAP_OPEN {
      v := ParseMap(buf, lex, sure);
    } else if b == QUOTE {
      var ok, text := ParseStr(buf, sure);
      v := if ok then Some(Text(text)) else None;
    } else if 0x30 <= b <= 0x39 || b == 0x2D {
      v := ParseNumber(buf, lex, sure);
    } else if b == 0x74 || b == 0x66 {
      v := ParseBool(buf, sure);
    } else if b == 0x6E {
      v := ParseNull(buf, lex, sure);
    } else {
      v := None;
    }
  }

  /**
  json_buf_parse: the value that the stream begins with, and the cursor behind it; without
  one the stream is what it was.
   */
  method ParseValue(buf: Buf, lex: Lexer, ghost sure: bool) returns (v: Option<Json>)
    requires buf.Valid() && (sure ==> buf.Ample())
    modifies buf`rpos, buf`wpos, buf`saves, buf`unread, buf.data
    ensures Kept(buf, sure)
    ensures v.Some? ==> ValueAt(lex, sure, old(buf.Rest())) == Got(v.value, buf.Rest())
    ensures v.None? ==> buf.Rest() == old(buf.Rest())
    ensures sure && v.None? ==> ValueAt(lex, sure, old(buf.Rest())) == Fail
    decreases |buf.Rest()|, 2
  {
    hide Chain, ReadMarks, Behind, ValueAt, Trim;
    ghost var s := buf.Rest();
    TrimmedValue(lex, sure, s);
    buf.SaveInit();
    v := None;
    var ok, b := PeekNonSpace(buf, sure);
    if ok {
      v := ParseCore(buf, lex, b, sure);
    }
    if v.None? {
      buf.SaveRestoreRpos();
    }
    buf.SaveClean();
  }

  lemma TrimmedValue(lex: Lexer, sure: bool, s: seq<byte>)
    ensures ValueAt(lex, sure, Trim(s)) == ValueAt(lex, sure, s)
    ensures Trim(s) == [] ==> ValueAt(lex, sure, s) == Fail
  {
    assert Trim(Trim(s)) == Trim(s);
    hide Trim;
  }

  /** json_from_str: one value and nothing but white space behind it. */
  method FromStr(bytes: seq<byte>, lex: Lexer) returns (v: Option<Json>)
    ensures v.Some? ==> ValueAt(lex, true, bytes).Got? && v.value == ValueAt(lex, true, bytes).value
    ensures v.Some? <==> ValueAt(lex, true, bytes).Got? && Trim(ValueAt(lex, true, bytes).rest) == []
  {
    hide Chain, ReadMarks, Behind, ValueAt, Trim;
    var buf := new Buf.Const(bytes);
    v := ParseValue(buf, lex, true);
    if v.None? { return; }
    var ok, b := PeekNonSpace(buf, true);
    buf.MemoryRest();
    if buf.rpos != buf.wpos { v := None; }
  }
}
