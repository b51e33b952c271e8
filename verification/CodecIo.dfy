/**
Reading a string and filling an allocated buffer byte by byte, as the base 64, base 32 and
URL codecs do.
 */
module CodecIo {
  import opened Bytes
  import opened Buffer

  /** The byte at a position, zero behind the end. */
  function At(s: seq<byte>, i: nat): (v: nat)
    ensures v < 256
  {
    if i < |s| then s[i] as int else 0
  }

  function Least(a: nat, b: nat): (r: nat)
    ensures r <= a && r <= b
  {
    if a < b then a else b
  }

  /** buf_read_u8 where a byte is known to be there. */
  method Next(input: Buf) returns (b: byte)
    requires input.Valid() && input.InMemory() && input.Rest() != []
    modifies input`rpos, input`wpos, input`saves, input`unread, input.data
    ensures input.Valid() && input.InMemory()
    ensures b == old(input.Rest())[0] && input.Rest() == old(input.Rest())[1..]
  {
    hide Chain, ReadMarks, Behind;
    var r;
    r, b := input.ReadU8();
  }

  /** buf_write_u8 where the byte is known to fit. */
  method Emit(output: Buf, b: byte)
    requires output.Valid() && output.sent == [] && output.wpos < output.data.Length
    modifies output`wpos, output`saves, output`sent, output`failed, output`spilled, output.data
    ensures output.Valid() && output.sent == [] && output.wpos == old(output.wpos) + 1
    ensures output.Window() == old(output.Window()) + [b]
    ensures output.data[output.wpos..] == old(output.data[output.wpos + 1..])
  {
    hide Chain;
    var r, _ := output.Write([b]);
    assert output.Output() == output.Window() && old(output.Output()) == old(output.Window());
    assert |output.Window()| == output.wpos;
  }

  /** buf_u8_to_hex where both digits are known to fit. */
  method EmitHex(output: Buf, b: byte)
    requires output.Valid() && output.sent == [] && output.wpos + 2 <= output.data.Length
    modifies output`wpos, output`saves, output`sent, output`failed, output`spilled, output.data
    ensures output.Valid() && output.sent == []
    ensures output.Window() == old(output.Window()) + [HexDigit(b as int / 16), HexDigit(b as int % 16)]
  {
    hide Chain, HexDigit, ReadMarks, WriteMarks, MinWpos, MinRpos, Buf.Rest, Buf.Marks, Buf.OutputMarks;
    var r := output.U8ToHex(b);
    assert output.Output() == output.Window() && old(output.Output()) == old(output.Window());
  }

  /** Bytes written one after the other. */
  method EmitAll(output: Buf, bytes: seq<byte>)
    requires output.Valid() && output.sent == [] && output.wpos + |bytes| <= output.data.Length
    modifies output`wpos, output`saves, output`sent, output`failed, output`spilled, output.data
    ensures output.Valid() && output.sent == [] && output.wpos == old(output.wpos) + |bytes|
    ensures output.Window() == old(output.Window()) + bytes
    ensures output.data[output.wpos..] == old(output.data[output.wpos + |bytes|..])
  {
    hide Chain;
    ghost var w, tail := output.Window(), output.data[output.wpos..];
    assert tail[0..] == tail;
    assert tail[|bytes|..] == output.data[output.wpos + |bytes|..];
    var i := 0;
    while i < |bytes|
      invariant 0 <= i <= |bytes| && output.Valid() && output.sent == []
      invariant output.wpos == old(output.wpos) + i && output.Window() == w + bytes[..i]
      invariant output.data[output.wpos..] == tail[i..]
    {
      assert output.data[output.wpos + 1..] == output.data[output.wpos..][1..];
      Emit(output, bytes[i]);
      assert tail[i..][1..] == tail[i + 1..];
      assert w + bytes[..i] + [bytes[i]] == w + bytes[..i + 1];
      i := i + 1;
    }
    assert bytes[..i] == bytes;
  }
}
