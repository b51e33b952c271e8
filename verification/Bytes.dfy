/**
Bytes, fixed-width unsigned words and optional values, shared by every module.
Words are integers with an explicit range; arithmetic that the C code lets wrap is
written out with a modulus where it happens.
 */
module Bytes {
  newtype byte = x: int | 0 <= x < 256
  type u32 = x: int | 0 <= x < 0x1_0000_0000
  type u64 = x: int | 0 <= x < 0x1_0000_0000_0000_0000

  const U32_MODULUS := 0x1_0000_0000
  const UW_MAX := 0xffff_ffff_ffff_ffff

  datatype Option<+T> = None | Some(value: T)

  /** The big-endian word stored at an offset. */
  function Be32(data: seq<byte>, at: nat): (r: u32)
    requires at + 4 <= |data|
  {
    data[at] as int * 0x100_0000 + data[at + 1] as int * 0x1_0000
    + data[at + 2] as int * 0x100 + data[at + 3] as int
  }

  /** The big-endian double word stored at an offset. */
  function Be64(data: seq<byte>, at: nat): (r: u64)
    requires at + 8 <= |data|
  {
    Be32(data, at) * U32_MODULUS + Be32(data, at + 4)
  }

  // ---------- writing words ----------

  /** The four bytes of a word, most significant first. */
  function Word(v: nat): (w: seq<byte>)
    ensures |w| == 4
  {
    [(v / 16777216 % 256) as byte, (v / 65536 % 256) as byte, (v / 256 % 256) as byte, (v % 256) as byte]
  }

  function DoubleWord(v: nat): (w: seq<byte>)
    ensures |w| == 8
  {
    Word(v / 4294967296) + Word(v % 4294967296)
  }

  lemma WordReads(data: seq<byte>, at: nat, v: u32)
    requires at + 4 <= |data| && data[at..at + 4] == Word(v)
    ensures Be32(data, at) == v
  {
    var w := data[at..at + 4];
    assert w[0] == data[at] && w[1] == data[at + 1] && w[2] == data[at + 2] && w[3] == data[at + 3];
    Digits256(v);
  }

  /** The base-256 digits of a number below 2^32. */
  lemma Digits256(v: u32)
    ensures v / 16777216 % 256 * 16777216 + v / 65536 % 256 * 65536 + v / 256 % 256 * 256 + v % 256 == v
  {
    assert v / 256 / 256 == v / 65536 && v / 65536 / 256 == v / 16777216 && v / 16777216 < 256;
  }

  lemma DoubleWordReads(data: seq<byte>, at: nat, v: u64)
    requires at + 8 <= |data| && data[at..at + 8] == DoubleWord(v)
    ensures Be64(data, at) == v
  {
    hide Word, Be32;
    assert data[at..at + 4] == data[at..at + 8][..4] == Word(v / 4294967296);
    assert data[at + 4..at + 8] == data[at..at + 8][4..] == Word(v % 4294967296);
    WordReads(data, at, v / 4294967296);
    WordReads(data, at + 4, v % 4294967296);
  }

  // ---------- rows one behind the other ----------

  function Flat<T>(rows: seq<seq<T>>): seq<T> {
    if rows == [] then [] else Flat(rows[..|rows| - 1]) + rows[|rows| - 1]
  }

  /** Row i stands behind the rows in front of it. */
  lemma {:induction false} FlatAt<T>(rows: seq<seq<T>>, i: nat)
    requires i < |rows|
    ensures |Flat(rows[..i + 1])| == |Flat(rows[..i])| + |rows[i]| <= |Flat(rows)|
    ensures Flat(rows)[|Flat(rows[..i])|..|Flat(rows[..i])| + |rows[i]|] == rows[i]
    decreases |rows|
  {
    var n := |rows| - 1;
    assert rows[..n + 1] == rows;
    assert rows[..i + 1][..i] == rows[..i] && rows[..i + 1][i] == rows[i];
    if i < n {
      FlatAt(rows[..n], i);
      assert rows[..n][..i] == rows[..i] && rows[..n][..i + 1] == rows[..i + 1];
    }
  }

  /** Rows of one size stand at multiples of it. */
  lemma {:induction false} FlatSize<T>(rows: seq<seq<T>>, size: nat)
    requires forall i :: 0 <= i < |rows| ==> |rows[i]| == size
    ensures |Flat(rows)| == |rows| * size
  {
    if rows != [] {
      FlatSize(rows[..|rows| - 1], size);
      assert (|rows| - 1) * size + size == |rows| * size;
    }
  }

  /** The rows stand in the data, from an offset on. */
  ghost predicate RowsStored(data: seq<byte>, at: nat, rows: seq<seq<byte>>) {
    at + |Flat(rows)| <= |data| && data[at..at + |Flat(rows)|] == Flat(rows)
  }

  /** Row i of stored rows of one size. */
  lemma RowStored(data: seq<byte>, at: nat, rows: seq<seq<byte>>, size: nat, i: nat)
    requires RowsStored(data, at, rows)
    requires i < |rows| && forall k :: 0 <= k < |rows| ==> |rows[k]| == size
    ensures at + i * size + size <= |data| && data[at + i * size..at + i * size + size] == rows[i]
  {
    hide Flat;
    var before := |Flat(rows[..i])|;
    FlatAt(rows, i);
    FlatSize(rows[..i], size);
    assert |rows[..i]| == i;
    assert before == i * size;
    SliceOfSlice(data, at, |Flat(rows)|, before, size);
    assert data[at..at + |Flat(rows)|][before..before + size] == rows[i];
  }

  lemma SliceOfSlice(data: seq<byte>, at: nat, size: nat, from: nat, n: nat)
    requires at + size <= |data| && from + n <= size
    ensures data[at..at + size][from..from + n] == data[at + from..at + from + n]
  {
    var outer, inner := data[at..at + size], data[at + from..at + from + n];
    forall k | 0 <= k < n ensures outer[from..from + n][k] == inner[k] {
      assert outer[from + k] == data[at + from + k];
    }
  }
}
