/**
The byte buffer (libkc3/buf.c, buf_save.c) and its file and descriptor ends
(libkc3/buf_file.c, buf_fd.c): a bounded window over an unbounded stream, with a stack of
save points.

A reader is understood as a pure stream: what is still to be read from the cursor, and
from each save. A writer is understood as what the device has accepted followed by what is
pending, cut at each save. The methods are proved against these two views.
 */
module Buffer {
  import opened Bytes
  import opened Utf8

  const SW_MAX := 0x7fff_ffff_ffff_ffff

  /** The refill and flush callbacks that can be installed. */
  datatype Callback = NoCallback | FileCallback | FdCallback

  /** The s_buf_save chain lives in stack frames; innermost first. */
  datatype Save = Save(rpos: nat, wpos: nat)

  // ---------- chains of saves ----------

  /** Cursors are in order, and an older save is never ahead of a newer one or of the cursors. */
  predicate Chain(saves: seq<Save>, rpos: nat, wpos: nat) {
    saves == [] || (&& saves[0].rpos <= rpos && saves[0].wpos <= wpos && saves[0].rpos <= saves[0].wpos
                    && Chain(saves[1..], saves[0].rpos, saves[0].wpos))
  }

  function Min(a: nat, b: nat): nat {
    if a < b then a else b
  }

  /** Smallest read cursor of a chain and a start value. */
  function MinRpos(start: nat, saves: seq<Save>): nat {
    if saves == [] then start else MinRpos(Min(saves[0].rpos, start), saves[1..])
  }

  function MinWpos(start: nat, saves: seq<Save>): nat {
    if saves == [] then start else MinWpos(Min(saves[0].wpos, start), saves[1..])
  }

  function Back(p: nat, n: nat): nat {
    if n <= p then p - n else 0
  }

  /** Every save moved towards the front of the window. */
  function Rebase(saves: seq<Save>, r: nat, w: nat): (moved: seq<Save>)
    ensures |moved| == |saves|
  {
    if saves == [] then []
    else [Save(Back(saves[0].rpos, r), Back(saves[0].wpos, w))] + Rebase(saves[1..], r, w)
  }

  /** The window from a position on. */
  function Behind(window: seq<byte>, p: nat): seq<byte> {
    if p <= |window| then window[p..] else []
  }

  /** The window up to a position. */
  function Before(window: seq<byte>, p: nat): seq<byte> {
    if p <= |window| then window[..p] else window
  }

  /** What a reader would read again from each save, innermost first. */
  function ReadMarks(saves: seq<Save>, window: seq<byte>, unread: seq<byte>): seq<seq<byte>> {
    if saves == [] then []
    else [Behind(window, saves[0].rpos) + unread] + ReadMarks(saves[1..], window, unread)
  }

  /** What a writer had put out at each save, innermost first. */
  function WriteMarks(saves: seq<Save>, sent: seq<byte>, window: seq<byte>): seq<seq<byte>> {
    if saves == [] then []
    else [sent + Before(window, saves[0].wpos)] + WriteMarks(saves[1..], sent, window)
  }

  lemma {:induction false} ChainWeaken(saves: seq<Save>, rpos: nat, wpos: nat, r: nat, w: nat)
    requires Chain(saves, rpos, wpos) && rpos <= r && wpos <= w
    ensures Chain(saves, r, w)
  {
  }

  /** On a chain the smallest cursor is found by going outwards. */
  lemma {:induction false} MinOfChain(saves: seq<Save>, rpos: nat, wpos: nat)
    requires Chain(saves, rpos, wpos)
    ensures MinRpos(rpos, saves) <= rpos
    ensures saves != [] ==> MinRpos(rpos, saves) == MinRpos(saves[0].rpos, saves[1..])
  {
    if saves != [] { MinOfChain(saves[1..], saves[0].rpos, saves[0].wpos); }
  }

  /** The same for the write cursors. */
  lemma {:induction false} MinWriteOfChain(saves: seq<Save>, rpos: nat, wpos: nat)
    requires Chain(saves, rpos, wpos)
    ensures MinWpos(wpos, saves) <= wpos
    ensures saves != [] ==> MinWpos(wpos, saves) == MinWpos(saves[0].wpos, saves[1..])
  {
    if saves != [] { MinWriteOfChain(saves[1..], saves[0].rpos, saves[0].wpos); }
  }

  lemma {:induction false} RebaseChain(saves: seq<Save>, rpos: nat, wpos: nat, m: nat)
    requires Chain(saves, rpos, wpos) && rpos <= wpos && m <= MinRpos(rpos, saves)
    ensures m <= rpos && Chain(Rebase(saves, m, m), rpos - m, wpos - m)
  {
    MinOfChain(saves, rpos, wpos);
    if saves != [] {
      RebaseChain(saves[1..], saves[0].rpos, saves[0].wpos, m);
      assert Rebase(saves, m, m)[1..] == Rebase(saves[1..], m, m);
    }
  }

  lemma {:induction false} RebaseMin(saves: seq<Save>, rpos: nat, wpos: nat, m: nat)
    requires Chain(saves, rpos, wpos) && rpos <= wpos && m <= MinRpos(rpos, saves)
    ensures m <= rpos && MinRpos(rpos - m, Rebase(saves, m, m)) == MinRpos(rpos, saves) - m
  {
    MinOfChain(saves, rpos, wpos);
    RebaseChain(saves, rpos, wpos, m);
    MinOfChain(Rebase(saves, m, m), rpos - m, wpos - m);
    if saves != [] {
      RebaseMin(saves[1..], saves[0].rpos, saves[0].wpos, m);
      assert Rebase(saves, m, m)[1..] == Rebase(saves[1..], m, m);
    }
  }

  lemma {:induction false} RebaseReadMarks(saves: seq<Save>, rpos: nat, wpos: nat, window: seq<byte>,
                        unread: seq<byte>, m: nat)
    requires Chain(saves, rpos, wpos) && rpos <= wpos <= |window| && m <= MinRpos(rpos, saves)
    ensures m <= rpos && ReadMarks(Rebase(saves, m, m), window[m..], unread) == ReadMarks(saves, window, unread)
  {
    hide MinRpos, Behind;
    MinOfChain(saves, rpos, wpos);
    if saves != [] {
      MinOfChain(saves[1..], saves[0].rpos, saves[0].wpos);
      RebaseReadMarks(saves[1..], saves[0].rpos, saves[0].wpos, window, unread, m);
      BehindMoved(window, m, saves[0].rpos);
      assert Rebase(saves, m, m)[1..] == Rebase(saves[1..], m, m);
    }
  }

  lemma BehindMoved(window: seq<byte>, m: nat, p: nat)
    requires m <= p <= |window|
    ensures Behind(window[m..], p - m) == Behind(window, p)
  {
  }

  /** Dropping everything in front of the oldest cursor changes nothing a reader can see. */
  lemma CompactKeeps(saves: seq<Save>, rpos: nat, window: seq<byte>, unread: seq<byte>, m: nat)
    requires Chain(saves, rpos, |window|) && rpos <= |window| && m == MinRpos(rpos, saves)
    ensures m <= rpos
    ensures Chain(Rebase(saves, m, m), rpos - m, |window| - m)
    ensures MinRpos(rpos - m, Rebase(saves, m, m)) == 0
    ensures ReadMarks(Rebase(saves, m, m), window[m..], unread) == ReadMarks(saves, window, unread)
    ensures Behind(window[m..], rpos - m) == Behind(window, rpos)
  {
    hide Chain, MinRpos, Rebase, ReadMarks;
    RebaseChain(saves, rpos, |window|, m);
    RebaseMin(saves, rpos, |window|, m);
    RebaseReadMarks(saves, rpos, |window|, window, unread, m);
  }

  lemma {:induction false} AppendReadMarks(saves: seq<Save>, rpos: nat, wpos: nat, window: seq<byte>,
                        unread: seq<byte>, n: nat)
    requires Chain(saves, rpos, wpos) && rpos <= wpos <= |window| && n <= |unread|
    ensures ReadMarks(saves, window + unread[..n], unread[n..]) == ReadMarks(saves, window, unread)
  {
    if saves != [] {
      AppendReadMarks(saves[1..], saves[0].rpos, saves[0].wpos, window, unread, n);
      AppendBehind(window, unread, n, saves[0].rpos);
      hide Chain, Behind;
    }
  }

  /** Bytes that move from the device into the window stay where they are in the stream. */
  lemma AppendBehind(window: seq<byte>, unread: seq<byte>, n: nat, p: nat)
    requires p <= |window| && n <= |unread|
    ensures Behind(window + unread[..n], p) + unread[n..] == Behind(window, p) + unread
  {
    assert Behind(window + unread[..n], p) == window[p..] + unread[..n];
    assert unread == unread[..n] + unread[n..];
  }

  // ---------- the writer's side of a chain ----------

  /** With nothing read, what has been flushed leaves every save where it was in the output. */
  lemma {:induction false} FlushKeepsMarks(saves: seq<Save>, wpos: nat, sent: seq<byte>, window: seq<byte>, n: nat)
    requires Chain(saves, 0, wpos) && wpos <= |window| && n <= MinWpos(wpos, saves)
    ensures n <= wpos && Chain(Rebase(saves, 0, n), 0, wpos - n)
    ensures WriteMarks(Rebase(saves, 0, n), sent + window[..n], window[n..]) == WriteMarks(saves, sent, window)
  {
    MinWriteOfChain(saves, 0, wpos);
    if saves != [] {
      FlushKeepsMarks(saves[1..], saves[0].wpos, sent, window, n);
      hide Chain, MinWpos;
      var moved := Rebase(saves, 0, n);
      assert moved[1..] == Rebase(saves[1..], 0, n) && moved[0].wpos == saves[0].wpos - n;
      hide Rebase;
      assert sent + window[..n] + Before(window[n..], saves[0].wpos - n) == sent + Before(window, saves[0].wpos);
    }
  }

  /** A flush brings the oldest write cursor nearer to the front by what was flushed. */
  lemma {:induction false} FlushLowersMin(saves: seq<Save>, start: nat, n: nat)
    requires n <= MinWpos(start, saves) && n <= start
    ensures MinWpos(start - n, Rebase(saves, 0, n)) == MinWpos(start, saves) - n
  {
    if saves != [] {
      MinWposBelow(Min(saves[0].wpos, start), saves[1..]);
      FlushLowersMin(saves[1..], Min(saves[0].wpos, start), n);
      assert Rebase(saves, 0, n)[1..] == Rebase(saves[1..], 0, n);
    }
  }

  lemma {:induction false} MinWposBelow(start: nat, saves: seq<Save>)
    ensures MinWpos(start, saves) <= start
  {
    if saves != [] { MinWposBelow(Min(saves[0].wpos, start), saves[1..]); }
  }

  lemma {:induction false} GrowKeepsWriteMarks(saves: seq<Save>, rpos: nat, sent: seq<byte>, window: seq<byte>,
                        more: seq<byte>)
    requires Chain(saves, rpos, |window|)
    ensures WriteMarks(saves, sent, window + more) == WriteMarks(saves, sent, window)
  {
    if saves != [] {
      ChainWeaken(saves[1..], saves[0].rpos, saves[0].wpos, saves[0].rpos, |window|);
      GrowKeepsWriteMarks(saves[1..], saves[0].rpos, sent, window, more);
      hide Chain;
      assert Before(window + more, saves[0].wpos) == Before(window, saves[0].wpos);
    }
  }

  lemma {:induction false} CutKeepsWriteMarks(saves: seq<Save>, rpos: nat, sent: seq<byte>, window: seq<byte>, w: nat)
    requires Chain(saves, rpos, w) && w <= |window|
    ensures WriteMarks(saves, sent, window[..w]) == WriteMarks(saves, sent, window)
  {
    GrowKeepsWriteMarks(saves, rpos, sent, window[..w], window[w..]);
    assert window[..w] + window[w..] == window;
  }

  lemma SplitOutput(sent: seq<byte>, window: seq<byte>, n: nat)
    requires n <= |window|
    ensures sent + window[..n] + window[n..] == sent + window
  {
    assert window[..n] + window[n..] == window;
  }

  class Buf {
    const data: array<byte>
    const readOnly: bool
    const refill: Callback
    const flush: Callback
    const reliable: bool    // the reading end never fails, and delivers something until its end
    const working: bool     // the writing end never fails
    var rpos: nat
    var wpos: nat
    var saves: seq<Save>
    var unread: seq<byte>   // what the reading end of the device has yet to deliver
    var sent: seq<byte>     // what the writing end of the device has accepted
    var failed: bool        // a file end that reported a write error
    var spilled: seq<byte>  // what the failed write has put into the file all the same
    var baseColumn: nat     // spaces written behind a newline

    predicate Valid()
      reads this
    {
      rpos <= wpos <= data.Length && Chain(saves, rpos, wpos)
    }

    // ---------- the reader's view ----------

    function Window(): seq<byte>
      reads this, data
      requires Valid()
    {
      data[..wpos]
    }

    /** What is still to be read. */
    function Rest(): seq<byte>
      reads this, data
      requires Valid()
    {
      Behind(Window(), rpos) + unread
    }

    /** What each save would read again, innermost first. */
    function Marks(): seq<seq<byte>>
      reads this, data
      requires Valid()
    {
      ReadMarks(saves, Window(), unread)
    }

    // ---------- the writer's view ----------

    /** Everything put out so far: accepted by the device, then pending. */
    function Output(): seq<byte>
      reads this, data
      requires Valid()
    {
      sent + Window()
    }

    /** What had been put out at each save, innermost first. */
    function OutputMarks(): seq<seq<byte>>
      reads this, data
      requires Valid()
    {
      WriteMarks(saves, sent, Window())
    }

    /** The whole stream is in the window and no callback can fail. */
    predicate InMemory()
      reads this
    {
      unread == [] && (readOnly || refill.NoCallback?)
    }

    /**
    Everything that is still to be read is within reach: it is in memory, or the device is
    reliable and the window has room for all of it behind the oldest cursor.
     */
    predicate Ample()
      reads this, data
      requires Valid()
    {
      || InMemory()
      || (reliable && !readOnly && !refill.NoCallback?
          && |Rest()| + rpos <= data.Length + MinRpos(rpos, saves))
    }

    /** A reader that is never cut short: in memory, or a reliable device with no save open. */
    predicate Flowing()
      reads this
    {
      InMemory() || (reliable && !readOnly && !refill.NoCallback? && saves == [] && data.Length > 0)
    }

    /** So many bytes are there, and the window has room for them behind the oldest cursor. */
    predicate Reaches(size: nat)
      reads this, data
      requires Valid()
    {
      && size <= |Rest()|
      && (InMemory() || (reliable && !readOnly && !refill.NoCallback?
                         && rpos + size <= data.Length + MinRpos(rpos, saves)))
    }

    /** A writer that is never cut short: its end works and nothing has been read. */
    predicate Working()
      reads this
    {
      working && !failed && rpos == 0 && !flush.NoCallback?
    }

    /** The bytes that fit at the end of the window, or would after one flush. */
    function Room(): nat
      reads this
      requires Valid()
    {
      data.Length - wpos + if Working() then MinWpos(wpos, saves) else 0
    }

    // ---------- construction ----------

    /** buf_init_const: a read-only window over given bytes. */
    constructor Const(bytes: seq<byte>)
      ensures Valid() && InMemory() && Rest() == bytes && Marks() == [] && fresh(data)
      ensures readOnly && rpos == 0 && saves == [] && wpos == data.Length == |bytes|
    {
      data := new byte[|bytes|](i requires 0 <= i < |bytes| => bytes[i]);
      readOnly, refill, flush := true, NoCallback, NoCallback;
      rpos, wpos, saves := 0, |bytes|, [];
      unread, sent, failed, spilled, baseColumn, reliable, working := [], [], false, [], 0, true, true;
      new;
      assert Behind(Window(), 0) + [] == bytes;
    }

    /** buf_init_alloc, with the callbacks of buf_file_open_r, buf_fd_open_w and so on. */
    constructor Alloc(size: nat, refill: Callback, flush: Callback, stream: seq<byte>, reliable: bool := false,
                       working: bool := false)
      ensures Valid() && Rest() == stream && Marks() == [] && fresh(data)
      ensures data.Length == size && rpos == wpos == 0 && saves == [] && unread == stream
      ensures this.refill == refill && this.flush == flush && !readOnly && sent == [] && !failed
      ensures data[..] == seq(size, _ => 0) && spilled == [] && baseColumn == 0
      ensures this.reliable == reliable && this.working == working
    {
      data := new byte[size](_ => 0);
      readOnly := false;
      this.refill, this.flush := refill, flush;
      rpos, wpos, saves := 0, 0, [];
      unread, sent, failed, spilled, baseColumn := stream, [], false, [], 0;
      this.reliable, this.working := reliable, working;
    }

    // ---------- saves ----------

    /** buf_save_init. */
    method SaveInit()
      requires Valid()
      modifies this`saves
      ensures Valid() && saves == [Save(rpos, wpos)] + old(saves)
      ensures Rest() == old(Rest()) && Marks() == [old(Rest())] + old(Marks())
      ensures Output() == old(Output()) && OutputMarks() == [old(Output())] + old(OutputMarks())
      ensures MinWpos(wpos, saves) == old(MinWpos(wpos, saves))
      ensures old(Ample()) ==> Ample()
    {
      hide Chain;
      assert Before(Window(), wpos) == Window();
      SavedChain();
      saves := [Save(rpos, wpos)] + saves;
    }

    lemma SavedChain()
      requires Valid()
      ensures Chain([Save(rpos, wpos)] + saves, rpos, wpos)
      ensures ([Save(rpos, wpos)] + saves)[1..] == saves
    {
    }

    /** buf_save_clean. */
    method SaveClean()
      requires Valid() && saves != []
      modifies this`saves
      ensures Valid() && saves == old(saves)[1..]
      ensures Rest() == old(Rest()) && Marks() == old(Marks())[1..]
      ensures Output() == old(Output()) && OutputMarks() == old(OutputMarks())[1..]
      ensures old(Ample()) ==> Ample()
    {
      MinOfChain(saves, rpos, wpos);
      MinOfChain(saves[1..], saves[0].rpos, saves[0].wpos);
      ChainWeaken(saves[1..], saves[0].rpos, saves[0].wpos, rpos, wpos);
      saves := saves[1..];
    }

    /** buf_save_restore_rpos: the stream is again what it was at the save. */
    method SaveRestoreRpos()
      requires Valid() && saves != []
      modifies this`rpos
      ensures Valid() && rpos == saves[0].rpos
      ensures Rest() == old(Marks())[0] && Marks() == old(Marks())
      ensures old(Ample()) ==> Ample()
    {
      MinOfChain(saves, rpos, wpos);
      rpos := saves[0].rpos;
    }

    /** buf_save_min_rpos. */
    method SaveMinRpos() returns (m: nat)
      ensures m == MinRpos(rpos, saves)
    {
      m := rpos;
      var i := 0;
      assert saves[0..] == saves;
      while i < |saves|
        invariant 0 <= i <= |saves|
        invariant MinRpos(rpos, saves) == MinRpos(m, saves[i..])
      {
        assert saves[i..][1..] == saves[i + 1..];
        if saves[i].rpos < m {
          m := saves[i].rpos;
        }
        i := i + 1;
      }
    }

    /** buf_save_min_wpos. */
    method SaveMinWpos() returns (m: nat)
      ensures m == MinWpos(wpos, saves)
    {
      m := wpos;
      var i := 0;
      assert saves[0..] == saves;
      while i < |saves|
        invariant 0 <= i <= |saves|
        invariant MinWpos(wpos, saves) == MinWpos(m, saves[i..])
      {
        assert saves[i..][1..] == saves[i + 1..];
        if saves[i].wpos < m {
          m := saves[i].wpos;
        }
        i := i + 1;
      }
    }

    /** The loops over the chain that move every save. */
    method RebaseSaves(r: nat, w: nat)
      modifies this`saves
      ensures saves == Rebase(old(saves), r, w)
    {
      var moved, i := [], 0;
      assert saves[0..] == saves;
      while i < |saves|
        invariant 0 <= i <= |saves| && saves == old(saves)
        invariant Rebase(saves, r, w) == moved + Rebase(saves[i..], r, w)
      {
        assert saves[i..][1..] == saves[i + 1..];
        moved := moved + [Save(Back(saves[i].rpos, r), Back(saves[i].wpos, w))];
        i := i + 1;
      }
      saves := moved;
    }

    // ---------- refilling ----------

    /** memmove to the start of the window. */
    method MoveToFront(from: nat, size: nat)
      requires from + size <= data.Length
      modifies data
      ensures data[..size] == old(data[from..from + size])
    {
      forall i | 0 <= i < size {
        data[i] := data[from + i];
      }
    }

    /** The moving part of the compaction. */
    method DropFront(min: nat)
      requires min <= rpos <= wpos <= data.Length
      modifies this`rpos, this`wpos, this`saves, data
      ensures rpos == old(rpos) - min && wpos == old(wpos) - min && saves == Rebase(old(saves), min, min)
      ensures data[..wpos] == old(data[..wpos])[min..]
    {
      if min == wpos {
        rpos, wpos := 0, 0;
      } else {
        MoveToFront(min, wpos - min);
        rpos, wpos := rpos - min, wpos - min;
      }
      RebaseSaves(min, min);
    }

    /**
    buf_refill_compact: the bytes in front of the oldest cursor leave the window and every
    cursor is rebased. The C checks of the cursor order cannot fail on a valid buffer.
     */
    method RefillCompact() returns (r: int)
      requires Valid()
      modifies this`rpos, this`wpos, this`saves, data
      ensures Valid() && r >= 0 && |saves| == |old(saves)|
      ensures Rest() == old(Rest()) && Marks() == old(Marks())
      ensures wpos - rpos == old(wpos - rpos) && wpos <= old(wpos)
      ensures !readOnly ==> MinRpos(rpos, saves) == 0
      ensures rpos - MinRpos(rpos, saves) == old(rpos - MinRpos(rpos, saves))
    {
      if readOnly { return 0; }
      hide MinRpos, ReadMarks, Rebase, Chain, Behind;
      var min := SaveMinRpos();
      CompactKeeps(saves, rpos, data[..wpos], unread, min);
      if min > 0 {
        DropFront(min);
      }
      return 1;
    }

    /** memcpy to the end of the window. */
    method CopyIn(bytes: seq<byte>)
      requires wpos + |bytes| <= data.Length
      modifies data
      ensures data[..wpos + |bytes|] == old(data[..wpos]) + bytes
      ensures data[wpos + |bytes|..] == old(data[wpos + |bytes|..])
    {
      forall i | 0 <= i < |bytes| {
        data[wpos + i] := bytes[i];
      }
    }

    /** The device puts n more bytes into the window. */
    method Deliver(n: nat)
      requires Valid() && n <= |unread| && wpos + n <= data.Length
      modifies this`wpos, this`unread, data
      ensures Valid() && wpos == old(wpos) + n && unread == old(unread)[n..]
      ensures Rest() == old(Rest()) && Marks() == old(Marks())
    {
      hide Chain, ReadMarks, Behind;
      AppendReadMarks(saves, rpos, wpos, data[..wpos], unread, n);
      AppendBehind(data[..wpos], unread, n, rpos);
      CopyIn(unread[..n]);
      ChainHolds(n);
      wpos := wpos + n;
      unread := unread[n..];
    }

    lemma ChainHolds(n: nat)
      requires Chain(saves, rpos, wpos)
      ensures Chain(saves, rpos, wpos + n)
    {
      ChainWeaken(saves, rpos, wpos, rpos, wpos + n);
    }

    /**
    buf_file_open_r_refill and buf_fd_open_r_refill: the device delivers some bytes that
    fit, none at its end, or fails; a file end refuses a full window.
     */
    method CallRefill() returns (r: int)
      requires Valid() && !readOnly && !refill.NoCallback?
      modifies this`wpos, this`unread, data
      ensures Valid() && r >= -1
      ensures wpos == old(wpos) + (if r > 0 then r else 0)
      ensures Rest() == old(Rest()) && Marks() == old(Marks())
      ensures reliable && old(wpos) < data.Length && old(unread) != [] ==> r > 0
    {
      if refill.FileCallback? && wpos >= data.Length { return -1; }
      var least := if !reliable then -1 else if wpos < data.Length && unread != [] then 1 else 0;
      var n: int :| least <= n <= |unread| && n <= data.Length - wpos;
      if n < 0 { return -1; }
      Deliver(n);
      return n;
    }

    /** buf_refill: at least `size` bytes in the window unless the stream or the window ends. */
    method Refill(size: nat) returns (r: int)
      requires Valid()
      modifies this`rpos, this`wpos, this`saves, this`unread, data
      ensures Valid() && |saves| == |old(saves)|
      ensures Rest() == old(Rest()) && Marks() == old(Marks())
      ensures r == -1 || r == wpos - rpos
      ensures old(wpos - rpos) >= size ==> r == wpos - rpos
      ensures old(InMemory()) ==> InMemory() && r == wpos - rpos == |Rest()|
      ensures old(Ample()) ==> Ample() && (r >= size || |Rest()| < size)
      ensures old(Reaches(size)) ==> r >= size
      ensures old(Flowing()) ==> Flowing()
      ensures wpos - rpos >= old(wpos - rpos)
    {
      hide Chain, ReadMarks, Behind, MinRpos;
      ghost var reach := Reaches(size);
      r := wpos - rpos;
      RestSize();
      if readOnly || size == 0 { return; }
      if rpos + size > wpos {
        r := RefillCompact();
        RestSize();
        if !refill.NoCallback? {
          while true
            invariant Valid() && |saves| == |old(saves)|
            invariant Rest() == old(Rest()) && Marks() == old(Marks())
            invariant wpos - rpos >= old(wpos - rpos) && wpos - rpos < size
            invariant MinRpos(rpos, saves) == 0 && (old(Ample()) ==> Ample())
            invariant reach ==> rpos + size <= data.Length || InMemory()
            invariant old(InMemory()) ==> InMemory()
            decreases data.Length - wpos
          {
            RestSize();
            r := CallRefill();
            RestSize();
            if r < 0 { return; }
            if r == 0 {
              return wpos - rpos;
            }
            if wpos - rpos >= size { break; }
          }
        }
      }
      r := wpos - rpos;
    }

    lemma RestSize()
      requires Valid()
      ensures |Rest()| == wpos - rpos + |unread|
    {
    }

    lemma MemoryRest()
      requires Valid()
      ensures |Rest()| == wpos - rpos + |unread|
      ensures forall i :: 0 <= i < wpos - rpos ==> Rest()[i] == data[rpos + i]
    {
    }

    // ---------- reading ----------

    /** buf_peek_u8: 1 with the next byte, or -1. */
    method PeekU8() returns (r: int, b: byte)
      requires Valid()
      modifies this`rpos, this`wpos, this`saves, this`unread, data
      ensures Valid() && |saves| == |old(saves)|
      ensures Rest() == old(Rest()) && Marks() == old(Marks())
      ensures old(InMemory()) ==> InMemory()
      ensures old(Ample()) ==> Ample() && (r == 1 <==> Rest() != [])
      ensures r == 1 || r == -1
      ensures old(rpos < wpos) ==> r == 1 && wpos - rpos == old(wpos - rpos)
      ensures r == 1 ==> rpos < wpos && Rest() != [] && b == Rest()[0]
    {
      b := 0;
      hide Chain, ReadMarks, Behind;
      if rpos + 1 > wpos {
        r := Refill(1);
        MemoryRest();
        if r < 1 { return -1, b; }
      }
      MemoryRest();
      b := data[rpos];
      r := 1;
    }

    /** The cursor moves over bytes of the window. */
    method Advance(n: nat)
      requires Valid() && rpos + n <= wpos
      modifies this`rpos
      ensures Valid() && rpos == old(rpos) + n
      ensures n <= |old(Rest())| && Rest() == old(Rest())[n..] && Marks() == old(Marks())
      ensures old(Ample()) ==> Ample()
    {
      ChainWeaken(saves, rpos, wpos, rpos + n, wpos);
      MinOfChain(saves, rpos, wpos);
      MinOfChain(saves, rpos + n, wpos);
      hide Chain, ReadMarks;
      rpos := rpos + n;
    }

    /** buf_read_u8. */
    method ReadU8() returns (r: int, b: byte)
      requires Valid()
      modifies this`rpos, this`wpos, this`saves, this`unread, data
      ensures Valid() && |saves| == |old(saves)| && Marks() == old(Marks())
      ensures old(InMemory()) ==> InMemory()
      ensures old(Ample()) ==> Ample() && (r == 1 <==> old(Rest()) != [])
      ensures r == 1 || (r == -1 && Rest() == old(Rest()))
      ensures old(rpos < wpos) ==> r == 1 && wpos - rpos == old(wpos - rpos) - 1
      ensures r == 1 ==> old(Rest()) != [] && b == old(Rest())[0] && Rest() == old(Rest())[1..]
    {
      r, b := PeekU8();
      if r > 0 {
        hide Chain, ReadMarks, Behind;
        Advance(1);
      }
    }

    /** The loop over the bytes behind the first one of a character. */
    method Continued(n: nat) returns (ok: bool)
      requires Valid() && 1 <= n && rpos + n <= wpos
      ensures n <= |Rest()| && (ok <==> forall j :: 1 <= j < n ==> IsContinuation(Rest()[j]))
    {
      hide Chain, Behind;
      MemoryRest();
      var i := 1;
      while i < n
        invariant 1 <= i <= n
        invariant forall j :: 1 <= j < i ==> IsContinuation(Rest()[j])
      {
        if !IsContinuation(data[rpos + i]) {
          assert !IsContinuation(Rest()[i]);
          return false;
        }
        i := i + 1;
      }
      return true;
    }

    /**
    buf_peek_character_utf8: the size of the next character, 0 when the bytes cannot start
    one, -1 when bytes are missing.
     */
    method PeekCharacterUtf8() returns (r: int, c: nat)
      requires Valid()
      modifies this`rpos, this`wpos, this`saves, this`unread, data
      ensures Valid() && |saves| == |old(saves)|
      ensures Rest() == old(Rest()) && Marks() == old(Marks())
      ensures r >= -1 && (r > 0 ==> Decode(Rest()) == Char(c, r) && rpos + r <= wpos)
      ensures r == 0 ==> Decode(Rest()).Bad?
      ensures wpos - rpos >= old(wpos - rpos)
      ensures old(InMemory()) ==> InMemory()
      ensures old(Ample()) ==> Ample() && (r == -1 <==> Decode(Rest()).Short?)
    {
      hide Chain, ReadMarks, Behind, MinRpos, Value;
      c := 0;
      r := Refill(1);
      MemoryRest();
      if r < 1 { return -1, c; }
      var n := Announced(data[rpos]);
      if n == 0 { return 0, c; }
      if n > 1 {
        r := Refill(n);
        MemoryRest();
        if r < n { return -1, c; }
        var continued := Continued(n);
        if !continued { return 0, c; }
      }
      ValueOfFront(data[rpos..rpos + n], Rest());
      c := Value(data[rpos..rpos + n], n);
      r := n;
    }

    /** buf_read_character_utf8. */
    method ReadCharacterUtf8() returns (r: int, c: nat)
      requires Valid()
      modifies this`rpos, this`wpos, this`saves, this`unread, data
      ensures Valid() && |saves| == |old(saves)| && Marks() == old(Marks())
      ensures r >= -1 && (r > 0 ==> Decode(old(Rest())) == Char(c, r) && Rest() == old(Rest())[r..])
      ensures r <= 0 ==> Rest() == old(Rest())
      ensures r == 0 ==> Decode(Rest()).Bad?
      ensures wpos - rpos >= old(wpos - rpos) - (if r > 0 then r else 0)
      ensures old(InMemory()) ==> InMemory()
      ensures old(Ample()) ==> Ample() && (r == -1 <==> Decode(old(Rest())).Short?)
    {
      hide Chain, ReadMarks, Behind, Decode;
      r, c := PeekCharacterUtf8();
      if r > 0 {
        Advance(r);
      }
    }

    lemma SkipDone(s: seq<byte>, i: nat, size: nat)
      requires size <= i <= |s|
      ensures SkipEnd(s, i, size) == i
    {
    }

    /** One round of the loop of buf_ignore: a character, else a byte. */
    method SkipOne() returns (n: nat)
      requires Valid() && rpos < wpos
      modifies this`rpos, this`wpos, this`saves, this`unread, data
      ensures Valid() && |saves| == |old(saves)| && Marks() == old(Marks())
      ensures (n == 1 || n == SkipStep(old(Rest()))) && n <= 4
      ensures old(InMemory()) ==> InMemory()
      ensures old(Ample()) ==> Ample() && n == SkipStep(old(Rest()))
      ensures 1 <= n <= |old(Rest())| && Rest() == old(Rest())[n..] && wpos - rpos >= old(wpos - rpos) - n
    {
      hide Chain, ReadMarks, Behind, Decode;
      RestSize();
      var r, _ := ReadCharacterUtf8();
      if r > 0 { return r; }
      var b;
      r, b := ReadU8();
      n := 1;
    }

    /** The loop of buf_ignore over bytes that are all in the window. */
    method SkipAll(size: nat)
      requires Valid() && size <= wpos - rpos
      modifies this`rpos, this`wpos, this`saves, this`unread, data
      ensures Valid() && |saves| == |old(saves)| && Marks() == old(Marks())
      ensures size <= |old(Rest())|
      ensures Aligned(old(Rest()), size) ==> Rest() == old(Rest())[size..]
      ensures exists k :: size <= k < size + 4 && k <= |old(Rest())| && Rest() == old(Rest())[k..]
      ensures old(InMemory()) ==> InMemory()
      ensures old(Ample()) ==> Ample() && Rest() == old(Rest())[SkipEnd(old(Rest()), 0, size)..]
    {
      hide Chain, ReadMarks, Behind, Decode, SkipEnd, SkipStep, Aligned;
      RestSize();
      ghost var s := Rest();
      assert s[0..] == s;
      var i := 0;
      ghost var ample := Ample();
      while i < size
        invariant Valid() && |saves| == |old(saves)| && Marks() == old(Marks())
        invariant 0 <= i <= |s| && Rest() == s[i..] && wpos - rpos >= size - i
        invariant i < size + 4 && (old(InMemory()) ==> InMemory())
        invariant ample ==> Ample() && SkipEnd(s, 0, size) == SkipEnd(s, i, size)
        invariant Aligned(s, size) ==> i <= size
      {
        SkipOneStep(s, i, size);
        var n := SkipOne();
        assert s[i..][n..] == s[i + n..];
        i := i + n;
      }
      SkipDone(s, i, size);
    }

    /**
    buf_ignore: refuses, leaving the stream alone, when fewer bytes are there; else it
    skips characters until at least `size` bytes are gone.
     */
    method Ignore(size: nat) returns (r: int)
      requires Valid()
      modifies this`rpos, this`wpos, this`saves, this`unread, data
      ensures Valid() && |saves| == |old(saves)| && Marks() == old(Marks())
      ensures r == size || (r == -1 && Rest() == old(Rest()))
      ensures r == size ==> size <= |old(Rest())|
      ensures r == size && Aligned(old(Rest()), size) ==> Rest() == old(Rest())[size..]
      ensures old(wpos - rpos) >= size ==> r == size
      ensures r == size ==> exists k :: size <= k < size + 4 && k <= |old(Rest())| && Rest() == old(Rest())[k..]
      ensures old(InMemory()) ==> InMemory()
      ensures old(Ample()) ==> Ample() && (r == size <==> size <= |old(Rest())|)
      ensures old(Ample()) && r == size ==> Rest() == old(Rest())[SkipEnd(old(Rest()), 0, size)..]
    {
      hide Chain, ReadMarks, Behind, Decode, SkipEnd, SkipStep, Aligned;
      if size == 0 {
        SkipDone(Rest(), 0, 0);
        assert Rest()[0..] == Rest();
        return 0;
      }
      r := Refill(size);
      RestSize();
      if r < size { return -1; }
      SkipAll(size);
      r := size;
    }

    /** buf_peek_str: the length of the string when the stream starts with it, else 0. */
    method PeekStr(src: seq<byte>) returns (r: int)
      requires Valid()
      modifies this`rpos, this`wpos, this`saves, this`unread, data
      ensures Valid() && |saves| == |old(saves)|
      ensures Rest() == old(Rest()) && Marks() == old(Marks())
      ensures r == 0 || (r == |src| && r > 0 && src <= Rest() && wpos - rpos >= r)
      ensures old(InMemory()) ==> InMemory()
      ensures old(Ample()) ==> Ample() && (r == 0 <==> src == [] || !(src <= Rest()))
    {
      hide Chain, ReadMarks, Behind;
      if src == [] { return 0; }
      MemoryRest();
      var size := wpos - rpos;
      if size < |src| {
        if data[rpos..wpos] != src[..size] {
          PrefixMismatch(src, size);
          return 0;
        }
      }
      if rpos + |src| > wpos {
        r := Refill(|src|);
        MemoryRest();
        if r < |src| { return 0; }
      }
      assert data[rpos..rpos + |src|] == Rest()[..|src|];
      if data[rpos..rpos + |src|] != src { return 0; }
      r := |src|;
    }

    lemma PrefixMismatch(src: seq<byte>, size: nat)
      requires Valid() && size == wpos - rpos && size < |src| && data[rpos..wpos] != src[..size]
      ensures !(src <= Rest())
    {
      MemoryRest();
      assert Rest()[..size] == data[rpos..wpos];
    }

    /**
    buf_read_str. Taking the string goes through buf_ignore, so a string that ends inside a
    character of the stream takes that character too.
     */
    method ReadStr(src: seq<byte>) returns (r: int)
      requires Valid()
      modifies this`rpos, this`wpos, this`saves, this`unread, data
      ensures Valid() && |saves| == |old(saves)| && Marks() == old(Marks())
      ensures r > 0 ==> r == |src| && src <= old(Rest())
      ensures r > 0 ==> exists k :: r <= k < r + 4 && k <= |old(Rest())| && Rest() == old(Rest())[k..]
      ensures r > 0 && Aligned(old(Rest()), r) ==> Rest() == old(Rest())[r..]
      ensures r > 0 && Ascii(src) ==> Rest() == old(Rest())[r..]
      ensures r <= 0 ==> Rest() == old(Rest())
      ensures old(InMemory()) ==> InMemory()
      ensures old(Ample()) ==> Ample() && (r > 0 <==> src != [] && src <= old(Rest()))
    {
      hide Chain, ReadMarks, Behind, Decode, Aligned, SkipEnd;
      r := PeekStr(src);
      if r > 0 {
        assert Rest()[..r] == src;
        if Ascii(src) { AsciiIsAligned(Rest(), r); }
        r := Ignore(r);
      }
    }

    // ---------- flushing ----------

    /** The moving part of a flush. */
    method DropSent(n: nat)
      requires n <= wpos <= data.Length
      modifies this`wpos, this`saves, this`sent, data
      ensures wpos == old(wpos) - n && saves == Rebase(old(saves), 0, n)
      ensures sent == old(sent) + old(data[..wpos])[..n] && data[..wpos] == old(data[..wpos])[n..]
    {
      sent := sent + data[..n];
      if wpos > n {
        MoveToFront(n, wpos - n);
      }
      wpos := wpos - n;
      RebaseSaves(0, n);
    }

    /** The device has accepted n bytes from the front of the window. */
    method Accept(n: nat)
      requires Valid() && rpos == 0 && n <= MinWpos(wpos, saves)
      modifies this`wpos, this`saves, this`sent, data
      ensures Valid() && |saves| == |old(saves)| && wpos == old(wpos) - n && |sent| == |old(sent)| + n
      ensures Output() == old(Output()) && OutputMarks() == old(OutputMarks())
      ensures MinWpos(wpos, saves) == old(MinWpos(wpos, saves)) - n
    {
      hide Chain, WriteMarks, MinWpos, MinRpos, Rebase, ReadMarks, Behind;
      BoundMinWpos();
      FlushKeepsMarks(saves, wpos, sent, data[..wpos], n);
      FlushLowersMin(saves, wpos, n);
      ghost var window := data[..wpos];
      SplitOutput(sent, window, n);
      DropSent(n);
    }

    /** buf_file_open_w_flush: all or nothing; after a write error the end refuses for good. */
    method FileFlush() returns (r: int)
      requires Valid()
      modifies this`wpos, this`saves, this`sent, this`failed, this`spilled, data
      ensures Valid() && |saves| == |old(saves)|
      ensures Output() == old(Output()) && OutputMarks() == old(OutputMarks())
      ensures 0 <= |sent| - |old(sent)| == old(wpos) - wpos <= old(MinWpos(wpos, saves))
      ensures r == -1 || r == if old(MinWpos(wpos, saves)) == 0 then data.Length - wpos else old(MinWpos(wpos, saves))
      ensures r == -1 ==> wpos == old(wpos)
      ensures r > 0 && old(MinWpos(wpos, saves)) > 0 ==> wpos == old(wpos) - r
      ensures old(failed) ==> r == -1 && failed
      ensures failed == old(failed) ==> spilled == old(spilled)
      ensures failed && !old(failed) ==> spilled <= Window() && |spilled| <= MinWpos(wpos, saves)
      ensures old(rpos) > 0 ==> r == -1 && saves == old(saves)
      ensures working && !old(failed) && old(rpos) == 0 ==>
                r >= 0 && !failed && wpos == old(wpos) - old(MinWpos(wpos, saves)) && MinWpos(wpos, saves) == 0
    {
      if failed { return -1; }
      if rpos != 0 { return -1; }
      var size := SaveMinWpos();
      if size == 0 { return data.Length - wpos; }
      var written :| working ==> written;
      if !written {
        // some of the bytes may be in the file all the same
        BoundMinWpos();
        var n: nat :| n <= size;
        failed, spilled := true, data[..n];
        return -1;
      }
      Accept(size);
      return size;
    }

    /**
    buf_fd_open_w_flush: the descriptor may take the bytes in pieces and may fail between
    two pieces. A send of nothing and a retry after waiting change nothing and are left out.
     */
    method FdFlush() returns (r: int)
      requires Valid()
      modifies this`wpos, this`saves, this`sent, data
      ensures Valid() && |saves| == |old(saves)|
      ensures Output() == old(Output()) && OutputMarks() == old(OutputMarks())
      ensures 0 <= |sent| - |old(sent)| == old(wpos) - wpos <= old(MinWpos(wpos, saves))
      ensures r == -1 || r == if old(MinWpos(wpos, saves)) == 0 then data.Length - wpos else old(MinWpos(wpos, saves))
      ensures r > 0 && old(MinWpos(wpos, saves)) > 0 ==> wpos == old(wpos) - r
      ensures old(rpos) > 0 ==> r == -1 && saves == old(saves)
      ensures working && old(rpos) == 0 ==>
                r >= 0 && wpos == old(wpos) - old(MinWpos(wpos, saves)) && MinWpos(wpos, saves) == 0
    {
      if rpos != 0 { return -1; }
      var size := SaveMinWpos();
      if size == 0 { return data.Length - wpos; }
      r := -1;
      var bytes := 0;
      while bytes < size
        invariant 0 <= bytes <= size
      {
        var w: int :| -1 <= w <= size - bytes && w != 0 && (working ==> w > 0);
        if w < 0 { break; }
        bytes := bytes + w;
      }
      if bytes == size {
        r := bytes;
      }
      Accept(bytes);
    }

    /** buf_flush. */
    method Flush() returns (r: int)
      requires Valid()
      modifies this`wpos, this`saves, this`sent, this`failed, this`spilled, data
      ensures Valid() && |saves| == |old(saves)|
      ensures Output() == old(Output()) && OutputMarks() == old(OutputMarks())
      ensures 0 <= |sent| - |old(sent)| == old(wpos) - wpos <= old(MinWpos(wpos, saves))
      ensures flush.NoCallback? ==> r == data.Length - wpos && sent == old(sent) && saves == old(saves)
      ensures !flush.NoCallback? ==>
                r == -1 || r == if old(MinWpos(wpos, saves)) == 0 then data.Length - wpos else old(MinWpos(wpos, saves))
      ensures !flush.NoCallback? && r >= 0 ==> old(rpos) == 0 && wpos == old(wpos) - old(MinWpos(wpos, saves))
      ensures old(Working()) ==> Working() && r >= 0 && MinWpos(wpos, saves) == 0 && (saves == [] ==> wpos == 0)
      ensures old(failed) ==> failed
      ensures failed == old(failed) ==> spilled == old(spilled)
      ensures failed && !old(failed) ==> spilled <= Window() && |spilled| <= MinWpos(wpos, saves)
      ensures old(rpos) > 0 ==> saves == old(saves)
    {
      hide Chain, WriteMarks, MinWpos;
      match flush
      case FileCallback =>
        r := FileFlush();
        BoundMinWpos();
      case FdCallback =>
        r := FdFlush();
        BoundMinWpos();
      case NoCallback =>
        BoundMinWpos();
        r := data.Length - wpos;
    }

    lemma BoundMinWpos()
      requires Valid()
      ensures MinWpos(wpos, saves) <= wpos && (saves == [] ==> MinWpos(wpos, saves) == wpos)
    {
      MinWriteOfChain(saves, rpos, wpos);
    }

    /**
    buf_save_restore_wpos: exactly what was put out since the save is erased. The buffer is
    usable afterwards iff nothing behind the save has been read.
     */
    method SaveRestoreWpos()
      requires Valid() && saves != []
      modifies this`wpos
      ensures wpos == saves[0].wpos && (Valid() <==> rpos <= wpos)
      ensures Valid() ==> Output() == old(OutputMarks())[0] && OutputMarks() == old(OutputMarks())
    {
      CutKeepsWriteMarks(saves[1..], saves[0].rpos, sent, Window(), saves[0].wpos);
      ghost var window := Window();
      wpos := saves[0].wpos;
      if rpos <= wpos {
        assert Window() == window[..wpos];
        assert Before(window, wpos) == window[..wpos] && Before(window[..wpos], wpos) == window[..wpos];
      }
    }

    // ---------- writing ----------

    /** Bytes that fit are appended to the window. */
    method Append(bytes: seq<byte>)
      requires Valid() && wpos + |bytes| <= data.Length
      modifies this`wpos, data
      ensures Valid() && wpos == old(wpos) + |bytes|
      ensures Output() == old(Output()) + bytes && OutputMarks() == old(OutputMarks())
      ensures data[wpos..] == old(data[wpos + |bytes|..])
      ensures saves != [] ==> MinWpos(wpos, saves) == old(MinWpos(wpos, saves))
    {
      GrowKeepsWriteMarks(saves, rpos, sent, Window(), bytes);
      ChainHolds(|bytes|);
      MinWriteOfChain(saves, rpos, wpos);
      MinWriteOfChain(saves, rpos, wpos + |bytes|);
      hide Chain, WriteMarks, MinWpos;
      ghost var window := Window();
      CopyIn(bytes);
      wpos := wpos + |bytes|;
      assert Window() == window + bytes;
      assert sent + (window + bytes) == sent + window + bytes;
    }

    /** One round of the loop of buf_write. */
    method AppendAndFlush(bytes: seq<byte>) returns (r: int)
      requires Valid() && wpos + |bytes| <= data.Length
      modifies this`wpos, this`saves, this`sent, this`failed, this`spilled, data
      ensures Valid() && |saves| == |old(saves)| && OutputMarks() == old(OutputMarks())
      ensures Output() == old(Output()) + bytes
      ensures flush.NoCallback? ==> r >= 0 && wpos == old(wpos) + |bytes|
      ensures old(Working()) ==> Working() && r >= 0 && MinWpos(wpos, saves) == 0 && (saves == [] ==> wpos == 0)
      ensures old(Working()) && saves != [] && old(MinWpos(wpos, saves)) == 0 ==> wpos == old(wpos) + |bytes|
    {
      hide Chain, WriteMarks, MinWpos;
      Append(bytes);
      r := Flush();
    }

    /** The loop of buf_write for data that does not fit: fill the window, flush, repeat. */
    method WriteThrough(bytes: seq<byte>) returns (r: int, ghost done: nat)
      requires Valid() && |bytes| > data.Length - wpos
      requires Working() ==> MinWpos(wpos, saves) == 0 && (saves == [] ==> wpos == 0)
      modifies this`wpos, this`saves, this`sent, this`failed, this`spilled, data
      ensures Valid() && |saves| == |old(saves)| && OutputMarks() == old(OutputMarks())
      ensures done <= |bytes| && Output() == old(Output()) + bytes[..done]
      ensures r == -1 || (r == |bytes| && done == |bytes|)
      ensures old(Working()) ==> Working() && (r == |bytes| <==> saves == [] && data.Length > 0)
      ensures flush.NoCallback? ==> r == -1
    {
      hide Chain, WriteMarks, MinWpos;
      var len := |bytes|;
      done := 0;
      var w := 0;
      while w < len
        invariant Valid() && |saves| == |old(saves)| && OutputMarks() == old(OutputMarks())
        invariant 0 <= w <= len && done == w && Output() == old(Output()) + bytes[..w]
        invariant old(Working()) ==> Working() && MinWpos(wpos, saves) == 0 && (saves == [] ==> wpos == 0)
        invariant flush.NoCallback? || (old(Working()) && saves != []) ==> len - w > data.Length - wpos
        invariant data.Length == 0 ==> w == 0
      {
        var s := data.Length - wpos;
        if s == 0 { return -1, w; }
        if s > len - w { s := len - w; }
        assert bytes[..w] + bytes[w..w + s] == bytes[..w + s];
        r := AppendAndFlush(bytes[w..w + s]);
        w := w + s;
        done := w;
        if r < 0 { return -1, w; }
      }
      return len, len;
    }

    /**
    buf_write: all of the bytes are put out when it succeeds, and a prefix of them
    otherwise; nothing that was put out before is lost or reordered.
     */
    method Write(bytes: seq<byte>) returns (r: int, ghost done: nat)
      requires Valid()
      modifies this`wpos, this`saves, this`sent, this`failed, this`spilled, data
      ensures Valid() && |saves| == |old(saves)| && OutputMarks() == old(OutputMarks())
      ensures done <= |bytes| && Output() == old(Output()) + bytes[..done]
      ensures r == -1 || (r == |bytes| && done == |bytes|)
      ensures |bytes| <= old(data.Length - wpos) && |bytes| <= 0x7fff_ffff_ffff_ffff ==>
                r == |bytes| && sent == old(sent)
      ensures |bytes| <= old(data.Length - wpos) && |bytes| <= 0x7fff_ffff_ffff_ffff ==>
                wpos == old(wpos) + |bytes| && data[wpos..] == old(data[wpos + |bytes|..])
      ensures |bytes| > 0x7fff_ffff_ffff_ffff ==> r == -1 && done == 0
      ensures old(Working()) ==> Working()
      ensures old(Working()) && |bytes| <= 0x7fff_ffff_ffff_ffff ==>
                (r == |bytes| <==> |bytes| <= old(Room()) || (saves == [] && data.Length > 0))
      ensures flush.NoCallback? && |bytes| <= 0x7fff_ffff_ffff_ffff ==> (r == |bytes| <==> |bytes| <= old(Room()))
    {
      hide Chain, WriteMarks, MinWpos;
      var len := |bytes|;
      done := 0;
      assert old(Output()) + bytes[..0] == old(Output());
      BoundMinWpos();
      if len == 0 { return 0, 0; }
      if len > SW_MAX { return -1, 0; }
      if len > data.Length - wpos {
        r := Flush();
        if r < 0 { return; }
      }
      if len > data.Length - wpos {
        r, done := WriteThrough(bytes);
        return;
      }
      Append(bytes);
      assert bytes[..len] == bytes;
      return len, len;
    }

    /** The bytes of a character, and the indentation behind a newline. */
    function Written(c: nat): seq<byte>
      reads this`baseColumn
      requires c < 0x110000
    {
      Encode(c) + if c == 10 then seq(baseColumn, _ => 0x20) else []
    }

    /** buf_write_character_utf8: the whole character or nothing. */
    method WriteCharacterUtf8(c: nat) returns (r: int)
      requires Valid()
      modifies this`wpos, this`saves, this`sent, this`failed, this`spilled, data
      ensures Valid() && |saves| == |old(saves)| && OutputMarks() == old(OutputMarks())
      ensures r == -1 || (c < 0x110000 && r == |Written(c)|)
      ensures Output() == if r == -1 then old(Output()) else old(Output()) + Written(c)
      ensures c < 0x110000 && old(wpos) + |Written(c)| <= data.Length ==>
                r == |Written(c)| && wpos == old(wpos) + r && sent == old(sent) && saves == old(saves)
      ensures old(rpos) > 0 ==> saves == old(saves)
      ensures old(Working()) ==> Working()
      ensures old(Working()) && c < 0x110000 ==>
                (r == |Written(c)| <==>
                 old(wpos) + |Written(c)| <= data.Length || |Written(c)| <= old(MinWpos(wpos, saves)))
      ensures flush.NoCallback? && c < 0x110000 ==> (r == |Written(c)| <==> old(wpos) + |Written(c)| <= data.Length)
      ensures old(Working()) && saves != [] && r >= 0 && wpos == old(wpos) + r ==>
                MinWpos(wpos, saves) == old(MinWpos(wpos, saves))
      ensures old(Working()) && r >= 0 && old(wpos) + r > data.Length ==>
                wpos == old(wpos - MinWpos(wpos, saves)) + r && (saves != [] ==> MinWpos(wpos, saves) == 0)
    {
      hide Chain, WriteMarks, MinWpos, Encode;
      if c >= 0x110000 { return -1; }
      var size := EncodedSize(c) + if c == 10 then baseColumn else 0;
      if wpos + size > data.Length {
        r := Flush();
        if r < size { return -1; }
      }
      if wpos + size > data.Length { return -1; }
      Append(Written(c));
      r := size;
    }

    /** buf_u8_to_hex: both digits or nothing. */
    method U8ToHex(x: byte) returns (r: int)
      requires Valid()
      modifies this`wpos, this`saves, this`sent, this`failed, this`spilled, data
      ensures Valid() && |saves| == |old(saves)| && OutputMarks() == old(OutputMarks())
      ensures r == 2 || r == -1
      ensures old(wpos + 2 <= data.Length) ==> r == 2 && wpos == old(wpos) + 2 && sent == old(sent)
      ensures flush.NoCallback? || old(Working()) ==> (r == 2 <==> 2 <= old(Room()))
      ensures Output() == if r == 2 then old(Output()) + [HexDigit(x as int / 16), HexDigit(x as int % 16)]
                          else old(Output())
    {
      hide Chain, MinWpos, Encode, Written, HexDigit, WriteMarks, Output, OutputMarks, Rest, Marks, Window;
      var high, low := HexDigit(x as int / 16), HexDigit(x as int % 16);
      HexIsPlain(x as int / 16);
      HexIsPlain(x as int % 16);
      SaveInit();
      assert OutputMarks() == [old(Output())] + old(OutputMarks());
      r := WriteCharacterUtf8(high as int);
      if r > 0 {
        r := WriteCharacterUtf8(low as int);
        if r > 0 {
          r := 2;
        } else {
          SaveRestoreWpos();
        }
      }
      SaveClean();
    }

    lemma HexIsPlain(d: nat)
      requires d < 16
      ensures HexDigit(d) as int < 0x110000 && Written(HexDigit(d) as int) == [HexDigit(d)]
    {
    }
  }

  function HexDigit(d: nat): byte
    requires d < 16
  {
    if d < 10 then (d + 48) as byte else (d - 10 + 65) as byte
  }

  /**
  buf_xfer between two different buffers: all of the bytes move, or both streams are left
  as they were.
   */
  method Xfer(dest: Buf, src: Buf, size: nat) returns (r: int)
    requires dest != src && dest.data != src.data && dest.Valid() && src.Valid()
    modifies dest`wpos, dest`saves, dest`sent, dest`failed, dest`spilled, dest.data
    modifies src`rpos, src`wpos, src`saves, src`unread, src.data
    ensures dest.Valid() && src.Valid()
    ensures src.Marks() == old(src.Marks()) && dest.OutputMarks() == old(dest.OutputMarks())
    ensures r == -1 || r == 0 || r == size
    ensures r == size ==>
              && size <= |old(src.Rest())|
              && src.Rest() == old(src.Rest())[size..]
              && dest.Output() == old(dest.Output()) + old(src.Rest())[..size]
    ensures r != size ==> src.Rest() == old(src.Rest()) && dest.Output() == old(dest.Output())
    ensures old(src.Reaches(size) || size <= src.wpos - src.rpos) && size <= old(dest.Room()) ==> r == size
  {
    hide Chain, ReadMarks, WriteMarks, Behind, MinWpos, MinRpos;
    if size == 0 {
      assert src.Rest()[0..] == src.Rest() && dest.Output() + src.Rest()[..0] == dest.Output();
      return 0;
    }
    if size > src.wpos - src.rpos {
      r := src.Refill(size);
      if r < 0 { return; }
      if size > src.wpos - src.rpos { return 0; }
    }
    if size > dest.data.Length - dest.wpos {
      r := dest.Flush();
      if r < 0 { return; }
    }
    if size > dest.data.Length - dest.wpos { return -1; }
    MoveBytes(dest, src, size);
    r := size;
  }

  /** The memcpy of buf_xfer. */
  method MoveBytes(dest: Buf, src: Buf, size: nat)
    requires dest != src && dest.data != src.data && dest.Valid() && src.Valid()
    requires size <= src.wpos - src.rpos && size <= dest.data.Length - dest.wpos
    modifies dest`wpos, dest.data, src`rpos
    ensures dest.Valid() && src.Valid()
    ensures src.Marks() == old(src.Marks()) && dest.OutputMarks() == old(dest.OutputMarks())
    ensures size <= |old(src.Rest())| && src.Rest() == old(src.Rest())[size..]
    ensures dest.Output() == old(dest.Output()) + old(src.Rest())[..size]
  {
    src.MemoryRest();
    hide Chain, ReadMarks, WriteMarks, Behind, MinWpos;
    assert src.data[src.rpos..src.rpos + size] == src.Rest()[..size];
    dest.Append(src.data[src.rpos..src.rpos + size]);
    src.Advance(size);
  }

  // ---------- whole runs of a reader ----------

  /** The pure stream that a reader refines. */
  datatype Stream = Stream(rest: seq<byte>, marks: seq<seq<byte>>)

  /** What the buffer operations do to it; refills, compactions and peeks do nothing. */
  datatype Op = Nothing | Take(n: nat) | Mark | Unmark | Restore

  function Apply(op: Op, s: Stream): Stream {
    match op
    case Nothing => s
    case Take(n) => if n <= |s.rest| then s.(rest := s.rest[n..]) else s
    case Mark => Stream(s.rest, [s.rest] + s.marks)
    case Unmark => if s.marks == [] then s else s.(marks := s.marks[1..])
    case Restore => if s.marks == [] then s else s.(rest := s.marks[0])
  }

  function ApplyAll(ops: seq<Op>, s: Stream): Stream {
    if ops == [] then s else ApplyAll(ops[1..], Apply(ops[0], s))
  }

  /** Marks taken and given back inside the run leave `depth` open, never less than none. */
  predicate Nested(ops: seq<Op>, depth: nat) {
    if ops == [] then depth == 0
    else match ops[0]
         case Mark => Nested(ops[1..], depth + 1)
         case Unmark => depth > 0 && Nested(ops[1..], depth - 1)
         case Restore => depth > 0 && Nested(ops[1..], depth)
         case _ => Nested(ops[1..], depth)
  }

  lemma {:induction false} NestedKeepsOuterMarks(ops: seq<Op>, s: Stream, inner: seq<seq<byte>>, outer: seq<seq<byte>>)
    requires s.marks == inner + outer && Nested(ops, |inner|)
    ensures ApplyAll(ops, s).marks == outer
  {
    if ops != [] {
      var next := Apply(ops[0], s);
      match ops[0]
      case Mark =>
        assert next.marks == ([s.rest] + inner) + outer;
        NestedKeepsOuterMarks(ops[1..], next, [s.rest] + inner, outer);
      case Unmark =>
        assert next.marks == inner[1..] + outer;
        NestedKeepsOuterMarks(ops[1..], next, inner[1..], outer);
      case _ =>
        NestedKeepsOuterMarks(ops[1..], next, inner, outer);
    }
  }

  /** Whatever happens in between, restoring a save replays the bytes it marked. */
  lemma RestoreReplays(ops: seq<Op>, s: Stream)
    requires Nested(ops, 0)
    ensures Apply(Restore, ApplyAll(ops, Apply(Mark, s))).rest == s.rest
  {
    var marked := Apply(Mark, s);
    assert marked.marks == [] + ([s.rest] + s.marks);
    NestedKeepsOuterMarks(ops, marked, [], [s.rest] + s.marks);
  }
}
