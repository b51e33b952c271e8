/**
The body of a request (http/http_request.c): a window over the connection that may take
Content-Length bytes and no more, the plain reader, and the drain at the end of a
multipart body. Whatever is read in between, the next request starts at the right byte.
 */
module HttpBody {
  import opened Bytes
  import opened Buffer
  import opened HttpLength

  const BUF_SIZE := 65536

  /** The size of the window over a body. */
  function Capacity(size: nat): nat {
    if size == 0 then 1 else if size < 65536 then size else 65536
  }

  lemma {:induction false} SameMarksBefore(s: seq<Save>, w: seq<byte>, t: seq<Save>, x: seq<byte>, unread: seq<byte>)
    requires ReadMarks(s, w, []) == ReadMarks(t, x, [])
    ensures ReadMarks(s, w, unread) == ReadMarks(t, x, unread)
  {
    if s == [] {
    } else {
      assert ReadMarks(s, w, [])[0] == Behind(w, s[0].rpos) && ReadMarks(t, x, [])[0] == Behind(x, t[0].rpos);
      assert ReadMarks(s, w, [])[1..] == ReadMarks(s[1..], w, []);
      assert ReadMarks(t, x, [])[1..] == ReadMarks(t[1..], x, []);
      SameMarksBefore(s[1..], w, t[1..], x, unread);
    }
  }

  /** How far the cursor is behind the oldest mark. */
  function Span(s: Stream): int {
    if s.marks == [] then 0 else |s.marks[|s.marks| - 1]| - |s.rest|
  }

  /** Bytes can be taken when they are there and the window has room for them behind the oldest mark. */
  predicate Doable(op: Op, s: Stream, capacity: nat) {
    op.Take? ==> op.n <= |s.rest| && op.n + Span(s) <= capacity
  }

  predicate AllDoable(ops: seq<Op>, s: Stream, capacity: nat) {
    ops == [] || (Doable(ops[0], s, capacity) && AllDoable(ops[1..], Apply(ops[0], s), capacity))
  }

  /** So many bytes can be ignored: with a mark open they must all fit behind it. */
  predicate Ignorable(size: nat, s: Stream, capacity: nat) {
    size <= |s.rest| && (s.marks != [] ==> size + Span(s) <= capacity)
  }

  /** Ignoring goes on behind what has been ignored. */
  lemma IgnorableStep(s: Stream, done: nat, chunk: nat, capacity: nat)
    requires done <= |s.rest| && chunk <= |s.rest| - done
    ensures Ignorable(chunk, Stream(s.rest[done..], s.marks), capacity) <==> Ignorable(done + chunk, s, capacity)
    ensures forall size :: done < size && Ignorable(size, s, capacity) ==>
                             Ignorable(1, Stream(s.rest[done..], s.marks), capacity)
  {
  }

  /** All operations can be done, and what they leave can be ignored. */
  predicate Parsable(s: Stream, ops: seq<Op>, capacity: nat) {
    var end := ApplyAll(ops, s);
    AllDoable(ops, s, capacity) && Ignorable(|end.rest|, end, capacity)
  }

  lemma PerformStep(ops: seq<Op>, i: nat, s: Stream, capacity: nat)
    requires i < |ops|
    ensures AllDoable(ops[i..], s, capacity) <==>
            Doable(ops[i], s, capacity) && AllDoable(ops[i + 1..], Apply(ops[i], s), capacity)
    ensures ApplyAll(ops[i..], s) == ApplyAll(ops[i + 1..], Apply(ops[i], s))
  {
    assert ops[i..][1..] == ops[i + 1..];
  }

  lemma {:induction false} OldestMark(saves: seq<Save>, rpos: nat, w: seq<byte>, unread: seq<byte>)
    requires Chain(saves, rpos, |w|) && rpos <= |w| && saves != []
    ensures |ReadMarks(saves, w, unread)| == |saves|
    ensures |ReadMarks(saves, w, unread)[|saves| - 1]| == |w| - MinRpos(rpos, saves) + |unread|
  {
    MinOfChain(saves, rpos, |w|);
    MarksCount(saves, w, unread);
    if |saves| > 1 {
      ChainWeaken(saves[1..], saves[0].rpos, saves[0].wpos, saves[0].rpos, |w|);
      OldestMark(saves[1..], saves[0].rpos, w, unread);
    }
  }

  class Body {
    const src: Buf
    const window: Buf
    var remaining: nat
    ghost const connection: seq<byte>   // what followed the blank line
    ghost const length: nat             // Content-Length

    predicate Ready()
      reads this, src, src.data, window, window.data
    {
      && src != window && src.data != window.data && src.Valid() && window.Valid()
      && !window.readOnly && window.unread == [] && window.data.Length > 0
    }

    /** The bytes taken from the connection are Content-Length minus what remains. */
    ghost predicate Framed()
      reads this, src, src.data, window, window.data
    {
      && Ready() && remaining <= length && length - remaining <= |connection|
      && src.Rest() == connection[length - remaining..]
    }

    /** The connection is never cut short, and holds all that remains of the body. */
    ghost predicate Supplied()
      reads this, src, src.data, window, window.data
    {
      Framed() && src.Flowing() && remaining <= |src.Rest()|
    }

    /** The part of the body that is still on the connection. */
    function Pending(): seq<byte>
      reads this, src, src.data, window, window.data
      requires Ready()
    {
      Before(src.Rest(), remaining)
    }

    /** What is still to be read of the body. */
    function Rest(): seq<byte>
      reads this, src, src.data, window, window.data
      requires Ready()
    {
      Behind(window.Window(), window.rpos) + Pending()
    }

    function Marks(): seq<seq<byte>>
      reads this, src, src.data, window, window.data
      requires Ready()
    {
      ReadMarks(window.saves, window.Window(), Pending())
    }

    /** http_request_body_buf_init. */
    constructor (src: Buf, size: nat)
      requires src.Valid()
      ensures Framed() && this.src == src && fresh(window) && fresh(window.data)
      ensures connection == src.Rest() && length == remaining == size
      ensures Rest() == Before(src.Rest(), size) && Marks() == []
      ensures src.Flowing() && size <= |src.Rest()| ==> Supplied() && View() == Stream(src.Rest()[..size], [])
      ensures window.data.Length == Capacity(size) && window.saves == [] && window.rpos == window.wpos == 0
    {
      var bufSize := if size < BUF_SIZE then size else BUF_SIZE;
      if bufSize == 0 {
        bufSize := 1;
      }
      var w := new Buf.Alloc(bufSize, NoCallback, NoCallback, []);
      this.src, window, remaining := src, w, size;
      connection, length := src.Rest(), size;
    }

    lemma Delivered(n: nat)
      requires Ready() && n <= |Pending()|
      ensures var w, p := window.Window(), Pending();
              && ReadMarks(window.saves, w + p[..n], p[n..]) == Marks()
              && Behind(w + p[..n], window.rpos) + p[n..] == Rest()
    {
      AppendReadMarks(window.saves, window.rpos, window.wpos, window.Window(), Pending(), n);
      AppendBehind(window.Window(), Pending(), n, window.rpos);
    }

    /** The copy from the connection's window to the body's. */
    method Move(size: nat)
      requires Framed() && size <= remaining && size <= window.data.Length - window.wpos
      requires size <= src.wpos - src.rpos
      modifies this`remaining, window`wpos, window.data, src`rpos
      ensures Framed() && Rest() == old(Rest()) && Marks() == old(Marks())
      ensures window.wpos == old(window.wpos) + size && remaining == old(remaining) - size
      ensures src.Marks() == old(src.Marks()) && (old(Supplied()) ==> Supplied())
    {
      src.MemoryRest();
      PendingStep(connection, length - remaining, remaining, size);
      hide Chain, ReadMarks, Behind;
      ghost var rest, w, p := src.Rest(), window.Window(), Pending();
      assert src.data[src.rpos..src.rpos + size] == rest[..size];
      hide Before;
      Delivered(size);
      window.ChainHolds(size);
      CopyThrough(size);
      remaining := remaining - size;
      assert Pending() == p[size..];
    }

    method CopyThrough(size: nat)
      requires Ready() && size <= window.data.Length - window.wpos && size <= src.wpos - src.rpos
      requires src.data[src.rpos..src.rpos + size] == src.Rest()[..size]
      modifies window`wpos, window.data, src`rpos
      ensures Ready() && window.wpos == old(window.wpos) + size
      ensures size <= |old(src.Rest())| && src.Rest() == old(src.Rest())[size..] && src.Marks() == old(src.Marks())
      ensures window.Window() == old(window.Window()) + old(src.Rest())[..size]
    {
      window.ChainHolds(size);
      hide Chain, ReadMarks, Behind;
      window.CopyIn(src.data[src.rpos..src.rpos + size]);
      src.Advance(size);
      window.wpos := window.wpos + size;
    }

    /** http_request_body_buf_refill. */
    method CallRefill() returns (r: int)
      requires Framed()
      modifies this`remaining, window`wpos, window.data
      modifies src`rpos, src`wpos, src`saves, src`unread, src.data
      ensures Framed() && Rest() == old(Rest()) && Marks() == old(Marks())
      ensures src.Marks() == old(src.Marks()) && |src.saves| == |old(src.saves)|
      ensures r >= -1 && window.wpos == old(window.wpos) + (if r > 0 then r else 0)
      ensures remaining == old(remaining) - (if r > 0 then r else 0)
      ensures r == 0 ==> remaining == 0 || window.wpos == window.data.Length || src.data.Length == 0
      ensures old(Supplied()) ==>
                Supplied() && r >= 0 && (r == 0 ==> remaining == 0 || window.wpos == window.data.Length)
    {
      hide Chain, ReadMarks, Behind;
      src.RestSize();
      if remaining == 0 { return 0; }
      var avail := window.data.Length - window.wpos;
      if avail == 0 { return 0; }
      var size := if remaining < avail then remaining else avail;
      if size > src.data.Length {
        size := src.data.Length;
      }
      r := src.Refill(size);
      if r < size { return -1; }
      Move(size);
      r := size;
    }

    /** Compaction of the window is not seen. */
    method Compact()
      requires Framed()
      modifies window`rpos, window`wpos, window`saves, window.data
      ensures Framed() && Rest() == old(Rest()) && Marks() == old(Marks()) && |window.saves| == |old(window.saves)|
      ensures window.wpos - window.rpos == old(window.wpos - window.rpos)
      ensures MinRpos(window.rpos, window.saves) == 0
      ensures window.rpos == old(window.rpos - MinRpos(window.rpos, window.saves))
      ensures old(Supplied()) ==> Supplied()
    {
      hide Chain, ReadMarks, Behind, MinRpos;
      ghost var saves, w, p := window.saves, window.Window(), Pending();
      assert Behind(w, window.rpos) + [] == Behind(w, window.rpos);
      var r := window.RefillCompact();
      assert Behind(window.Window(), window.rpos) + [] == Behind(window.Window(), window.rpos);
      SameMarksBefore(saves, w, window.saves, window.Window(), p);
    }

    /** buf_refill on the body's window. */
    method Refill(size: nat) returns (r: int)
      requires Framed()
      modifies this`remaining, window`rpos, window`wpos, window`saves, window.data
      modifies src`rpos, src`wpos, src`saves, src`unread, src.data
      ensures Framed() && Rest() == old(Rest()) && Marks() == old(Marks())
      ensures src.Marks() == old(src.Marks()) && |window.saves| == |old(window.saves)|
      ensures r == -1 || r == window.wpos - window.rpos
      ensures remaining + window.wpos - window.rpos == old(remaining + window.wpos - window.rpos)
      ensures old(Supplied()) ==>
                && Supplied() && r >= 0
                && (r >= size <==>
                    && size <= |Rest()|
                    && size + old(window.rpos - MinRpos(window.rpos, window.saves)) <= window.data.Length)
    {
      hide Chain, ReadMarks, Behind, MinRpos;
      Sizes();
      SpanInWindow();
      ghost var span: nat := window.rpos - MinRpos(window.rpos, window.saves);
      ghost var supplied := Supplied();
      r := window.wpos - window.rpos;
      if size == 0 || window.rpos + size <= window.wpos { return; }
      Compact();
      while true
        invariant supplied ==> Supplied() && window.rpos == span
        invariant window.wpos - window.rpos < size
        invariant Framed() && Rest() == old(Rest()) && Marks() == old(Marks())
        invariant src.Marks() == old(src.Marks()) && |window.saves| == |old(window.saves)|
        invariant remaining + window.wpos - window.rpos == old(remaining + window.wpos - window.rpos)
        decreases remaining
      {
        r := CallRefill();
        if r < 0 { return; }
        if r == 0 { return window.wpos - window.rpos; }
        if window.wpos - window.rpos >= size { return window.wpos - window.rpos; }
      }
    }

    /** The cursor moves over bytes of the window. */
    method Advance(n: nat)
      requires Framed() && n <= window.wpos - window.rpos
      modifies window`rpos
      ensures Framed() && n <= |old(Rest())| && Rest() == old(Rest())[n..] && Marks() == old(Marks())
      ensures window.rpos == old(window.rpos) + n
    {
      BehindStep(window.Window(), window.rpos, n, Pending());
      ChainWeaken(window.saves, window.rpos, window.wpos, window.rpos + n, window.wpos);
      hide Chain, ReadMarks, Behind, Before;
      window.rpos := window.rpos + n;
    }

    /** The body as a pure stream. */
    function View(): Stream
      reads this, src, src.data, window, window.data
      requires Ready()
    {
      Stream(Rest(), Marks())
    }

    lemma Sizes()
      requires Framed()
      ensures |Rest()| <= remaining + window.wpos - window.rpos
      ensures |Rest()| >= window.wpos - window.rpos
      ensures |Marks()| == |window.saves|
      ensures remaining <= |src.Rest()| ==> |Rest()| == remaining + window.wpos - window.rpos
    {
      MarksCount(window.saves, window.Window(), Pending());
    }

    /** The bytes between the oldest save and the cursor, seen on the stream. */
    lemma SpanInWindow()
      requires Framed()
      ensures MinRpos(window.rpos, window.saves) <= window.rpos
      ensures Span(View()) == window.rpos - MinRpos(window.rpos, window.saves) <= window.data.Length
    {
      MarksCount(window.saves, window.Window(), Pending());
      MinOfChain(window.saves, window.rpos, window.wpos);
      if window.saves != [] {
        OldestMark(window.saves, window.rpos, window.Window(), Pending());
      }
    }

    /** buf_save_init, buf_save_clean and buf_save_restore_rpos on the body's window. */
    method Save()
      requires Framed()
      modifies window`saves
      ensures Framed() && View() == Apply(Mark, old(View()))
    {
      hide Chain;
      window.SavedChain();
      window.saves := [Buffer.Save(window.rpos, window.wpos)] + window.saves;
    }

    method Unsave()
      requires Framed() && window.saves != []
      modifies window`saves
      ensures Framed() && View() == Apply(Unmark, old(View()))
    {
      ChainWeaken(window.saves[1..], window.saves[0].rpos, window.saves[0].wpos, window.rpos, window.wpos);
      window.saves := window.saves[1..];
    }

    method RestoreSave()
      requires Framed() && window.saves != []
      modifies window`rpos
      ensures Framed() && View() == Apply(Restore, old(View()))
    {
      window.rpos := window.saves[0].rpos;
    }

    /** One thing that the code between the boundaries may do with the body. */
    method Perform(op: Op) returns (ok: bool)
      requires Framed()
      modifies this`remaining, window, window.data
      modifies src`rpos, src`wpos, src`saves, src`unread, src.data
      ensures Framed() && src.Marks() == old(src.Marks())
      ensures View() == if ok then Apply(op, old(View())) else old(View())
      ensures old(Supplied()) ==> Supplied() && (ok <==> Doable(op, old(View()), window.data.Length))
    {
      hide Chain, ReadMarks, Behind, MinRpos;
      Sizes();
      SpanInWindow();
      ok := true;
      match op
      case Nothing =>
        var size: nat := *;
        var r := Refill(size);
      case Take(n) =>
        var r := Refill(n);
        if r < n { return false; }
        Advance(n);
      case Mark => Save();
      case Unmark => if window.saves != [] { Unsave(); }
      case Restore => if window.saves != [] { RestoreSave(); }
    }

    /** All of the things that are done with the body, up to the first that fails. */
    method PerformAll(ops: seq<Op>) returns (ok: bool)
      requires Framed()
      modifies this`remaining, window, window.data
      modifies src`rpos, src`wpos, src`saves, src`unread, src.data
      ensures Framed() && src.Marks() == old(src.Marks())
      ensures ok ==> View() == ApplyAll(ops, old(View()))
      ensures old(Supplied()) ==> Supplied() && (ok <==> AllDoable(ops, old(View()), window.data.Length))
    {
      hide Chain, ReadMarks, Behind, MinRpos, Doable, Apply, Span, Rest, Marks, Supplied, Pending;
      ghost var start, capacity := View(), window.data.Length;
      assert ops[0..] == ops;
      var i := 0;
      while i < |ops|
        invariant 0 <= i <= |ops| && Framed() && src.Marks() == old(src.Marks())
        invariant ApplyAll(ops, start) == ApplyAll(ops[i..], View())
        invariant old(Supplied()) ==>
                    Supplied() && (AllDoable(ops, start, capacity) <==> AllDoable(ops[i..], View(), capacity))
      {
        PerformStep(ops, i, View(), capacity);
        var done := Perform(ops[i]);
        if !done { return false; }
        i := i + 1;
      }
      assert ops[i..] == [];
      return true;
    }

    /** One round of http_request_body_ignore: what the window holds, at most `limit`. */
    method SkipSome(limit: nat) returns (chunk: nat)
      requires Framed() && limit > 0
      modifies this`remaining, window, window.data
      modifies src`rpos, src`wpos, src`saves, src`unread, src.data
      ensures Framed() && src.Marks() == old(src.Marks())
      ensures chunk <= limit && chunk <= |old(Rest())| && View() == Stream(old(Rest())[chunk..], old(Marks()))
      ensures remaining + window.wpos - window.rpos == old(remaining + window.wpos - window.rpos) - chunk
      ensures chunk > 0 ==> Ignorable(chunk, old(View()), window.data.Length)
      ensures old(Supplied()) ==> Supplied() && (chunk > 0 <==> Ignorable(1, old(View()), window.data.Length))
    {
      hide Chain, ReadMarks, Behind, MinRpos, Span;
      SpanInWindow();
      SpanOfNone();
      Sizes();
      assert Rest()[0..] == Rest();
      if window.rpos == window.wpos {
        var r := Refill(1);
        if r <= 0 { return 0; }
        Sizes();
      }
      chunk := window.wpos - window.rpos;
      if chunk > limit {
        chunk := limit;
      }
      Advance(chunk);
      SpanInWindow();
      SpanBehind(old(View()), chunk);
    }

    lemma SpanOfNone()
      ensures forall s: Stream :: s.marks == [] ==> Span(s) == 0
    {
    }

    lemma SpanBehind(s: Stream, n: nat)
      requires n <= |s.rest|
      ensures s.marks != [] ==> Span(Stream(s.rest[n..], s.marks)) == Span(s) + n
    {
    }

    /** http_request_body_ignore on the body's window. */
    method Ignore(size: nat) returns (ok: bool)
      requires Framed()
      modifies this`remaining, window, window.data
      modifies src`rpos, src`wpos, src`saves, src`unread, src.data
      ensures Framed() && src.Marks() == old(src.Marks())
      ensures ok ==> remaining + window.wpos - window.rpos == old(remaining + window.wpos - window.rpos) - size
      ensures ok ==> Ignorable(size, old(View()), window.data.Length)
      ensures ok ==> size <= |old(Rest())| && View() == Stream(old(Rest())[size..], old(Marks()))
      ensures old(Supplied()) ==>
                Supplied() && (ok <==> Ignorable(size, old(View()), window.data.Length))
    {
      hide Chain, ReadMarks, Behind, MinRpos, Span, Supplied;
      SpanInWindow();
      var ignored := 0;
      ghost var rest, marks := Rest(), Marks();
      assert rest[0..] == rest;
      while ignored < size
        invariant 0 <= ignored <= size && Framed() && src.Marks() == old(src.Marks())
        invariant ignored <= |rest| && View() == Stream(rest[ignored..], marks)
        invariant Ignorable(ignored, Stream(rest, marks), window.data.Length)
        invariant remaining + window.wpos - window.rpos == old(remaining + window.wpos - window.rpos) - ignored
        invariant old(Supplied()) ==> Supplied()
      {
        var chunk := SkipSome(size - ignored);
        IgnorableStep(Stream(rest, marks), ignored, chunk, window.data.Length);
        if chunk == 0 { return false; }
        assert rest[ignored..][chunk..] == rest[ignored + chunk..];
        ignored := ignored + chunk;
      }
      ok := true;
    }

    /** The end of a multipart body: what is left of it is ignored. */
    method Drain() returns (ok: bool)
      requires Framed()
      modifies this`remaining, window, window.data
      modifies src`rpos, src`wpos, src`saves, src`unread, src.data
      ensures Framed() && src.Marks() == old(src.Marks())
      ensures ok ==> remaining == 0
      ensures old(Supplied()) ==> Supplied() && (ok <==> Ignorable(|old(Rest())|, old(View()), window.data.Length))
    {
      Sizes();
      SpanInWindow();
      hide MinRpos, Chain, ReadMarks, Behind;
      ok := true;
      if remaining > 0 || window.rpos != window.wpos {
        ok := Ignore(remaining + window.wpos - window.rpos);
      }
    }

    /** What is done between the boundaries, and then the rest is ignored. */
    method Parse(ops: seq<Op>) returns (ok: bool)
      requires Framed()
      modifies this`remaining, window, window.data
      modifies src`rpos, src`wpos, src`saves, src`unread, src.data
      ensures Framed() && src.Marks() == old(src.Marks())
      ensures src.Valid() && remaining <= length && length - remaining <= |connection|
      ensures src.Rest() == connection[length - remaining..] && (ok ==> remaining == 0)
      ensures old(Supplied()) ==> (ok <==> Parsable(old(View()), ops, window.data.Length))
    {
      hide Chain, ReadMarks, Behind, MinRpos, AllDoable, ApplyAll, Ignorable, Span, Supplied;
      ok := PerformAll(ops);
      if ok {
        ok := Drain();
      }
    }
  }

  lemma {:induction false} MarksCount(saves: seq<Save>, w: seq<byte>, unread: seq<byte>)
    ensures |ReadMarks(saves, w, unread)| == |saves|
  {
    if saves != [] { MarksCount(saves[1..], w, unread); }
  }

  lemma BehindStep(w: seq<byte>, p: nat, n: nat, rest: seq<byte>)
    requires p + n <= |w|
    ensures n <= |Behind(w, p) + rest| && (Behind(w, p) + rest)[n..] == Behind(w, p + n) + rest
  {
  }

  /** Taking the front of the stream that is the rest of the body. */
  lemma PendingStep(connection: seq<byte>, from: nat, remaining: nat, n: nat)
    requires from <= |connection| && n <= remaining && from + n <= |connection|
    ensures connection[from..][n..] == connection[from + n..]
    ensures Before(connection[from..], remaining)[n..] == Before(connection[from + n..], remaining - n)
    ensures Before(connection[from..], remaining)[..n] == connection[from..][..n]
  {
  }

  // ---------- the two ways to read a body ----------

  /** memcpy from a window to the string that is filled. */
  method CopyOut(p: array<byte>, at: nat, data: array<byte>, from: nat, size: nat)
    requires p != data && at + size <= p.Length && from + size <= data.Length
    modifies p
    ensures p[..at + size] == old(p[..at]) + data[from..from + size]
  {
    forall i | 0 <= i < size {
      p[at + i] := data[from + i];
    }
  }

  /** The copy of one round of http_request_body_read: what is in the window, at most `limit`. */
  method TakeChunk(buf: Buf, p: array<byte>, offset: nat, limit: nat) returns (chunk: nat)
    requires buf.Valid() && p != buf.data && limit > 0 && offset + limit <= p.Length && buf.rpos < buf.wpos
    modifies buf`rpos, p
    ensures buf.Valid() && buf.Marks() == old(buf.Marks())
    ensures 0 < chunk <= limit && chunk <= |old(buf.Rest())| && buf.Rest() == old(buf.Rest())[chunk..]
    ensures p[..offset + chunk] == old(p[..offset]) + old(buf.Rest())[..chunk]
  {
    hide Chain, ReadMarks, Behind;
    ghost var rest := buf.Rest();
    buf.MemoryRest();
    chunk := buf.wpos - buf.rpos;
    if chunk > limit {
      chunk := limit;
    }
    assert buf.data[buf.rpos..buf.rpos + chunk] == rest[..chunk];
    hide Buf.Rest;
    CopyOut(p, offset, buf.data, buf.rpos, chunk);
    buf.Advance(chunk);
  }

  /** One round of http_request_body_read: some bytes of the stream, at most `limit`. */
  method ReadChunk(buf: Buf, p: array<byte>, offset: nat, limit: nat) returns (chunk: nat)
    requires buf.Valid() && p != buf.data && limit > 0 && offset + limit <= p.Length
    modifies buf`rpos, buf`wpos, buf`saves, buf`unread, buf.data, p
    ensures buf.Valid() && buf.Marks() == old(buf.Marks())
    ensures chunk <= limit && chunk <= |old(buf.Rest())| && buf.Rest() == old(buf.Rest())[chunk..]
    ensures p[..offset + chunk] == old(p[..offset]) + old(buf.Rest())[..chunk]
    ensures old(buf.Flowing()) ==> buf.Flowing() && (chunk == 0 <==> old(buf.Rest()) == [])
  {
    hide Chain, ReadMarks, Behind;
    buf.RestSize();
    if buf.rpos == buf.wpos {
      var r := buf.Refill(1);
      if r <= 0 {
        buf.MemoryRest();
        return 0;
      }
    }
    buf.MemoryRest();
    chunk := TakeChunk(buf, p, offset, limit);
  }

  lemma NextChunk(rest: seq<byte>, offset: nat, chunk: nat)
    requires offset + chunk <= |rest|
    ensures rest[offset..][chunk..] == rest[offset + chunk..]
    ensures rest[..offset] + rest[offset..][..chunk] == rest[..offset + chunk]
  {
  }

  /** http_request_body_read: the next bytes of the connection, or nothing. */
  method BodyRead(buf: Buf, size: nat) returns (body: Option<seq<byte>>)
    requires buf.Valid()
    modifies buf`rpos, buf`wpos, buf`saves, buf`unread, buf.data
    ensures buf.Valid() && buf.Marks() == old(buf.Marks())
    ensures body.Some? ==>
              && size <= |old(buf.Rest())| && body.value == old(buf.Rest())[..size]
              && buf.Rest() == old(buf.Rest())[size..]
    ensures body.None? ==> exists k :: 0 <= k < size && k <= |old(buf.Rest())| && buf.Rest() == old(buf.Rest())[k..]
    ensures old(buf.Flowing()) ==> buf.Flowing() && (body.Some? <==> size <= |old(buf.Rest())|)
  {
    hide Chain, ReadMarks, Behind;
    ghost var rest := buf.Rest();
    assert rest[0..] == rest && rest[..0] == [];
    if size == 0 { return Some([]); }
    var p := new byte[size + 1];
    var offset := 0;
    while offset < size
      invariant 0 <= offset <= size && offset <= |rest| && p.Length == size + 1 && fresh(p)
      invariant buf.Valid() && buf.Marks() == old(buf.Marks()) && buf.Rest() == rest[offset..]
      invariant p[..offset] == rest[..offset]
      invariant old(buf.Flowing()) ==> buf.Flowing()
    {
      var chunk := ReadChunk(buf, p, offset, size - offset);
      if chunk == 0 { return None; }
      NextChunk(rest, offset, chunk);
      offset := offset + chunk;
    }
    p[size] := 0;
    return Some(p[..size]);
  }

  /** Everything that is done with a multipart body can be done, and what is left be ignored. */
  predicate MultipartFits(body: seq<byte>, ops: seq<Op>) {
    Parsable(Stream(body, []), ops, Capacity(|body|))
  }

  /**
  The multipart path of http_request_buf_parse, whatever is done with the body between its
  boundaries: it never takes more than Content-Length bytes, and exactly that many when it
  succeeds. On a connection that is not cut short it succeeds exactly when the body is
  there, each operation finds its bytes and the window has room for them.
   */
  method MultipartBody(src: Buf, length: nat, ops: seq<Op>) returns (ok: bool)
    requires src.Valid()
    modifies src`rpos, src`wpos, src`saves, src`unread, src.data
    ensures src.Valid() && src.Marks() == old(src.Marks())
    ensures exists k :: 0 <= k <= length && k <= |old(src.Rest())| && src.Rest() == old(src.Rest())[k..]
    ensures ok ==> length <= |old(src.Rest())| && src.Rest() == old(src.Rest())[length..]
    ensures old(src.Flowing()) ==>
              (ok <==> length <= |old(src.Rest())| && MultipartFits(old(src.Rest())[..length], ops))
  {
    hide Chain, ReadMarks, Behind, MinRpos, Parsable, Buf.Rest, Buf.Marks, Buf.Flowing, Body.Rest, Body.Marks,
      Body.View, Body.Framed, Body.Supplied, Body.Pending;
    var body := new Body(src, length);
    ghost var rest := src.Rest();
    ok := body.Parse(ops);
    assert src.Rest() == rest[length - body.remaining..];
  }

  /** The body that the settled length asks for can be read. */
  predicate BodyFits(rest: seq<byte>, length: nat, multipart: bool, ops: seq<Op>) {
    length <= |rest| && (multipart && length > 0 ==> MultipartFits(rest[..length], ops))
  }

  /**
  The end of http_request_buf_parse: the header fields settle the length and the body is
  read on one of the two paths. On success exactly that many bytes are gone from the
  connection; without a settled length none are. On a connection that is not cut short the
  request succeeds exactly when a settled length is at most what is there (and, on the
  multipart path, everything asked of the body is there).
   */
  method RequestBody(src: Buf, fields: seq<Field>, multipart: bool, ops: seq<Op>)
    returns (ok: bool, length: nat, body: Option<seq<byte>>)
    requires src.Valid()
    modifies src`rpos, src`wpos, src`saves, src`unread, src.data
    ensures src.Valid() && src.Marks() == old(src.Marks())
    ensures exists k :: 0 <= k <= length && k <= |old(src.Rest())| && src.Rest() == old(src.Rest())[k..]
    ensures ok ==> Settled(fields, length)
    ensures ok ==> length <= |old(src.Rest())| && src.Rest() == old(src.Rest())[length..]
    ensures ok && body.Some? ==> body.value == old(src.Rest())[..length]
    ensures ok ==> (body.None? <==> length == 0 || multipart)
    ensures old(src.Flowing()) ==>
              (ok <==> exists n :: Settled(fields, n) && BodyFits(old(src.Rest()), n, multipart, ops))
  {
    hide Chain, ReadMarks, Behind, MinRpos, Agree, Settled, MultipartFits;
    assert src.Rest()[0..] == src.Rest();
    ok, length, body := false, 0, None;
    var agreed := BodyLength(fields);
    if agreed.None? {
      NothingSettled(fields);
      return;
    }
    length, ok := agreed.value, true;
    forall n | Settled(fields, n) ensures n == length { SettledOnce(fields, n, length); }
    if length > 0 {
      if multipart {
        ok := MultipartBody(src, length, ops);
      } else {
        body := BodyRead(src, length);
        ok := body.Some?;
      }
    }
  }

  lemma NothingSettled(fields: seq<Field>)
    requires TransferEncoding in fields || forall n: nat :: n <= 67_108_864 ==> !Agree(fields, n)
    ensures forall n :: !Settled(fields, n)
  {
  }
}
