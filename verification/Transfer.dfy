/** bgl_sendchars and copyfile: an input port copied to an output port
    (runtime/Clib/cports.c, the build without sendfile). */
module Transfer {
  import opened Common
  import opened Bytes
  import opened InputPorts
  import opened OutputPorts

  datatype CopyResult = Copied(n: nat) | CopyRaised

  datatype SendResult = Sent(n: nat) | NotSent | SendFailed | SendRaised

  /** The ports do not share their buffers. */
  predicate Separate(ip: InputPort, op: OutputPort)
    reads ip`buf, op`buf
  {
    ip.buf != op.buf
  }

  /** What `n` bytes asked for of `available` come to; a negative request is for all. */
  function Wanted(sz: int, available: nat): nat {
    if sz < 0 then available else Min(sz, available)
  }

  /** One turn of the copying loops: a read from the source, and the write of what was read. */
  method CopyBlock(op: OutputPort, ip: InputPort, block: array<byte>, size: nat) returns (n: int, ok: bool, ghost text: seq<byte>)
    requires ip.SourceOk() && op.Valid() && !op.closed && Separate(ip, op)
    requires size <= block.Length && block != ip.buf && block != op.buf
    modifies ip`pbuffer, ip`pbufpos, ip`chunks, ip`eof, block
    modifies op`buf, op`ptr, op`end, op`stdoutFrom, op`err, op`sink, op`script, op.buf
    ensures ip.SourceOk() && op.Valid() && (op.buf == old(op.buf) || fresh(op.buf))
    ensures n <= size && (n >= 0 ==> n == |text|) && old(ip.Source()) == text + ip.Source()
    ensures ip.buf[..] == old(ip.buf[..])
    ensures n < 0 ==> ip.failing && text == [] && ip.Source() == []
    ensures n >= 0 && ok ==> op.Output() == old(op.Output()) + text
    ensures n > 0 ==> ip.Reads() < old(ip.Reads())
    ensures old(ip.Chunked()) ==> ip.Chunked() && (size > 0 && n == 0 ==> ip.Source() == [] && !ip.failing)
    ensures old(op.Reliable()) ==> op.Reliable() && ok
    ensures |op.script| <= |old(op.script)|
  {
    hide OutputPort.Reliable;
    ok := true;
    n, text := ip.ProcRead(block, 0, size);
    assert block[0..|text|] == text;
    if n > 0 {
      var r := op.Write(block[0..n]);
      ok := r == Done;
    } else if n == 0 {
      assert op.Output() + text == op.Output();
    }
  }

  /** The loops of copyfile: the source, or its first `sz` bytes, block by block. */
  method CopyLoop(op: OutputPort, ip: InputPort, sz: int, ioBufsiz: nat) returns (rsz: nat, ok: bool, ghost text: seq<byte>)
    requires ip.SourceOk() && op.Valid() && !op.closed && Separate(ip, op) && ioBufsiz > 0
    modifies ip`pbuffer, ip`pbufpos, ip`chunks, ip`eof
    modifies op`buf, op`ptr, op`end, op`stdoutFrom, op`err, op`sink, op`script, op.buf
    ensures ip.SourceOk() && op.Valid() && (op.buf == old(op.buf) || fresh(op.buf))
    ensures old(ip.Source()) == text + ip.Source() && ip.buf[..] == old(ip.buf[..])
    ensures ok ==> rsz == |text| && op.Output() == old(op.Output()) + text
    ensures ok && sz >= 0 ==> |text| <= sz
    ensures ok && old(ip.Chunked()) ==> (ip.Source() == [] && !ip.failing) || |text| == sz
    ensures old(op.Reliable()) ==> op.Reliable() && (!ok ==> ip.failing)
    ensures old(op.Reliable() && ip.Chunked()) ==> (!ok <==> ip.failing && (sz < 0 || |old(ip.Source())| < sz))
    ensures |op.script| <= |old(op.script)|
  {
    hide OutputPort.Reliable, OutputPort.Output, OutputPort.Pending, OutputPort.Valid;
    hide InputPort.Reads, InputPort.Source, InputPort.Chunked, InputPort.SourceOk;
    text := [];
    ghost var src, out := ip.Source(), op.Output();
    assert out + [] == out && [] + src == src;
    rsz := 0;
    var left := sz;
    var s := if sz < 0 || ioBufsiz <= sz then ioBufsiz else sz;
    var block := new byte[s + 1];
    var n := 1;
    ok := true;
    while left != 0 && n > 0
      invariant ip.SourceOk() && op.Valid() && (op.buf == old(op.buf) || fresh(op.buf))
      invariant ip.buf[..] == old(ip.buf[..])
      invariant rsz == |text| && src == text + ip.Source()
      invariant op.Output() == out + text
      invariant if sz < 0 then left == sz && s > 0 else left == sz - rsz >= 0 && (s == left || 0 < s <= left)
      invariant s < block.Length && block != op.buf && block != ip.buf
      invariant old(ip.Chunked()) ==> ip.Chunked() && (n == 0 ==> ip.Source() == [] && !ip.failing)
      invariant n >= 0 && ok && (old(op.Reliable()) ==> op.Reliable()) && |op.script| <= |old(op.script)|
      decreases n > 0, ip.Reads()
    {
      ghost var more;
      ghost var before := text;
      n, ok, more := CopyBlock(op, ip, block, s);
      text := before + more;
      Joined(src, before, more, ip.Source());
      Joined(op.Output(), out, before, more);
      if n < 0 || !ok {
        return rsz, false, text;
      }
      rsz := rsz + n;
      if sz >= 0 {
        left := left - n;
        if left < s {
          s := left;
        }
      }
    }
  }

  /** copyfile: copies, and flushes. It stops at the first read that returns nothing, which is
      the end of the source if the procedure returns no empty strings. */
  method CopyFile(op: OutputPort, ip: InputPort, sz: int, ioBufsiz: nat) returns (r: CopyResult, ghost text: seq<byte>)
    requires ip.SourceOk() && op.Valid() && !op.closed && Separate(ip, op) && ioBufsiz > 0
    modifies ip`pbuffer, ip`pbufpos, ip`chunks, ip`eof
    modifies op`buf, op`ptr, op`end, op`stdoutFrom, op`err, op`sink, op`script, op.buf
    ensures ip.SourceOk() && op.Valid()
    ensures old(ip.Source()) == text + ip.Source() && ip.buf[..] == old(ip.buf[..])
    ensures r.Copied? ==> r.n == |text| && op.Output() == old(op.Output()) + text
    ensures r.Copied? && op.bufmode != Extensible ==> op.Pending() == []
    ensures r.Copied? && sz >= 0 ==> |text| <= sz
    ensures r.Copied? && old(ip.Chunked()) ==> |text| == Wanted(sz, |old(ip.Source())|)
    ensures old(op.Reliable()) ==> op.Reliable() && (r.CopyRaised? ==> ip.failing)
    ensures old(op.Reliable() && ip.Chunked()) ==> (r.CopyRaised? <==> ip.failing && (sz < 0 || |old(ip.Source())| < sz))
    ensures |op.script| <= |old(op.script)|
  {
    hide OutputPort.Reliable, InputPort.Source, InputPort.Chunked;
    ghost var out := op.Output();
    var rsz, ok;
    rsz, ok, text := CopyLoop(op, ip, sz, ioBufsiz);
    if !ok {
      return CopyRaised, text;
    }
    assert out + text + [] == out + text;
    var f := op.OutputFlush([], false, true);
    if f != Done {
      return CopyRaised, text;
    }
    return Copied(rsz), text;
  }

  /** The system write of the port: bgl_syswrite, or strwrite for string ports. */
  method DirectWrite(op: OutputPort, str: seq<byte>) returns (w: int)
    requires op.Valid() && (op.bufmode == Extensible || op.Pending() == [])
    modifies op`buf, op`ptr, op`end, op`sink, op`script
    ensures op.Valid() && (op.buf == old(op.buf) || fresh(op.buf))
    ensures w == DirectCount(op.bufmode, old(op.script), |str|)
    ensures op.Output() == old(op.Output()) + (if w < 0 then [] else str[..w])
    ensures op.bufmode != Extensible ==> op.Pending() == []
    ensures old(op.Reliable()) ==> op.Reliable()
  {
    if op.bufmode == Extensible {
      op.StrWrite(str);
      assert str[..|str|] == str;
      w := |str|;
    } else {
      var intr;
      w, intr := op.SysWrite(str);
      assert op.sink + op.Pending() == op.sink;
    }
  }

  // ---------------------------------------------------------------------
  // bgl_sendchars
  // ---------------------------------------------------------------------

  /** What the direct write of `len` bytes returns: -1 for an error, which only a device has. */
  function DirectCount(bufmode: BufMode, script: seq<WriteEvent>, len: nat): (w: int)
    ensures -1 <= w <= len
  {
    if bufmode == Extensible then len else WriteCount(script, len)
  }

  /** How many of `dsz` buffered bytes bgl_sendchars writes directly. */
  function Direct(sz: int, dsz: nat): nat {
    if 0 < sz < dsz then sz else dsz
  }

  /** What its direct write returns, on a port that has been flushed; 0 if nothing is buffered. */
  function DirectResult(bufmode: BufMode, script: seq<WriteEvent>, sz: int, dsz: nat): (w: int)
    ensures -1 <= w <= Direct(sz, dsz)
  {
    if dsz == 0 then 0 else DirectCount(bufmode, script, Direct(sz, dsz))
  }

  /** How many bytes flushing the port leaves in its buffer, and what the device does next. */
  ghost function Flushing(op: OutputPort): Drained
    requires op.Valid()
    reads op, op.buf
  {
    if op.bufmode == Extensible then Drained(0, op.script) else Drain(op.script, |op.Pending()|)
  }

  /** The cursor moves by the result of the write, whatever it is: an error moves it back by one. */
  method Advance(ip: InputPort, w: int) returns (ghost text: seq<byte>)
    requires ip.Valid() && -1 <= w <= ip.bufpos - ip.matchstop
    modifies ip`matchstop, ip`forward
    ensures ip.SourceOk() && ip.forward == ip.matchstop == old(ip.matchstop) + w
    ensures w < 0 ==> text == []
    ensures w >= 0 ==> ip.Valid() && text == old(ip.Pending()[..w]) && old(ip.Pending()) == text + ip.Pending()
    ensures w >= 0 ==> old(ip.Stream()) == text + ip.Stream()
  {
    hide InputPort.Source;
    text := if w < 0 then [] else ip.Pending()[..w];
    assert w >= 0 ==> ip.Pending() == text + ip.buf[ip.matchstop + w..ip.bufpos];
    assert w >= 0 ==> ip.Stream() == text + (ip.buf[ip.matchstop + w..ip.bufpos] + ip.Source());
    ip.matchstop := ip.matchstop + w;
    ip.forward := ip.matchstop;
  }

  /** The direct write of the first `ws` buffered bytes in bgl_sendchars. */
  method SendBuffered(ip: InputPort, op: OutputPort, ws: nat) returns (w: int, ghost text: seq<byte>)
    requires ip.Valid() && op.Valid() && ws <= ip.bufpos - ip.matchstop && Separate(ip, op)
    requires op.bufmode == Extensible || op.Pending() == []
    modifies ip`matchstop, ip`forward, op`buf, op`ptr, op`end, op`sink, op`script
    ensures ip.SourceOk() && op.Valid() && Separate(ip, op) && (op.buf == old(op.buf) || fresh(op.buf))
    ensures w == DirectCount(op.bufmode, old(op.script), ws)
    ensures text == if w < 0 then [] else old(ip.Pending()[..w])
    ensures ip.forward == ip.matchstop == old(ip.matchstop) + w
    ensures w >= 0 ==> ip.Valid() && old(ip.Pending()) == text + ip.Pending() && old(ip.Stream()) == text + ip.Stream()
    ensures op.Output() == old(op.Output()) + text && (op.bufmode != Extensible ==> op.Pending() == [])
    ensures old(op.Reliable()) ==> op.Reliable()
  {
    hide InputPort.Source, InputPort.Chunked, OutputPort.Reliable, OutputPort.Output;
    var part := ip.buf[ip.matchstop..ip.matchstop + ws];
    assert part == ip.Pending()[..ws];
    w := DirectWrite(op, part);
    assert w >= 0 ==> part[..w] == ip.Pending()[..w];
    text := Advance(ip, w);
  }

  /** The copy that ends bgl_sendchars. It reads on in the source, whatever is in the buffer. */
  method SendRest(ip: InputPort, op: OutputPort, left: int, ws: nat, ioBufsiz: nat)
    returns (r: SendResult, ghost more: seq<byte>)
    requires ip.SourceOk() && op.Valid() && !op.closed && Separate(ip, op) && ioBufsiz > 0
    requires op.bufmode != Extensible ==> op.Pending() == []
    modifies ip`filepos, ip`pbuffer, ip`pbufpos, ip`chunks, ip`eof
    modifies op`buf, op`ptr, op`end, op`stdoutFrom, op`err, op`sink, op`script, op.buf
    ensures ip.SourceOk() && op.Valid()
    ensures old(ip.Source()) == more + ip.Source() && ip.buf[..] == old(ip.buf[..])
    ensures old(ip.Valid()) ==> ip.Valid() && ip.Pending() == old(ip.Pending())
    ensures r.Sent? || r.SendRaised?
    ensures r.Sent? ==> r.n == ws + |more| && op.Output() == old(op.Output()) + more
    ensures r.Sent? ==> ip.filepos == old(ip.filepos) + r.n
    ensures r.Sent? && op.bufmode != Extensible ==> op.Pending() == []
    ensures r.Sent? && left >= 0 ==> |more| <= left
    ensures r.Sent? && old(ip.Chunked()) ==> |more| == Wanted(left, |old(ip.Source())|)
    ensures old(op.Reliable()) && !ip.failing ==> r.Sent?
    ensures old(op.Reliable() && ip.Chunked()) ==> (r.SendRaised? <==> ip.failing && (left < 0 || |old(ip.Source())| < left))
  {
    hide InputPort.Source, InputPort.Chunked, OutputPort.Reliable, OutputPort.Output;
    more := [];
    assert [] + ip.Source() == ip.Source() && op.Output() + [] == op.Output();
    var n := 0;
    if left != 0 {
      var c;
      c, more := CopyFile(op, ip, left, ioBufsiz);
      if c.CopyRaised? {
        return SendRaised, more;
      }
      n := c.n;
    }
    ip.filepos := ip.filepos + n + ws;
    return Sent(n + ws), more;
  }

  /** The part of bgl_sendchars that writes the buffered bytes directly. The result `w` of the
      write is kept in an unsigned word, where -1 is not less than `ws`: a short write is an
      error, a failed one counts as complete. */
  method SendDirect(ip: InputPort, op: OutputPort, sz: int)
    returns (done: Option<SendResult>, ws: nat, left: int, ghost text: seq<byte>, ghost w: int)
    requires ip.Valid() && op.Valid() && Separate(ip, op)
    requires op.bufmode == Extensible || op.Pending() == []
    modifies ip`matchstop, ip`forward, op`buf, op`ptr, op`end, op`sink, op`script
    ensures ip.SourceOk() && op.Valid() && Separate(ip, op) && (op.buf == old(op.buf) || fresh(op.buf))
    ensures ws == Direct(sz, |old(ip.Pending())|)
    ensures w == DirectResult(op.bufmode, old(op.script), sz, |old(ip.Pending())|)
    ensures done == if 0 <= w < ws then Some(SendFailed) else if 0 < sz <= |old(ip.Pending())| then Some(Sent(sz)) else None
    ensures done.None? ==> left == if sz > 0 then sz - ws else sz
    ensures text == if w < 0 then [] else old(ip.Pending()[..w])
    ensures w >= 0 ==> ip.Valid() && old(ip.Pending()) == text + ip.Pending() && old(ip.Stream()) == text + ip.Stream()
    ensures w < 0 ==> ip.forward == ip.matchstop == old(ip.matchstop) - 1
    ensures op.Output() == old(op.Output()) + text && (op.bufmode != Extensible ==> op.Pending() == [])
    ensures old(op.Reliable()) ==> op.Reliable()
  {
    hide InputPort.Source, InputPort.Chunked, InputPort.Valid, InputPort.Pending, InputPort.Stream;
    hide OutputPort.Reliable, OutputPort.Output, OutputPort.Valid, OutputPort.Pending, DirectCount;
    PendingFacts(ip);
    text, w := [], 0;
    assert op.Output() + [] == op.Output() && [] + ip.Stream() == ip.Stream() && [] + ip.Pending() == ip.Pending();
    var dsz := ip.bufpos - ip.matchstop;
    ws, left := 0, sz;
    if dsz > 0 {
      ws := if sz > 0 && dsz > sz then sz else dsz;
      var w';
      w', text := SendBuffered(ip, op, ws);
      w := w';
      if 0 <= w' < ws {
        return Some(SendFailed), ws, left, text, w;
      }
      if sz > 0 {
        if dsz >= sz {
          return Some(Sent(ws)), ws, left, text, w;
        }
        left := sz - ws;
      }
    }
    done := None;
  }

  /** The same, once `first` has been written directly after `out`. */
  method SendOn(ip: InputPort, op: OutputPort, left: int, ws: nat, ioBufsiz: nat, ghost first: seq<byte>, ghost out: seq<byte>)
    returns (r: SendResult, ghost text: seq<byte>)
    requires ip.SourceOk() && op.Valid() && !op.closed && Separate(ip, op) && ioBufsiz > 0
    requires (op.bufmode != Extensible ==> op.Pending() == []) && op.Output() == out + first
    modifies ip`filepos, ip`pbuffer, ip`pbufpos, ip`chunks, ip`eof
    modifies op`buf, op`ptr, op`end, op`stdoutFrom, op`err, op`sink, op`script, op.buf
    ensures ip.SourceOk() && op.Valid() && ip.buf[..] == old(ip.buf[..])
    ensures |first| <= |text| && first + old(ip.Source()) == text + ip.Source()
    ensures first == [] ==> old(ip.Source()) == text + ip.Source()
    ensures old(ip.Valid() && ip.Pending() == []) ==> ip.Valid() && first + old(ip.Stream()) == text + ip.Stream()
    ensures r.Sent? || r.SendRaised?
    ensures r.Sent? ==> r.n == ws + |text| - |first| && op.Output() == out + text
    ensures r.Sent? ==> ip.filepos == old(ip.filepos) + r.n
    ensures r.Sent? && op.bufmode != Extensible ==> op.Pending() == []
    ensures r.Sent? && left >= 0 ==> r.n <= ws + left
    ensures r.Sent? && old(ip.Chunked()) ==> r.n == ws + Wanted(left, |old(ip.Source())|)
    ensures old(op.Reliable()) && !ip.failing ==> r.Sent?
    ensures old(op.Reliable() && ip.Chunked()) ==> (r.SendRaised? <==> ip.failing && (left < 0 || |old(ip.Source())| < left))
  {
    hide *;
    ghost var more;
    if ip.Valid() { PendingFacts(ip); }
    r, more := SendRest(ip, op, left, ws, ioBufsiz);
    text := first + more;
    if ip.Valid() { PendingFacts(ip); }
    Joined(first + (more + ip.Source()), first, more, ip.Source());
    Joined(op.Output(), out, first, more);
    assert [] + more == more;
  }

  /** The two parts of a request add up to it. */
  lemma WantedInParts(sz: int, dsz: nat, rest: nat)
    ensures 0 < sz <= dsz ==> Direct(sz, dsz) == Wanted(sz, dsz + rest) == sz
    ensures !(0 < sz <= dsz) ==>
              var left := if sz > 0 then sz - dsz else sz;
              && Direct(sz, dsz) == dsz && (sz > 0 ==> left >= 0)
              && dsz + Wanted(left, rest) == if sz == 0 then dsz else Wanted(sz, dsz + rest)
  {}

  /** bgl_sendchars after it has flushed the output port. */
  method SendFlushed(ip: InputPort, op: OutputPort, sz: int, ioBufsiz: nat)
    returns (r: SendResult, ghost text: seq<byte>, ghost w: int)
    requires ip.Valid() && op.Valid() && !ip.closed && !op.closed && Separate(ip, op) && ioBufsiz > 0
    requires op.bufmode == Extensible || op.Pending() == []
    modifies ip`matchstop, ip`forward, ip`filepos, ip`pbuffer, ip`pbufpos, ip`chunks, ip`eof
    modifies op`buf, op`ptr, op`end, op`stdoutFrom, op`err, op`sink, op`script, op.buf
    ensures ip.SourceOk() && op.Valid() && r != NotSent && ip.buf[..] == old(ip.buf[..])
    ensures w == DirectResult(op.bufmode, old(op.script), sz, |old(ip.Pending())|)
    ensures r == SendFailed <==> 0 <= w < Direct(sz, |old(ip.Pending())|)
    ensures !r.SendRaised? ==> op.Output() == old(op.Output()) + text
    ensures r.Sent? && op.bufmode != Extensible ==> op.Pending() == []
    ensures r.Sent? ==> r.n == |text| + if w < 0 then Direct(sz, |old(ip.Pending())|) else 0
    ensures r.Sent? && sz > 0 ==> r.n <= sz
    ensures r.Sent? && old(ip.Chunked()) ==>
              r.n == if sz == 0 then |old(ip.Pending())| else Wanted(sz, |old(ip.Stream())|)
    ensures r.Sent? ==> ip.filepos == old(ip.filepos) + if 0 < sz <= |old(ip.Pending())| then 0 else r.n
    ensures w >= 0 ==> ip.Valid() && old(ip.Stream()) == text + ip.Stream()
    ensures w < 0 ==> ip.forward == ip.matchstop == old(ip.matchstop) - 1 && old(ip.Source()) == text + ip.Source()
    ensures w < 0 && 0 < sz <= |old(ip.Pending())| ==> r == Sent(sz) && text == []
    ensures old(op.Reliable()) && !ip.failing ==> r.Sent? || r == SendFailed
    ensures old(op.Reliable() && ip.Chunked()) ==>
              (r == SendRaised <==> r != SendFailed && ip.failing && (sz < 0 || |old(ip.Stream())| < sz))
  {
    hide *;
    PendingFacts(ip);
    ghost var stream, out, src := ip.Stream(), op.Output(), ip.Source();
    WantedInParts(sz, |ip.Pending()|, |src|);
    var done, ws, left;
    done, ws, left, text, w := SendDirect(ip, op, sz);
    if done.Some? {
      return done.value, text, w;
    }
    if w >= 0 { PendingFacts(ip); }
    r, text := SendOn(ip, op, left, ws, ioBufsiz, text, out);
  }

  /** bgl_sendchars without an offset: the port is flushed, the buffered bytes are written directly,
      and the rest is copied from the source. Unless the direct write fails (`w` < 0), what leaves
      the input port arrives at the output port, in order, and is counted. If it fails, the
      bytes it was to write stay in the buffer, behind one that was read before, and are
      counted all the same. */
  method SendChars(ip: InputPort, op: OutputPort, sz: int, ioBufsiz: nat)
    returns (r: SendResult, ghost text: seq<byte>, ghost w: int)
    requires ip.Valid() && op.Valid() && Separate(ip, op) && ioBufsiz > 0
    modifies ip`matchstop, ip`forward, ip`filepos, ip`pbuffer, ip`pbufpos, ip`chunks, ip`eof
    modifies op`buf, op`ptr, op`end, op`stdoutFrom, op`err, op`sink, op`script, op.buf
    ensures ip.SourceOk() && op.Valid() && ip.buf[..] == old(ip.buf[..])
    ensures r == NotSent <==> old(ip.closed || op.closed)
    ensures old(Flushing(op)).left > 0 && r != NotSent ==> r == SendRaised
    ensures r == NotSent || old(Flushing(op)).left > 0 ==> text == [] && ip.Valid() && ip.Stream() == old(ip.Stream()) && w == 0
    ensures r != NotSent && old(Flushing(op)).left == 0 ==>
              w == DirectResult(op.bufmode, old(Flushing(op)).script, sz, |old(ip.Pending())|)
    ensures r == SendFailed <==>
              !old(ip.closed || op.closed) && old(Flushing(op)).left == 0 && 0 <= w < Direct(sz, |old(ip.Pending())|)
    ensures !r.SendRaised? ==> op.Output() == old(op.Output()) + text
    ensures r.Sent? && op.bufmode != Extensible ==> op.Pending() == []
    ensures r.Sent? ==> r.n == |text| + if w < 0 then Direct(sz, |old(ip.Pending())|) else 0
    ensures r.Sent? && sz > 0 ==> r.n <= sz
    ensures r.Sent? && old(ip.Chunked()) ==>
              r.n == if sz == 0 then |old(ip.Pending())| else Wanted(sz, |old(ip.Stream())|)
    ensures r.Sent? ==> ip.filepos == old(ip.filepos) + if 0 < sz <= |old(ip.Pending())| then 0 else r.n
    ensures w >= 0 ==> ip.Valid() && old(ip.Stream()) == text + ip.Stream()
    ensures w < 0 ==> ip.forward == ip.matchstop == old(ip.matchstop) - 1 && old(ip.Source()) == text + ip.Source()
    ensures w < 0 && 0 < sz <= |old(ip.Pending())| ==> r == Sent(sz) && text == []
    ensures old(op.Reliable()) && !ip.failing && r != NotSent ==> r.Sent? || r == SendFailed
    ensures old(op.Reliable() && ip.Chunked()) && r != NotSent ==>
              (r == SendRaised <==> r != SendFailed && ip.failing && (sz < 0 || |old(ip.Stream())| < sz))
  {
    hide InputPort.Source, InputPort.Chunked, InputPort.Valid, InputPort.Pending, InputPort.Stream;
    hide OutputPort.Reliable, OutputPort.Output, OutputPort.Valid, OutputPort.Pending, Drain, DirectResult;
    PendingFacts(ip);
    text, w := [], 0;
    assert [] + ip.Stream() == ip.Stream() && op.Output() + [] == op.Output();
    if op.closed || ip.closed {
      return NotSent, text, w;
    }
    var f := op.OutputFlush([], false, true);
    if f == Raised {
      return SendRaised, text, w;
    }
    r, text, w := SendFlushed(ip, op, sz, ioBufsiz);
  }

  /** The direct write goes unnoticed wrong exactly if bytes are buffered, the port has a device, and
      the event after those the flush uses up is an interruption or a failure. */
  lemma WhenUnnoticed(bufmode: BufMode, script: seq<WriteEvent>, sz: int, dsz: nat)
    ensures DirectResult(bufmode, script, sz, dsz) < 0
            <==> dsz > 0 && bufmode != Extensible && script != [] && !script[0].Partial?
  {}

  /** A short one is noticed: it is one of fewer bytes than were to be written. */
  lemma WhenFailed(bufmode: BufMode, script: seq<WriteEvent>, sz: int, dsz: nat)
    ensures 0 <= DirectResult(bufmode, script, sz, dsz) < Direct(sz, dsz)
            <==> dsz > 0 && bufmode != Extensible && script != [] && script[0].Partial? && script[0].n < Direct(sz, dsz)
  {}

  /** A port from which one byte has been read and five are buffered. */
  method FivePending() returns (ip: InputPort)
    ensures fresh(ip) && fresh(ip.buf) && ip.Valid() && !ip.closed
    ensures ip.Window() == [0, 1, 2, 3, 4, 5] && |ip.Pending()| == 5
  {
    hide InputPort.Source, InputPort.Chunked, InputPort.Valid, InputPort.Window, InputPort.Pending, InputPort.Stream;
    ip := new InputPort(8, [], false, false);
    PendingFacts(ip);
    var text: seq<byte> := [0, 1, 2, 3, 4, 5];
    var pushed := ip.InsertSubstring(text, 0, 6);
    ip.Cursors();
    assert text[0..6] == text && ip.Source() == [] && text + [] == text && ip.Pending() + [] == ip.Pending();
    ip.StartMatch();
    ip.Look();
    ip.StopMatch();
    ip.Cursors();
  }

  /** Five bytes are to be sent, the write is interrupted or fails, and bgl_sendchars returns 5:
      nothing has arrived, and what is to be read next is all five bytes, behind the one that was
      read before. */
  method FailedWrite(event: WriteEvent) returns (r: SendResult, arrived: seq<byte>, unread: seq<byte>)
    requires !event.Partial?
    ensures r == Sent(5) && arrived == [] && unread == [0, 1, 2, 3, 4, 5]
  {
    hide InputPort.Source, InputPort.Chunked;
    var ip := FivePending();
    var op := new OutputPort(8, FullyBuffered, false, [event]);
    assert op.Pending() == [] && Flushing(op) == Drained(0, [event]);
    ghost var window := ip.Window();
    ghost var moved, w;
    r, moved, w := SendChars(ip, op, 5, 8);
    arrived := op.sink;
    unread := ip.buf[ip.matchstop..ip.bufpos];
  }

  lemma Joined(s: seq<byte>, a: seq<byte>, b: seq<byte>, c: seq<byte>)
    ensures s == a + (b + c) ==> s == (a + b) + c
    ensures s == (a + b) + c ==> s == a + (b + c)
  {}

  lemma PendingFacts(ip: InputPort)
    requires ip.Valid()
    ensures |ip.Pending()| == ip.bufpos - ip.matchstop && ip.SourceOk()
    ensures |ip.Stream()| == |ip.Pending()| + |ip.Source()|
    ensures ip.Pending() == [] ==> ip.Stream() == ip.Source()
  {}
}
