/** Output ports (runtime/Clib/cports.c): buffered ports over a device that may write
    partially, be interrupted or fail, and extensible string ports. */
module OutputPorts {
  import opened Common
  import opened Bytes

  /** What the next write system call does. */
  datatype WriteEvent = Partial(n: nat) | Interrupted | Fails

  datatype BufMode = Unbuffered | LineBuffered | FullyBuffered | Extensible

  /** `Dropped`: a write failed where the caller asked for no error to be raised. */
  datatype FlushResult = Done | Dropped | Raised | Closed

  /** What the next system write of `len` bytes returns: how many it takes, or -1 for an error. */
  function WriteCount(script: seq<WriteEvent>, len: nat): int {
    if script == [] then len
    else match script[0]
      case Partial(k) => Min(k, len)
      case Interrupted => -1
      case Fails => -1
  }

  function AfterWrite(script: seq<WriteEvent>): seq<WriteEvent> {
    if script == [] then [] else script[1..]
  }

  /** Writing until `len` bytes are out or a write fails: how many bytes are left, and what the
      device will do next. */
  datatype Drained = Drained(left: nat, script: seq<WriteEvent>)

  function Drain(script: seq<WriteEvent>, len: nat): (d: Drained)
    ensures d.left <= len
    decreases |script|
  {
    if len == 0 || script == [] then Drained(0, script)
    else if script[0].Fails? then Drained(len, script[1..])
    else Drain(script[1..], len - (if script[0].Partial? then Min(script[0].n, len) else 0))
  }

  /** One write of the loop. */
  lemma DrainStep(script: seq<WriteEvent>, len: nat)
    requires len > 0
    ensures var n, rest := WriteCount(script, len), AfterWrite(script);
            Drain(script, len) == if n >= 0 then Drain(rest, len - n)
                                  else if script[0].Interrupted? then Drain(rest, len)
                                  else Drained(len, rest)
  {}

  lemma DrainNothing(script: seq<WriteEvent>)
    ensures Drain(script, 0) == Drained(0, script)
  {}

  /** No call fails other than by being interrupted. */
  predicate NoFailure(script: seq<WriteEvent>) {
    forall e | e in script :: !e.Fails?
  }

  /** A device without failures takes everything. */
  lemma {:induction false} DrainsAll(script: seq<WriteEvent>, len: nat)
    ensures |Drain(script, len).script| <= |script|
    ensures NoFailure(script) ==> Drain(script, len).left == 0 && NoFailure(Drain(script, len).script)
    decreases |script|
  {
    if len > 0 && script != [] && !script[0].Fails? {
      assert NoFailure(script) ==> NoFailure(script[1..]);
      DrainsAll(script[1..], len - (if script[0].Partial? then Min(script[0].n, len) else 0));
    }
  }

  class OutputPort {
    var buf: array<byte>
    /** The free part of the buffer is [ptr, end). */
    var ptr: nat
    var end: nat
    const bufmode: BufMode
    const isStdout: bool
    /** How much of the buffer of standard output flushes for a console read have written. */
    var stdoutFrom: nat
    var closed: bool
    var err: bool
    /** What the device has received, and what its next calls will do; once that is used
        up, calls write all they are given. */
    var sink: seq<byte>
    var script: seq<WriteEvent>

    ghost predicate Valid()
      reads this
    {
      && stdoutFrom <= ptr <= end == buf.Length
      && (!isStdout ==> stdoutFrom == 0)
      && (bufmode == Extensible ==> !isStdout && sink == [])
    }

    /** What is in the buffer and not on the device. */
    ghost function Pending(): seq<byte>
      requires Valid()
      reads this, buf
    {
      buf[stdoutFrom..ptr]
    }

    /** Everything written so far, on the device or not. */
    ghost function Output(): seq<byte>
      requires Valid()
      reads this, buf
    {
      sink + Pending()
    }

    constructor (bufsiz: nat, bufmode: BufMode, isStdout: bool, script: seq<WriteEvent>)
      requires bufmode == Extensible ==> !isStdout
      ensures Valid() && fresh(buf) && Output() == [] && sink == [] && !closed && !err
      ensures this.bufmode == bufmode && this.isStdout == isStdout && this.script == script
    {
      buf := new byte[bufsiz];
      ptr, end, stdoutFrom := 0, bufsiz, 0;
      closed, err := false, false;
      this.bufmode, this.isStdout, this.script := bufmode, isStdout, script;
      sink := [];
    }

    /** BGL_OUTPUT_PORT_CNT. */
    function Cnt(): int
      reads this
    {
      end - ptr
    }

    /** bgl_syswrite. A negative count is a failure; `intr` tells EINTR and EAGAIN. */
    method SysWrite(str: seq<byte>) returns (n: int, intr: bool)
      modifies this`sink, this`script
      ensures n == WriteCount(old(script), |str|) && script == AfterWrite(old(script))
      ensures intr <==> old(script) != [] && old(script)[0].Interrupted?
      ensures sink == old(sink) + if n < 0 then [] else str[..n]
    {
      if script == [] {
        sink := sink + str;
        assert str == str[..|str|];
        return |str|, false;
      }
      var e := script[0];
      script := script[1..];
      match e {
        case Partial(k) =>
          n := Min(k, |str|);
          sink := sink + str[..n];
          return n, false;
        case Interrupted => return -1, true;
        case Fails => return -1, false;
      }
    }

    /** No call will fail other than by being interrupted. */
    predicate Reliable()
      reads this`script
    {
      NoFailure(script)
    }

    /** flush_string: writes until everything is out, over short and interrupted writes. */
    method FlushString(s: seq<byte>, raise: bool) returns (r: FlushResult)
      modifies this`sink, this`script, this`err
      ensures r == Done ==> sink == old(sink) + s && err == old(err)
      ensures r == Raised ==> raise && err
      ensures r == Dropped ==> !raise && err == old(err)
      ensures r != Closed && old(sink) <= sink <= old(sink) + s
      ensures var d := Drain(old(script), |s|);
              (r == Done <==> d.left == 0) && sink == old(sink) + s[..|s| - d.left] && script == d.script
      ensures old(Reliable()) ==> r == Done && Reliable()
      ensures |script| <= |old(script)|
    {
      hide NoFailure, Drain;
      DrainsAll(script, |s|);
      var str := s;
      while |str| > 0
        invariant |str| <= |s| && str == s[|s| - |str|..]
        invariant sink == old(sink) + s[..|s| - |str|] && err == old(err)
        invariant Drain(script, |str|) == Drain(old(script), |s|)
        decreases |script| + |str|
      {
        DrainStep(script, |str|);
        var n, intr := SysWrite(str);
        if n < 0 {
          if intr {
            continue;
          } else if raise {
            err := true;
            return Raised;
          } else {
            return Dropped;
          }
        }
        assert s[..|s| - |str|] + str[..n] == s[..|s| - |str| + n];
        str := str[n..];
      }
      assert s[..|s|] == s;
      DrainNothing(script);
      return Done;
    }

    /** strwrite: the system write of string ports, which enlarges the buffer. */
    method StrWrite(str: seq<byte>)
      requires Valid() && bufmode == Extensible
      modifies this`buf, this`ptr, this`end
      ensures Valid() && fresh(buf) && Output() == old(Output()) + str
      ensures buf.Length == 2 * (old(buf.Length) + |str|)
    {
      var used := buf.Length - Cnt();
      var nbuf := new byte[(buf.Length + |str|) * 2];
      CopyIn(nbuf, 0, buf[..used]);
      ghost var b := nbuf[..];
      CopyIn(nbuf, used, str);
      assert nbuf[..used + |str|] == b[..used] + str;
      buf := nbuf;
      ptr := used + |str|;
      end := nbuf.Length;
    }

    /** The two calls of flush_string in output_flush: the buffer, then the text. */
    method FlushBoth(text: seq<byte>, str: seq<byte>, raise: bool) returns (r: FlushResult)
      modifies this`err, this`sink, this`script
      ensures r != Closed && old(sink) <= sink
      ensures r == Done ==> sink == old(sink) + text + str
      ensures r == Raised ==> raise && err && sink <= old(sink) + text + str
      ensures r == Dropped ==> !raise && (str == [] ==> sink <= old(sink) + text)
      ensures str == [] ==> var d := Drain(old(script), |text|); (r == Done <==> d.left == 0) && script == d.script
      ensures old(Reliable()) ==> Reliable() && r == Done
      ensures |script| <= |old(script)|
    {
      hide Reliable, Drain;
      r := FlushString(text, raise);
      if r == Raised {
        PrefixTrans(sink, sink, [], str);
        return;
      }
      ghost var s1 := sink;
      DrainNothing(script);
      var r2 := FlushString(str, raise);
      if r2 == Raised {
        return Raised;
      }
      assert str == [] ==> s1 + str == s1;
      r := if r == Dropped then Dropped else r2;
    }

    /** output_flush of a port with a device. */
    method FlushToDevice(str: seq<byte>, isReadFlush: bool, raise: bool) returns (r: FlushResult)
      requires Valid() && bufmode != Extensible && (isReadFlush ==> str == [])
      modifies this`ptr, this`end, this`stdoutFrom, this`err, this`sink, this`script
      ensures Valid() && r != Closed && old(sink) <= sink
      ensures r == Done ==> sink == old(Output()) + str && Pending() == []
      ensures r == Done && !isReadFlush ==> ptr == 0
      ensures r == Raised ==> raise && err && sink <= old(Output()) + str && Pending() == old(Pending())
      ensures r == Dropped ==> !raise && Pending() == [] && (str == [] ==> sink <= old(Output()))
      ensures str == [] ==> var d := Drain(old(script), |old(Pending())|); (r == Done <==> d.left == 0) && script == d.script
      ensures old(Reliable()) ==> Reliable() && r == Done
      ensures |script| <= |old(script)|
    {
      hide Reliable, Drain;
      var use := buf.Length - Cnt();
      var start := 0;
      if isStdout {
        use := use - stdoutFrom;
        start := stdoutFrom;
      }
      r := FlushBoth(buf[start..start + use], str, raise);
      if r == Raised {
        return;
      }
      if isStdout && isReadFlush {
        stdoutFrom := stdoutFrom + use;
      } else {
        stdoutFrom := 0;
        ptr := 0;
        end := buf.Length;
      }
    }

    /** output_flush. */
    method OutputFlush(str: seq<byte>, isReadFlush: bool, raise: bool) returns (r: FlushResult)
      requires Valid() && (isReadFlush ==> str == [])
      modifies this`buf, this`ptr, this`end, this`stdoutFrom, this`err, this`sink, this`script
      ensures Valid() && (buf == old(buf) || fresh(buf))
      ensures closed <==> r == Closed
      ensures closed ==> sink == old(sink) && Pending() == old(Pending())
      ensures r == Done ==> Output() == old(Output()) + str && old(sink) <= sink
      ensures r == Done && bufmode != Extensible ==> Pending() == []
      ensures bufmode != Extensible ==> buf == old(buf)
      ensures r == Done && bufmode != Extensible && !isReadFlush ==> ptr == 0
      ensures r == Raised ==> raise && err && old(sink) <= sink <= old(Output()) + str && Pending() == old(Pending())
      ensures r == Dropped ==> !raise && Pending() == [] && (str == [] ==> old(sink) <= sink <= old(Output()))
      ensures bufmode == Extensible || closed ==> script == old(script)
      ensures bufmode == Extensible && !closed ==> r == Done
      ensures str == [] && bufmode != Extensible && !closed ==>
                var d := Drain(old(script), |old(Pending())|); (r == Done <==> d.left == 0) && script == d.script
      ensures old(Reliable()) ==> Reliable() && (r == Done || r == Closed)
      ensures |script| <= |old(script)|
    {
      hide Reliable, Drain;
      if closed {
        return Closed;
      }
      if bufmode != Extensible {
        r := FlushToDevice(str, isReadFlush, raise);
        assert Pending() == [] ==> Output() == sink;
      } else {
        r := Done;
        if |str| > 0 || Cnt() == 0 {
          StrWrite(str);
        }
      }
    }

    /** One character into a buffer with room. */
    method PutByte(c: byte)
      requires Valid() && Cnt() > 0
      modifies this`ptr, buf
      ensures Valid() && Pending() == old(Pending()) + [c] && ptr == old(ptr) + 1
      ensures Output() == old(Output()) + [c]
    {
      ghost var p := Pending();
      buf[ptr] := c;
      assert buf[stdoutFrom..ptr] == p;
      ptr := ptr + 1;
      assert sink + (p + [c]) == (sink + p) + [c];
    }

    /** One turn of the loop of bgl_write for line-buffered ports. */
    method PutLineByte(c: byte) returns (r: FlushResult)
      requires Valid() && !closed && Cnt() > 0 && bufmode == LineBuffered
      modifies this`buf, this`ptr, this`end, this`stdoutFrom, this`err, this`sink, this`script, buf
      ensures Valid() && buf == old(buf)
      ensures r == Done || r == Raised
      ensures r == Done ==> Output() == old(Output()) + [c] && old(sink) <= sink && Cnt() >= old(Cnt()) - 1
      ensures r == Raised ==> err && old(sink) <= sink <= old(Output()) + [c]
      ensures old(Reliable()) ==> Reliable() && r == Done
      ensures |script| <= |old(script)|
      ensures r == Done && NEWLINE !in old(Pending()) ==> NEWLINE !in Pending()
    {
      hide Reliable, Output, Pending;
      PutByte(c);
      r := Done;
      if c == NEWLINE {
        ghost var out := Output();
        r := OutputFlush([], false, true);
        assert out + [] == out;
      }
    }

    /** The loop of bgl_write for line-buffered ports. */
    method WriteLines(str: seq<byte>) returns (r: FlushResult)
      requires Valid() && !closed && Cnt() > |str| && bufmode == LineBuffered
      modifies this`buf, this`ptr, this`end, this`stdoutFrom, this`err, this`sink, this`script, buf
      ensures Valid() && buf == old(buf)
      ensures r == Done || r == Raised
      ensures r == Done ==> Output() == old(Output()) + str && old(sink) <= sink
      ensures r == Raised ==> err && old(sink) <= sink <= old(Output()) + str
      ensures old(Reliable()) ==> Reliable() && r == Done
      ensures |script| <= |old(script)|
      ensures r == Done && NEWLINE !in old(Pending()) ==> NEWLINE !in Pending()
    {
      hide Reliable, Output, Pending, Valid;
      ghost var out := Output();
      assert out + [] == out;
      var i := 0;
      while i < |str|
        invariant Valid() && buf == old(buf) && i <= |str| && Cnt() > |str| - i
        invariant Output() == out + str[..i]
        invariant old(sink) <= sink && |script| <= |old(script)|
        invariant old(Reliable()) ==> Reliable()
        invariant NEWLINE !in old(Pending()) ==> NEWLINE !in Pending()
      {
        r := PutLineByte(str[i]);
        i := i + 1;
        assert out + str[..i - 1] + [str[i - 1]] == out + str[..i];
        if r == Raised {
          PrefixTrans(sink, out, str[..i], str);
          return;
        }
      }
      assert str[..|str|] == str;
      return Done;
    }

    /** bgl_write. */
    method Write(str: seq<byte>) returns (r: FlushResult)
      requires Valid() && !closed
      modifies this`buf, this`ptr, this`end, this`stdoutFrom, this`err, this`sink, this`script, buf
      ensures Valid() && (buf == old(buf) || fresh(buf))
      ensures r == Done || r == Raised
      ensures r == Done ==> Output() == old(Output()) + str && old(sink) <= sink
      ensures r == Raised ==> err && old(sink) <= sink <= old(Output()) + str
      ensures old(Reliable()) ==> Reliable() && r == Done
      ensures |script| <= |old(script)|
      ensures r == Done && bufmode == LineBuffered && NEWLINE !in old(Pending()) ==> NEWLINE !in Pending()
    {
      if Cnt() > |str| {
        if bufmode == LineBuffered {
          r := WriteLines(str);
        } else {
          ghost var p := Pending();
          CopyIn(buf, ptr, str);
          ptr := ptr + |str|;
          assert Pending() == p + str;
          return Done;
        }
      } else {
        r := OutputFlush(str, false, true);
      }
    }

    /** get_output_string. */
    method GetOutputString() returns (str: seq<byte>)
      requires Valid() && bufmode == Extensible
      ensures str == Output()
    {
      return buf[..buf.Length - Cnt()];
    }

    /** bgl_reset_output_string_port: hands the text over and starts afresh. */
    method ResetOutputString() returns (str: seq<byte>)
      requires Valid() && bufmode == Extensible
      modifies this`ptr, this`end
      ensures Valid() && str == old(Output()) && Output() == []
    {
      str := GetOutputString();
      ptr := 0;
      end := buf.Length;
    }

    /** A whole run of writes, flushes and flushes for console reads: nothing is lost,
        duplicated or reordered. A write that fails leaves on the device a prefix of
        what was written. */
    method Run(ops: seq<Op>) returns (r: FlushResult)
      requires Valid() && !closed
      modifies this`buf, this`ptr, this`end, this`stdoutFrom, this`err, this`sink, this`script, buf
      ensures Valid()
      ensures r == Done || r == Raised
      ensures r == Done ==> Output() == old(Output()) + Written(ops)
      ensures r == Raised ==> err && old(sink) <= sink <= old(Output()) + Written(ops)
      ensures old(Reliable()) ==> Reliable() && r == Done
      ensures |script| <= |old(script)|
      ensures r == Done && bufmode == LineBuffered && NEWLINE !in old(Pending()) ==> NEWLINE !in Pending()
    {
      hide Reliable, Output, Pending, Valid, Written, Text;
      ghost var out := Output();
      WrittenNothing(out);
      for i := 0 to |ops|
        invariant Valid() && (buf == old(buf) || fresh(buf))
        invariant Output() == out + Written(ops[..i])
        invariant old(sink) <= sink && |script| <= |old(script)|
        invariant old(Reliable()) ==> Reliable()
        invariant bufmode == LineBuffered && NEWLINE !in old(Pending()) ==> NEWLINE !in Pending()
      {
        WrittenSplit(ops, i);
        r := Perform(ops[i]);
        MovedOver(out, Written(ops[..i]), Text(ops[i]));
        if r == Raised {
          WrittenPrefix(ops, i + 1);
          PrefixTrans(sink, out, Written(ops[..i + 1]), Written(ops));
          return;
        }
      }
      assert ops[..|ops|] == ops;
      return Done;
    }

    method Perform(op: Op) returns (r: FlushResult)
      requires Valid() && !closed
      modifies this`buf, this`ptr, this`end, this`stdoutFrom, this`err, this`sink, this`script, buf
      ensures Valid() && (buf == old(buf) || fresh(buf))
      ensures r == Done || r == Raised
      ensures r == Done ==> Output() == old(Output()) + Text(op) && old(sink) <= sink
      ensures r == Raised ==> err && old(sink) <= sink <= old(Output()) + Text(op)
      ensures old(Reliable()) ==> Reliable() && r == Done
      ensures |script| <= |old(script)|
      ensures r == Done && bufmode == LineBuffered && NEWLINE !in old(Pending()) ==> NEWLINE !in Pending()
    {
      match op {
        case WriteOp(str) => r := Write(str);
        case FlushOp => r := OutputFlush([], false, true);
        case ReadFlushOp => r := OutputFlush([], true, true);
      }
    }
  }

  datatype Op = WriteOp(str: seq<byte>) | FlushOp | ReadFlushOp

  function Text(op: Op): seq<byte> {
    if op.WriteOp? then op.str else []
  }

  /** The concatenation of all that is written. */
  function Written(ops: seq<Op>): seq<byte> {
    if ops == [] then [] else Text(ops[0]) + Written(ops[1..])
  }

  lemma {:induction false} WrittenConcat(a: seq<Op>, b: seq<Op>)
    ensures Written(a + b) == Written(a) + Written(b)
  {
    if a == [] {
      assert a + b == b;
    } else {
      assert (a + b)[1..] == a[1..] + b;
      WrittenConcat(a[1..], b);
    }
  }

  /** What has been written after step `i` grows by the text of the step. */
  lemma WrittenSplit(ops: seq<Op>, i: nat)
    requires i < |ops|
    ensures Written(ops[..i + 1]) == Written(ops[..i]) + Text(ops[i])
  {
    assert ops[..i + 1] == ops[..i] + [ops[i]];
    WrittenConcat(ops[..i], [ops[i]]);
    assert Written([ops[i]]) == Text(ops[i]) + Written([]);
  }

  lemma WrittenNothing(out: seq<byte>)
    ensures Written([]) == [] && out + Written([]) == out
  {}

  lemma WrittenPrefix(ops: seq<Op>, i: nat)
    requires i <= |ops|
    ensures Written(ops[..i]) <= Written(ops)
  {
    assert ops == ops[..i] + ops[i..];
    WrittenConcat(ops[..i], ops[i..]);
  }

  lemma PrefixTrans(a: seq<byte>, b: seq<byte>, c: seq<byte>, d: seq<byte>)
    requires a <= b + c && c <= d
    ensures a <= b + d
  {}
}
