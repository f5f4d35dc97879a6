/** Whole runs of an input port, against operations on its logical stream. */
module InputRuns {
  import opened Common
  import opened Bytes
  import opened InputPorts

  datatype Op = Fill | PushBack(text: seq<byte>) | Read(n: nat) | Match(n: nat, ahead: nat)

  /** A logical stream and what has been read from it. */
  datatype Log = Log(stream: seq<byte>, read: seq<byte>)

  /** How many bytes an operation is to take off the stream. */
  function Asked(op: Op): nat {
    if op.Read? || op.Match? then op.n else 0
  }

  /** An operation that takes `k` bytes. */
  function Step(log: Log, op: Op, k: nat): Log {
    if op.PushBack? then log.(stream := op.text + log.stream)
    else if k <= |log.stream| then Log(log.stream[k..], log.read + log.stream[..k])
    else log
  }

  function Steps(log: Log, ops: seq<Op>, took: seq<nat>): Log
    requires |took| == |ops|
  {
    if ops == [] then log
    else var n := |ops| - 1; Step(Steps(log, ops[..n], took[..n]), ops[n], took[n])
  }

  /** An operation that takes what it is asked for, or all there is. */
  function FullStep(log: Log, op: Op): Log {
    Step(log, op, Min(Asked(op), |log.stream|))
  }

  function FullSteps(log: Log, ops: seq<Op>): Log {
    if ops == [] then log else FullStep(FullSteps(log, ops[..|ops| - 1]), ops[|ops| - 1])
  }

  /** The operation cannot fall short of what it is asked for: a block read might on a datagram
      port, a match where the procedure returns empty strings or a fill barrier is set. */
  ghost predicate Sure(ip: InputPort, op: Op)
    reads ip
  {
    && (op.Read? ==> !ip.datagram)
    && (op.Match? ==> ip.Chunked() && ip.fillbarrier < 0)
  }

  /** Any run of fills, push-backs, matches and block reads takes its bytes off the front of the
      logical stream in order, whatever the buffer size and however the procedure cuts its
      strings; and unless an operation may fall short, it reads what the run on the logical
      stream reads. A read error can only come at the end of the source, and loses nothing
      that was read before it. */
  method Run(ip: InputPort, ops: seq<Op>, ioBufsiz: nat) returns (ok: bool, read: seq<byte>, done: nat, ghost took: seq<nat>)
    requires ip.Valid() && !ip.closed && ioBufsiz > 0
    modifies ip, ip.buf
    ensures ip.Valid() && |took| == done <= |ops|
    ensures forall i | 0 <= i < done :: took[i] <= Asked(ops[i])
    ensures ok ==> done == |ops| && Log(ip.Stream(), read) == Steps(Log(old(ip.Stream()), []), ops, took)
    ensures ok && (forall op | op in ops :: old(Sure(ip, op))) ==>
              Log(ip.Stream(), read) == FullSteps(Log(old(ip.Stream()), []), ops)
    ensures !ok ==> ip.failing && ip.Source() == [] && done < |ops|
                    && read == Steps(Log(old(ip.Stream()), []), ops[..done], took).read
    ensures !old(ip.failing) ==> ok
  {
    hide InputPort.Source, InputPort.Chunked, InputPort.Valid, InputPort.Stream, Step, Sure, Asked;
    read, took, done := [], [], 0;
    ghost var log0 := Log(ip.Stream(), []);
    ghost var sure := forall op | op in ops :: Sure(ip, op);
    while done < |ops|
      invariant ip.Valid() && !ip.closed && ip.failing == old(ip.failing)
      invariant ip.buf == old(ip.buf) || fresh(ip.buf)
      invariant |took| == done <= |ops|
      invariant forall i | 0 <= i < done :: took[i] <= Asked(ops[i])
      invariant sure ==> forall op | op in ops :: Sure(ip, op)
      invariant Log(ip.Stream(), read) == Steps(log0, ops[..done], took)
      invariant sure ==> Log(ip.Stream(), read) == FullSteps(log0, ops[..done])
    {
      assert ops[..done + 1][..done] == ops[..done];
      assert sure ==> ops[done] in ops;
      var more;
      ok, more := Perform(ip, ops[done], ioBufsiz, read);
      if !ok {
        return;
      }
      read, took, done := read + more, took + [|more|], done + 1;
      assert took[..done - 1] == took[..|took| - 1];
    }
    assert ops[..|ops|] == ops;
    ok := true;
  }

  method Perform(ip: InputPort, op: Op, ioBufsiz: nat, ghost read: seq<byte>) returns (ok: bool, more: seq<byte>)
    requires ip.Valid() && !ip.closed && ioBufsiz > 0
    modifies ip, ip.buf
    ensures ip.Valid() && (ip.buf == old(ip.buf) || fresh(ip.buf))
    ensures ip.closed == old(ip.closed) && ip.failing == old(ip.failing)
    ensures forall o :: old(Sure(ip, o)) ==> Sure(ip, o)
    ensures !ok ==> ip.failing && ip.Source() == []
    ensures ok ==> Log(ip.Stream(), read + more) == Step(Log(old(ip.Stream()), read), op, |more|)
    ensures ok ==> |more| <= Asked(op)
    ensures ok && old(Sure(ip, op)) ==> |more| == Min(Asked(op), |old(ip.Stream())|)
    ensures ok && op.Read? && ip.datagram ==> |more| == old(ip.DatagramCount(op.n, ioBufsiz))
    ensures ok <== !ip.failing
    ensures op.Read? && !ip.datagram ==> (ok <==> !ip.failing || op.n <= |old(ip.Stream())|)
    ensures op.Read? && ip.datagram ==> (ok <==> !ip.failing || !old(ip.Ended()) || op.n <= |old(ip.Pending())|)
    ensures op.Match? && old(Sure(ip, op)) ==> (ok <==> !ip.failing || op.n + op.ahead <= |old(ip.Stream())|)
  {
    hide InputPort.Source, InputPort.Chunked, InputPort.Valid, InputPort.Stream, InputPort.Pending;
    hide InputPort.NextLength, InputPort.Ended, InputPort.DatagramCount;
    ghost var stream := ip.Stream();
    ok, more := true, [];
    match op {
      case Fill =>
        ok := FillOnce(ip);
      case PushBack(text) =>
        var pushed := ip.InsertSubstring(text, 0, |text|);
        assert text[0..|text|] == text && [] + stream == stream;
      case Read(n) =>
        ok, more := ReadSome(ip, n, ioBufsiz);
      case Match(n, ahead) =>
        var token := ip.Match(n, ahead);
        if token.None? {
          return false, [];
        }
        more := token.value;
    }
    TookOff(stream, more, ip.Stream(), read);
  }

  lemma TookOff(stream: seq<byte>, more: seq<byte>, rest: seq<byte>, read: seq<byte>)
    ensures read + [] == read && stream[..0] == [] && stream[0..] == stream
    ensures Off(stream, more, rest) ==> |stream| == |more| + |rest| && stream[..|more|] == more && stream[|more|..] == rest
  {}

  method FillOnce(ip: InputPort) returns (ok: bool)
    requires ip.Valid() && !ip.closed
    modifies ip, ip.buf
    ensures ip.Valid() && (ip.buf == old(ip.buf) || fresh(ip.buf)) && ip.Stream() == old(ip.Stream())
    ensures ip.closed == old(ip.closed) && ip.failing == old(ip.failing) && ip.datagram == old(ip.datagram)
    ensures old(ip.fillbarrier) < 0 ==> ip.fillbarrier == old(ip.fillbarrier)
    ensures old(ip.Chunked()) ==> ip.Chunked()
    ensures !ok ==> ip.failing && ip.Source() == []
  {
    hide InputPort.Source, InputPort.Chunked;
    ghost var pending, src := ip.Pending(), ip.Source();
    var r;
    ghost var text;
    r, text := ip.FillBuffer();
    MovedOver(pending, text, ip.Source());
    ok := r != ReadError;
  }

  method ReadSome(ip: InputPort, n: nat, ioBufsiz: nat) returns (ok: bool, more: seq<byte>)
    requires ip.Valid() && !ip.closed && ioBufsiz > 0
    modifies ip, ip.buf
    ensures ip.Valid() && ip.buf == old(ip.buf)
    ensures ip.closed == old(ip.closed) && ip.failing == old(ip.failing) && ip.datagram == old(ip.datagram)
    ensures ip.fillbarrier == old(ip.fillbarrier)
    ensures old(ip.Chunked()) ==> ip.Chunked()
    ensures !ok ==> ip.failing && ip.Source() == []
    ensures ok ==> Off(old(ip.Stream()), more, ip.Stream()) && |more| <= n
    ensures ok && !ip.datagram ==> |more| == Min(n, |old(ip.Stream())|)
    ensures ok && ip.datagram ==> |more| == old(ip.DatagramCount(n, ioBufsiz))
    ensures !ip.datagram ==> (ok <==> !ip.failing || n <= |old(ip.Stream())|)
    ensures ip.datagram ==> (ok <==> !ip.failing || !old(ip.Ended()) || n <= |old(ip.Pending())|)
  {
    hide InputPort.Source, InputPort.Chunked, InputPort.NextLength, InputPort.Ended, InputPort.DatagramCount;
    var s := new byte[n];
    var r;
    ghost var text;
    r, text := ip.BlitString(s, 0, n, ioBufsiz);
    if r.None? {
      return false, [];
    }
    assert s[..|text|] == text;
    return true, s[..r.value];
  }
}
