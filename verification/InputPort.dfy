/** The regular-grammar input buffer (runtime/Clib/crgc.c) over a procedure source
    (bgl_proc_read in runtime/Clib/cports.c). */
module InputPorts {
  import opened Common
  import opened Bytes

  datatype FillResult = Filled(more: bool) | ReadError | ClosedError

  /** How many of `size` bytes a fill barrier lets through; a negative one is none. */
  function Within(fillbarrier: int, size: nat): nat {
    if 0 <= fillbarrier < size then fillbarrier else size
  }

  class InputPort {
    /** The buffer string and its terminator: BGL_INPUT_PORT_BUFSIZ is one less than the length. */
    var buf: array<byte>
    var bufpos: nat
    var matchstart: nat
    var matchstop: int
    var forward: int
    var filepos: nat
    var fillbarrier: int
    var lastchar: byte
    var eof: bool
    var closed: bool
    var datagram: bool
    /** The string the procedure returned last, as far as it is not yet delivered. */
    var pbuffer: Option<seq<byte>>
    var pbufpos: nat
    /** What the procedure is going to return: these strings, and then #f for ever, or
        for ever something that is neither a string nor #f. */
    var chunks: seq<seq<byte>>
    var failing: bool

    function Bufsiz(): int
      reads this
    {
      buf.Length - 1
    }

    ghost predicate Valid()
      reads this
    {
      && buf.Length >= 2
      && matchstart <= matchstop <= bufpos <= Bufsiz()
      && matchstart <= forward <= bufpos
      && SourceOk()
    }

    /** The part of the invariant that the source alone needs. */
    ghost predicate SourceOk()
      reads this`pbuffer, this`pbufpos, this`chunks, this`eof, this`failing
    {
      && (pbuffer.Some? ==> pbufpos <= |pbuffer.value|)
      && (eof ==> Source() == [] && !failing)
    }

    /** The bytes the source has not delivered. */
    ghost function Source(): seq<byte>
      reads this`pbuffer, this`pbufpos, this`chunks
    {
      (if pbuffer.Some? && pbufpos <= |pbuffer.value| then pbuffer.value[pbufpos..] else []) + Flatten(chunks)
    }

    /** The procedure has no more strings to return. */
    ghost predicate Ended()
      reads this`pbuffer, this`chunks
    {
      pbuffer.None? && chunks == []
    }

    /** The length of the string that is next, as far as it is not yet delivered. */
    ghost function NextLength(): nat
      reads this`pbuffer, this`pbufpos, this`chunks
    {
      if pbuffer.Some? && pbufpos <= |pbuffer.value| then |pbuffer.value| - pbufpos
      else if pbuffer.None? && chunks != [] then |chunks[0]| else 0
    }

    /** How many reads can return without an end of file. */
    ghost function Reads(): nat
      reads this`pbuffer, this`pbufpos, this`chunks
    {
      |Source()| + |chunks| + (if pbuffer.Some? then 1 else 0)
    }

    /** The procedure returns no empty strings. */
    ghost predicate Chunked()
      reads this`pbuffer, this`pbufpos, this`chunks
    {
      (pbuffer.Some? ==> pbufpos < |pbuffer.value|) && forall c | c in chunks :: c != []
    }

    /** The buffered text from the start of the current token. */
    ghost function Window(): seq<byte>
      requires Valid()
      reads this, buf
    {
      buf[matchstart..bufpos]
    }

    /** The buffered text after the current token. */
    ghost function Pending(): seq<byte>
      requires Valid()
      reads this, buf
    {
      buf[matchstop..bufpos]
    }

    /** All that is still to be read. */
    ghost function Stream(): seq<byte>
      requires Valid()
      reads this, buf
    {
      Pending() + Source()
    }

    /** rgc_buffer_bol_p. */
    predicate Bol()
      requires Valid()
      reads this, buf
    {
      if matchstart > 0 then buf[matchstart - 1] == NEWLINE else lastchar == NEWLINE
    }

    constructor (bufsiz: nat, chunks: seq<seq<byte>>, failing: bool, datagram: bool)
      requires bufsiz > 0
      ensures Valid() && fresh(buf) && Stream() == Flatten(chunks) && Window() == [] && Bol()
      ensures !closed && !eof && fillbarrier == -1
    {
      buf := new byte[bufsiz + 1];
      bufpos, matchstart, matchstop, forward, filepos := 0, 0, 0, 0, 0;
      fillbarrier, lastchar := -1, NEWLINE;
      eof, closed := false, false;
      this.datagram := datagram;
      pbuffer, pbufpos := None, 0;
      this.chunks, this.failing := chunks, failing;
    }

    // -------------------------------------------------------------------
    // Reading from the source
    // -------------------------------------------------------------------

    /** The call of the procedure in bgl_proc_read. */
    method CallProcedure() returns (ok: bool)
      requires pbuffer.None?
      modifies this`pbuffer, this`pbufpos, this`chunks, this`eof
      ensures Source() == old(Source()) && Reads() == old(Reads())
      ensures ok ==> pbuffer.Some? && pbufpos == 0 && eof == old(eof)
      ensures ok <==> old(chunks) != []
      ensures NextLength() == old(NextLength())
      ensures !ok ==> pbuffer.None? && Source() == [] && (eof <==> old(eof) || !failing)
      ensures old(Chunked()) ==> Chunked()
    {
      if chunks != [] {
        assert chunks[0] in chunks && forall c | c in chunks[1..] :: c in chunks;
        assert Flatten(chunks) == chunks[0] + Flatten(chunks[1..]);
        pbuffer := Some(chunks[0]);
        pbufpos := 0;
        chunks := chunks[1..];
        return true;
      }
      if !failing {
        eof := true;
      }
      return false;
    }

    /** The copy in bgl_proc_read: as much of the current string as fits. */
    method Deliver(b: array<byte>, o: nat, l: nat) returns (r: nat, ghost text: seq<byte>)
      requires o + l <= b.Length
      requires pbuffer.Some? && pbufpos <= |pbuffer.value|
      modifies this`pbuffer, this`pbufpos, b
      ensures pbuffer.Some? ==> pbufpos <= |pbuffer.value|
      ensures r == |text| == Min(l, old(NextLength())) && old(Source()) == text + Source()
      ensures PutAt(old(b[..]), b[..], o, text)
      ensures r > 0 || r < l ==> Reads() < old(Reads())
      ensures old(Chunked()) ==> Chunked() && (l > 0 ==> r > 0)
    {
      hide PutAt;
      var s, p := pbuffer.value, pbufpos;
      r := if |s| - p <= l then |s| - p else l;
      text := s[p..p + r];
      CutString(s, p, r, Flatten(chunks));
      CopyIn(b, o, s[p..p + r]);
      if |s| - p <= l {
        pbuffer := None;
        pbufpos := 0;
        assert s[p + r..] == [];
      } else {
        pbufpos := pbufpos + l;
      }
    }

    /** bgl_proc_read: hands out the returned strings in order, piece by piece. */
    method ProcRead(b: array<byte>, o: nat, l: nat) returns (r: int, ghost text: seq<byte>)
      requires o + l <= b.Length
      requires pbuffer.Some? ==> pbufpos <= |pbuffer.value|
      modifies this`pbuffer, this`pbufpos, this`chunks, this`eof, b
      ensures pbuffer.Some? ==> pbufpos <= |pbuffer.value|
      ensures |text| == if r < 0 then 0 else r
      ensures r <= l && old(Source()) == text + Source()
      ensures PutAt(old(b[..]), b[..], o, text)
      ensures r < 0 ==> failing && Source() == []
      ensures r < 0 <==> failing && old(Ended())
      ensures r >= 0 ==> r == Min(l, old(NextLength()))
      ensures eof ==> old(eof) || (r == 0 && Source() == [] && !failing)
      ensures old(eof) ==> eof
      ensures r > 0 || (0 <= r < l && !eof) ==> Reads() < old(Reads())
      ensures old(Chunked()) ==> Chunked() && (l > 0 && r == 0 ==> eof)
    {
      if pbuffer.None? {
        var ok := CallProcedure();
        if !ok {
          text := [];
          PutNothing(b[..], o);
          return if failing then -1 else 0, [];
        }
      }
      r, text := Deliver(b, o, l);
    }

    // -------------------------------------------------------------------
    // Filling the buffer
    // -------------------------------------------------------------------

    /** rgc_double_buffer. */
    method DoubleBuffer()
      requires Valid()
      modifies this`buf
      ensures Valid() && fresh(buf) && Bufsiz() == 2 * old(Bufsiz())
      ensures Window() == old(Window()) && Pending() == old(Pending()) && Bol() == old(Bol())
      ensures buf[..bufpos] == old(buf[..bufpos])
    {
      hide Source;
      var newbuf := new byte[2 * Bufsiz() + 1];
      CopyFrom(newbuf, buf, Bufsiz());
      buf := newbuf;
    }

    /** rgc_shift_buffer: the bytes before the token go, the last of them into `lastchar`. */
    method ShiftBuffer()
      requires Valid() && matchstart > 0
      modifies this`lastchar, this`bufpos, this`matchstop, this`forward, this`matchstart, buf
      ensures Valid() && matchstart == 0
      ensures Window() == old(Window()) && Pending() == old(Pending()) && Bol() == old(Bol())
      ensures bufpos < Bufsiz() && bufpos == old(bufpos - matchstart)
      ensures matchstop == old(matchstop - matchstart) && forward == old(forward - matchstart)
    {
      hide Source;
      ghost var b := buf[..];
      lastchar := buf[matchstart - 1];
      MoveWithin(buf, 0, matchstart, bufpos - matchstart + 1);
      MovedToFront(b, buf[..], matchstart, matchstop, bufpos);
      CursorsToFront();
    }

    /** The adjustment of the cursors in rgc_shift_buffer. */
    method CursorsToFront()
      requires Valid()
      modifies this`bufpos, this`matchstop, this`forward, this`matchstart
      ensures Valid() && matchstart == 0 && bufpos == old(bufpos - matchstart)
      ensures matchstop == old(matchstop - matchstart) && forward == old(forward - matchstart)
    {
      hide Source;
      bufpos := bufpos - matchstart;
      matchstop := matchstop - matchstart;
      forward := forward - matchstart;
      matchstart := 0;
    }

    /** rgc_fillsize_buffer: one read into the free part of the buffer, within the fill barrier. */
    method FillsizeBuffer(pos: nat, size: nat) returns (r: FillResult, ghost text: seq<byte>)
      requires Valid() && !eof && pos == bufpos && pos + size == Bufsiz() && size > 0
      modifies this`bufpos, this`fillbarrier, this`pbuffer, this`pbufpos, this`chunks, this`eof, buf
      ensures Valid()
      ensures bufpos == pos + |text| && PutAt(old(buf[..]), buf[..], pos, text)
      ensures old(Source()) == text + Source()
      ensures r.Filled? ==> (r.more <==> text != [])
      ensures r.ReadError? ==> text == [] && failing && Source() == []
      ensures r.ReadError? <==> failing && old(Ended()) && old(fillbarrier) != 0
      ensures r.Filled? ==> |text| == Min(Within(old(fillbarrier), size), old(NextLength()))
      ensures !r.ClosedError?
      ensures fillbarrier == if old(fillbarrier) > 0 then old(fillbarrier) - |text| else old(fillbarrier)
      ensures old(fillbarrier) > 0 ==> fillbarrier >= 0
      ensures old(fillbarrier) == 0 ==> r == Filled(false)
      ensures old(Chunked()) ==> Chunked() && (old(fillbarrier) != 0 && r == Filled(false) ==> eof)
    {
      var fb := fillbarrier;
      text := [];
      if fb == 0 {
        bufpos := pos;
        PutNothing(buf[..], pos);
        return Filled(false), text;
      }
      var n;
      n, text := ProcRead(buf, pos, if fb > 0 && size > fb then fb else size);
      if n < 0 {
        return ReadError, text;
      }
      if fb > 0 {
        fillbarrier := fb - n;
      }
      bufpos := pos + n;
      return Filled(n > 0), text;
    }

    /** The read of rgc_fill_buffer, when there is room. */
    method Fill() returns (r: FillResult, ghost text: seq<byte>)
      requires Valid() && !eof && bufpos < Bufsiz()
      modifies this`bufpos, this`fillbarrier, this`pbuffer, this`pbufpos, this`chunks, this`eof, buf
      ensures Valid()
      ensures Window() == old(Window()) + text && Pending() == old(Pending()) + text
      ensures old(Source()) == text + Source()
      ensures Bol() == old(Bol())
      ensures !r.ClosedError?
      ensures r.Filled? ==> (r.more <==> text != [])
      ensures r.ReadError? ==> text == [] && failing && Source() == []
      ensures r.ReadError? <==> failing && old(Ended()) && old(fillbarrier) != 0
      ensures r.Filled? ==> |text| == Min(Within(old(fillbarrier), old(Bufsiz() - bufpos)), old(NextLength()))
      ensures fillbarrier == if old(fillbarrier) > 0 then old(fillbarrier) - |text| else old(fillbarrier)
      ensures old(fillbarrier) > 0 ==> fillbarrier >= 0
      ensures old(fillbarrier) == 0 ==> r == Filled(false)
      ensures old(Chunked()) ==> Chunked() && (old(fillbarrier) != 0 && r == Filled(false) ==> eof)
    {
      hide Source, Chunked, NextLength, Ended;
      ghost var pos, b := bufpos, buf[..];
      r, text := FillsizeBuffer(bufpos, Bufsiz() - bufpos);
      SliceAppend(b, buf[..], matchstart, pos, text);
      SliceAppend(b, buf[..], matchstop, pos, text);
    }

    /** The room that rgc_fill_buffer reads into: what is free, or what comes free by shifting the
        buffer or, where the token starts at its beginning, by doubling it. */
    function Room(): nat
      requires Valid()
      reads this
    {
      if bufpos < Bufsiz() then Bufsiz() - bufpos else if matchstart > 0 then matchstart else Bufsiz()
    }

    /** rgc_fill_buffer: makes room if there is none, then reads once. The token and the
        place of its end stay, `forward` is at the first new byte, and what is read comes
        out of the source. */
    method FillBuffer() returns (r: FillResult, ghost text: seq<byte>)
      requires Valid()
      modifies this`buf, this`bufpos, this`matchstart, this`matchstop, this`forward, this`lastchar, this`fillbarrier,
               this`pbuffer, this`pbufpos, this`chunks, this`eof, buf
      ensures Valid() && (buf == old(buf) || fresh(buf))
      ensures Window() == old(Window()) + text && Pending() == old(Pending()) + text
      ensures old(Source()) == text + Source()
      ensures matchstop - matchstart == old(matchstop - matchstart)
      ensures Bol() == old(Bol())
      ensures closed <==> r.ClosedError?
      ensures !closed ==> forward - matchstart == old(bufpos - matchstart)
      ensures r.Filled? ==> (r.more <==> text != [])
      ensures !r.Filled? || old(eof) ==> text == []
      ensures r.ReadError? ==> failing && Source() == []
      ensures r.ReadError? <==> !closed && !old(eof) && failing && old(Ended()) && old(fillbarrier) != 0
      ensures r.Filled? && !old(eof) ==> |text| == Min(Within(old(fillbarrier), old(Room())), old(NextLength()))
      ensures fillbarrier == if old(fillbarrier) > 0 then old(fillbarrier) - |text| else old(fillbarrier)
      ensures old(fillbarrier) > 0 ==> fillbarrier >= 0
      ensures old(fillbarrier) == 0 ==> text == []
      ensures old(Chunked()) ==> Chunked()
      ensures old(Chunked()) && old(fillbarrier) != 0 && r == Filled(false) ==> eof && Source() == []
    {
      hide Source, Chunked, Window, Pending, Bol, NextLength, Ended;
      text := [];
      assert Window() + [] == Window() && Pending() + [] == Pending() && [] + Source() == Source();
      if closed {
        return ClosedError, text;
      }
      ToEnd();
      if eof {
        return Filled(false), text;
      }
      if bufpos >= Bufsiz() {
        MakeRoom();
      }
      r, text := Fill();
    }

    /** The read has reached the end of the buffer. */
    method ToEnd()
      requires Valid()
      modifies this`forward
      ensures Valid() && forward == bufpos
      ensures Window() == old(Window()) && Pending() == old(Pending()) && Bol() == old(Bol())
    {
      forward := bufpos;
    }

    /** What rgc_fill_buffer does when the buffer is full. */
    method MakeRoom()
      requires Valid() && bufpos == Bufsiz()
      modifies this`buf, this`bufpos, this`matchstart, this`matchstop, this`forward, this`lastchar, buf
      ensures Valid() && (buf == old(buf) || fresh(buf)) && bufpos < Bufsiz()
      ensures Window() == old(Window()) && Pending() == old(Pending()) && Bol() == old(Bol())
      ensures bufpos - matchstart == old(bufpos - matchstart) && matchstop - matchstart == old(matchstop - matchstart)
      ensures forward - matchstart == old(forward - matchstart)
      ensures Bufsiz() - bufpos == old(Room())
    {
      hide Source;
      if matchstart > 0 {
        ShiftBuffer();
      } else {
        DoubleBuffer();
      }
    }

    // -------------------------------------------------------------------
    // Pushing text back
    // -------------------------------------------------------------------

    /** rgc_reserve_space: at least `amount` bytes before the pending text, moving it to the
        right or enlarging the buffer as needed. */
    method ReserveSpace(amount: nat)
      requires Valid()
      modifies this`buf, this`bufpos, this`matchstop, buf
      ensures Valid() && (buf == old(buf) || fresh(buf))
      ensures matchstop >= amount && Pending() == old(Pending())
      decreases amount + bufpos - matchstop - Bufsiz()
    {
      hide Source;
      if matchstop >= amount {
        return;
      }
      if matchstop + (Bufsiz() - bufpos) >= amount {
        ghost var n := bufpos - matchstop;
        MoveWithin(buf, amount, matchstop, bufpos - matchstop);
        bufpos := bufpos + (amount - matchstop);
        matchstop := amount;
      } else {
        DoubleBuffer();
        ReserveSpace(amount);
      }
    }

    /** What both push-back operations do once there is room: the text goes directly before the
        pending text, and the next token starts at it. */
    method PutBack(text: seq<byte>)
      requires Valid() && |text| <= matchstop
      modifies this`matchstart, this`matchstop, this`forward, this`filepos, buf
      ensures Valid() && Stream() == text + old(Stream())
      ensures Window() == Pending() && forward == matchstop
      ensures filepos == if old(filepos) >= |text| then old(filepos) - |text| else 0
    {
      hide Source;
      var len := |text|;
      ghost var b, src := buf[..], Source();
      CopyIn(buf, matchstop - len, text);
      PutBefore(b, buf[..], matchstop, bufpos, text, src);
      filepos := if filepos >= len then filepos - len else 0;
      var stop := matchstop - len;
      matchstop := stop;
      forward := stop;
      matchstart := stop;
    }

    /** rgc_buffer_insert_substring: what is pushed back is read next, before all that was
        still to be read. */
    method InsertSubstring(str: seq<byte>, from: nat, to: nat) returns (r: bool)
      requires Valid() && to <= |str|
      modifies this`buf, this`bufpos, this`matchstart, this`matchstop, this`forward, this`filepos, buf
      ensures Valid() && (buf == old(buf) || fresh(buf))
      ensures r == !closed
      ensures closed || from >= to ==> Stream() == old(Stream()) && Window() == old(Window()) && filepos == old(filepos)
      ensures !closed && from < to ==> Stream() == str[from..to] + old(Stream())
      ensures !closed && from < to ==> Window() == Pending() && forward == matchstop
      ensures !closed && from < to ==>
                filepos == if old(filepos) >= to - from then old(filepos) - (to - from) else 0
    {
      hide Source;
      if closed {
        return false;
      }
      if from >= to {
        return true;
      }
      ReserveSpace(to - from);
      PutBack(str[from..to]);
      return true;
    }

    /** rgc_buffer_insert_char. */
    method InsertChar(c: byte) returns (r: bool)
      requires Valid()
      modifies this`buf, this`bufpos, this`matchstart, this`matchstop, this`forward, this`filepos, buf
      ensures Valid() && (buf == old(buf) || fresh(buf))
      ensures r == !closed
      ensures closed ==> Stream() == old(Stream()) && Window() == old(Window()) && filepos == old(filepos)
      ensures !closed ==> Stream() == [c] + old(Stream()) && Window() == Pending() && forward == matchstop
      ensures !closed ==> filepos == if old(filepos) >= 1 then old(filepos) - 1 else 0
    {
      hide Source;
      if closed {
        return false;
      }
      ReserveSpace(1);
      PutBack([c]);
      return true;
    }

    // -------------------------------------------------------------------
    // Matching
    // -------------------------------------------------------------------

    /** RGC_START_MATCH. */
    method StartMatch()
      requires Valid()
      modifies this`matchstart, this`forward
      ensures Valid() && matchstart == forward == matchstop && Window() == Pending() == old(Pending())
      ensures Stream() == old(Stream())
      ensures Bol() == if old(Token()) == [] then old(Bol()) else old(Token())[|old(Token())| - 1] == NEWLINE
    {
      matchstart := matchstop;
      forward := matchstop;
    }

    /** The automaton looks at one byte. */
    method Look()
      requires Valid() && forward < bufpos
      modifies this`forward
      ensures Valid() && forward == old(forward) + 1 && Window() == old(Window()) && Pending() == old(Pending())
      ensures Bol() == old(Bol())
    {
      forward := forward + 1;
    }

    /** The automaton at work: bytes are looked at until the token could have `n`, and the buffer
        is filled whenever `forward` reaches its end. */
    method Scan(n: nat) returns (ok: bool, ghost text: seq<byte>)
      requires Valid() && !closed
      modifies this`buf, this`bufpos, this`matchstart, this`matchstop, this`forward, this`lastchar, this`fillbarrier,
               this`pbuffer, this`pbufpos, this`chunks, this`eof, buf
      ensures Valid() && (buf == old(buf) || fresh(buf))
      ensures Window() == old(Window()) + text && Pending() == old(Pending()) + text
      ensures old(Source()) == text + Source()
      ensures matchstop - matchstart == old(matchstop - matchstart)
      ensures old(forward - matchstart) <= forward - matchstart
      ensures forward - matchstart <= n || forward - matchstart == old(forward - matchstart)
      ensures !ok ==> failing && Source() == []
      ensures old(Chunked()) ==> Chunked()
      ensures old(fillbarrier) < 0 ==> fillbarrier == old(fillbarrier)
      ensures ok && old(Chunked()) && old(fillbarrier) < 0 ==>
                forward - matchstart >= n || (forward == bufpos && Source() == [])
      ensures old(Chunked()) && old(fillbarrier) < 0 ==>
                (ok <==> !failing || n <= |old(Window())| + |old(Source())|)
      ensures Bol() == old(Bol())
    {
      hide Source, Chunked, Window, Pending, Bol, Ended, NextLength;
      text := [];
      ok := true;
      assert Window() + [] == Window() && Pending() + [] == Pending() && [] + Source() == Source();
      ghost var w, p, src := Window(), Pending(), Source();
      while forward - matchstart < n
        invariant Valid() && (buf == old(buf) || fresh(buf))
        invariant Window() == w + text && Pending() == p + text && src == text + Source()
        invariant matchstop - matchstart == old(matchstop - matchstart)
        invariant old(forward - matchstart) <= forward - matchstart
        invariant forward - matchstart <= n || forward - matchstart == old(forward - matchstart)
        invariant old(Chunked()) ==> Chunked()
        invariant old(fillbarrier) < 0 ==> fillbarrier == old(fillbarrier)
        invariant Bol() == old(Bol())
        decreases |Source()|, n - (forward - matchstart)
      {
        if forward < bufpos {
          Look();
        } else {
          var r;
          ghost var more;
          ghost var rest := Source();
          Cursors();
          r, more := FillBuffer();
          Cursors();
          Grown(w, p, text, more, Source());
          text := text + more;
          assert |rest| == |more| + |Source()|;
          if r != Filled(true) {
            return r == Filled(false), text;
          }
        }
      }
      Cursors();
    }

    /** RGC_STOP_MATCH at `forward`. */
    method StopMatch()
      requires Valid()
      modifies this`matchstop
      ensures Valid() && matchstop == forward && Window() == old(Window())
      ensures Pending() == Window()[forward - matchstart..]
    {
      matchstop := forward;
    }

    /** RGC_SET_FILEPOS. */
    method SetFilepos()
      requires Valid()
      modifies this`filepos
      ensures Valid() && filepos == old(filepos) + (matchstop - matchstart)
      ensures Window() == old(Window()) && Pending() == old(Pending()) && Stream() == old(Stream())
    {
      filepos := filepos + (matchstop - matchstart);
    }

    /** The current token. */
    function Token(): seq<byte>
      requires Valid()
      reads this, buf
    {
      buf[matchstart..matchstop]
    }

    /** How the abstract views lie in the buffer. */
    lemma Cursors()
      requires Valid()
      ensures 0 <= matchstart <= matchstop <= bufpos && matchstart <= forward <= bufpos
      ensures |Window()| == bufpos - matchstart && |Pending()| == bufpos - matchstop
      ensures Stream() == Pending() + Source()
    {
      hide Source;
    }

    lemma TokenPlace()
      requires Valid()
      ensures Token() == Window()[..matchstop - matchstart]
    {}

    lemma MatchLength(n: nat, k: nat, buffered: nat, rest: nat)
      requires k <= n && k <= buffered
      ensures k >= n || (k == buffered && rest == 0) ==> k == Min(n, buffered + rest)
    {}

    /** A match begins: the automaton looks at `n` bytes, or at all there are. */
    method StartScan(n: nat) returns (ok: bool)
      requires Valid() && !closed
      modifies this`buf, this`bufpos, this`matchstart, this`matchstop, this`forward, this`lastchar, this`fillbarrier,
               this`pbuffer, this`pbufpos, this`chunks, this`eof, buf
      ensures Valid() && (buf == old(buf) || fresh(buf))
      ensures matchstop == matchstart && forward - matchstart <= n && old(Stream()) == Window() + Source()
      ensures !ok ==> failing && Source() == []
      ensures old(Chunked()) ==> Chunked()
      ensures old(fillbarrier) < 0 ==> fillbarrier == old(fillbarrier)
      ensures ok && old(Chunked()) && old(fillbarrier) < 0 ==>
                forward - matchstart >= n || (forward == bufpos && Source() == [])
      ensures old(Chunked()) && old(fillbarrier) < 0 ==> (ok <==> !failing || n <= |old(Stream())|)
    {
      hide Source, Chunked, Valid, Window, Pending;
      ghost var p := Pending();
      StartMatch();
      ghost var read;
      ok, read := Scan(n);
      MovedOver(p, read, Source());
    }

    /** The automaton up to its accepting state, after `n` bytes or at the end of the input. */
    method Accept(n: nat) returns (ok: bool, ghost token: seq<byte>)
      requires Valid() && !closed
      modifies this`buf, this`bufpos, this`matchstart, this`matchstop, this`forward, this`lastchar, this`fillbarrier,
               this`pbuffer, this`pbufpos, this`chunks, this`eof, buf
      ensures Valid() && (buf == old(buf) || fresh(buf))
      ensures !ok ==> failing && Source() == []
      ensures ok ==> Off(old(Stream()), token, Stream()) && Off(Window(), token, Pending())
      ensures ok ==> |token| == matchstop - matchstart <= n
      ensures old(Chunked()) ==> Chunked()
      ensures old(fillbarrier) < 0 ==> fillbarrier == old(fillbarrier)
      ensures ok && old(Chunked()) && old(fillbarrier) < 0 ==> |token| == Min(n, |old(Stream())|)
      ensures old(Chunked()) && old(fillbarrier) < 0 ==> (ok <==> !failing || n <= |old(Stream())|)
    {
      hide *;
      ok := StartScan(n);
      Cursors();
      ghost var w, k: nat := Window(), forward - matchstart;
      OffFirst(w, k, Source());
      token := w[..k];
      StopMatch();
      Cursors();
      MatchLength(n, k, |w|, |Source()|);
    }

    /** A match of `n` bytes, or of what there is, for which the automaton looks at `ahead` more:
        the token comes off the front of the stream, and what was only looked at does not. None
        when a read fails. */
    method Match(n: nat, ahead: nat) returns (token: Option<seq<byte>>)
      requires Valid() && !closed
      modifies this`buf, this`bufpos, this`matchstart, this`matchstop, this`forward, this`lastchar, this`fillbarrier,
               this`filepos, this`pbuffer, this`pbufpos, this`chunks, this`eof, buf
      ensures Valid() && (buf == old(buf) || fresh(buf))
      ensures token.None? ==> failing && Source() == []
      ensures token.Some? ==> Off(old(Stream()), token.value, Stream()) && Off(Window(), token.value, Pending())
      ensures token.Some? ==> |token.value| <= n && filepos == old(filepos) + |token.value|
      ensures old(Chunked()) ==> Chunked()
      ensures old(fillbarrier) < 0 ==> fillbarrier == old(fillbarrier)
      ensures token.Some? && old(Chunked()) && old(fillbarrier) < 0 ==> |token.value| == Min(n, |old(Stream())|)
      ensures old(Chunked()) && old(fillbarrier) < 0 ==> (token.Some? <==> !failing || n + ahead <= |old(Stream())|)
    {
      hide Source, Chunked, Valid, Window, Pending, Stream, Off;
      ghost var tok, more;
      var ok;
      ok, tok := Accept(n);
      if !ok {
        return None;
      }
      Cursors();
      ghost var w, p := Window(), Pending();
      OffLength(old(Stream()), tok, Stream());
      ok, more := Scan(n + ahead);
      if !ok {
        return None;
      }
      Cursors();
      OffStill(w, tok, p, more);
      MovedOver(p, more, Source());
      TokenPlace();
      token := Some(Token());
      SetFilepos();
    }

    // -------------------------------------------------------------------
    // Block reads
    // -------------------------------------------------------------------

    /** How much a block read of `l` bytes delivers on a datagram port: what is buffered if that is enough
        or the end of the source has been seen, and else also what one read of the source gives. */
    ghost function DatagramCount(l: nat, ioBufsiz: nat): nat
      requires Valid()
      reads this, buf
    {
      var avail := |Pending()|;
      if l <= avail || eof then Min(l, avail) else avail + Min(Min(l - avail, ioBufsiz), NextLength())
    }

    /** The read loop of bgl_rgc_blit_string: fills s[o..o + l] from the source, or on a datagram port
        with what one read delivers. */
    method ReadLoop(s: array<byte>, o: nat, l: nat, ioBufsiz: nat) returns (ok: bool, n: nat, ghost text: seq<byte>)
      requires Valid() && s != buf && o + l <= s.Length && l > 0 && ioBufsiz > 0
      modifies this`pbuffer, this`pbufpos, this`chunks, this`eof, s
      ensures Valid()
      ensures n == |text| <= l && old(Source()) == text + Source()
      ensures PutAt(old(s[..]), s[..], o, text)
      ensures !ok ==> failing && Source() == []
      ensures ok && !datagram ==> |text| == Min(l, |old(Source())|)
      ensures !datagram ==> (ok <==> !failing || l <= |old(Source())|)
      ensures ok && datagram && !old(eof) ==> n == Min(Min(l, ioBufsiz), old(NextLength()))
      ensures datagram && !old(eof) ==> (ok <==> !(failing && old(Ended())))
      ensures old(Chunked()) ==> Chunked()
    {
      hide Source, Reads, Chunked, PutAt, NextLength, Ended;
      text := [];
      PutNothing(s[..], o);
      ghost var s0, src := s[..], Source();
      var o', l' := o, l;
      while !eof
        invariant Valid()
        invariant l' > 0 && o' == o + |text| && o' + l' == o + l
        invariant src == text + Source()
        invariant PutAt(s0, s[..], o, text)
        invariant old(Chunked()) ==> Chunked()
        invariant datagram ==> text == [] && eof == old(eof) && NextLength() == old(NextLength()) && Ended() == old(Ended())
        decreases !eof, Reads()
      {
        ghost var before := s[..];
        var r;
        ghost var more;
        r, more := ProcRead(s, o', if l' < ioBufsiz then l' else ioBufsiz);
        PutTwice(s0, before, s[..], o, text, more);
        MovedOver(text, more, Source());
        text := text + more;
        if r < 0 {
          return false, o' - o, text;
        }
        o' := o' + r;
        l' := l' - r;
        if l' == 0 || datagram {
          return true, o' - o, text;
        }
      }
      return true, o' - o, text;
    }

    /** What a block read leaves: `text` has come off the front of the stream. */
    twostate predicate Taken(text: seq<byte>)
      requires old(Valid()) && Valid()
      reads this, buf
    {
      && old(Stream()) == text + Stream()
      && matchstart == matchstop == forward
      && filepos == old(filepos) + |text|
    }

    /** The part of bgl_rgc_blit_string that the buffer can serve. */
    method BlitBuffered(s: array<byte>, o: nat, l: nat) returns (ghost text: seq<byte>)
      requires Valid() && s != buf && o + l <= s.Length
      requires matchstart == matchstop == forward && l <= bufpos - matchstop
      modifies this`matchstart, this`matchstop, this`forward, this`filepos, s
      ensures Valid() && |text| == l && Taken(text)
      ensures PutAt(old(s[..]), s[..], o, text)
    {
      hide Source;
      text := buf[matchstart..matchstart + l];
      CopyIn(s, o, buf[matchstart..matchstart + l]);
      assert buf[matchstop..bufpos] == text + buf[matchstop + l..bufpos];
      assert Stream() == text + (buf[matchstop + l..bufpos] + Source());
      matchstart := matchstart + l;
      forward := matchstart;
      matchstop := matchstart;
      filepos := filepos + l;
    }

    method EmptyBuffer()
      requires Valid()
      modifies this`bufpos, this`matchstart, this`matchstop, this`forward, this`lastchar
      ensures Valid() && matchstart == matchstop == forward == 0
      ensures Stream() == Source() == old(Source())
    {
      hide Source;
      forward, bufpos, matchstart, matchstop := 0, 0, 0, 0;
      lastchar := NEWLINE;
    }

    /** What is buffered goes to `s`, and the source delivers the rest. */
    method DeliverAcross(s: array<byte>, o: nat, l: nat, ioBufsiz: nat) returns (ok: bool, n: nat, ghost text: seq<byte>)
      requires Valid() && s != buf && o + l <= s.Length && ioBufsiz > 0
      requires matchstart == matchstop && bufpos - matchstop < l
      modifies this`pbuffer, this`pbufpos, this`chunks, this`eof, s
      ensures Valid() && n == |text| <= l
      ensures PutAt(old(s[..]), s[..], o, text)
      ensures !ok ==> failing && Source() == []
      ensures old(Stream()) == text + Source()
      ensures ok && !datagram ==> |text| == Min(l, |old(Stream())|)
      ensures !datagram ==> (ok <==> !failing || l <= |old(Stream())|)
      ensures ok && datagram && !old(eof) ==> n == old(DatagramCount(l, ioBufsiz))
      ensures datagram && !old(eof) ==> (ok <==> !(failing && old(Ended())))
      ensures old(Chunked()) ==> Chunked()
    {
      hide Source, Reads, PutAt, Chunked, NextLength, Ended;
      var avail := bufpos - matchstop;
      ghost var first, s0 := Pending(), s[..];
      CopyIn(s, o, buf[matchstart..bufpos]);
      ghost var s1, more := s[..], [];
      ok, n, more := ReadLoop(s, o + avail, l - avail, ioBufsiz);
      text := first + more;
      n := avail + n;
      PutTwice(s0, s1, s[..], o, first, more);
      MovedOver(first, more, Source());
    }

    /** The part that reads on into `s`, and empties the buffer. */
    method BlitAcross(s: array<byte>, o: nat, l: nat, ioBufsiz: nat) returns (r: Option<nat>, ghost text: seq<byte>)
      requires Valid() && s != buf && o + l <= s.Length && ioBufsiz > 0
      requires matchstart == matchstop && bufpos - matchstop < l
      modifies this`bufpos, this`matchstart, this`matchstop, this`forward, this`filepos, this`lastchar,
               this`pbuffer, this`pbufpos, this`chunks, this`eof, s
      ensures Valid() && |text| <= l
      ensures PutAt(old(s[..]), s[..], o, text)
      ensures r.None? ==> failing && Source() == []
      ensures r.Some? ==> r.value == |text| && Taken(text)
      ensures r.Some? && !datagram ==> |text| == Min(l, |old(Stream())|)
      ensures !datagram ==> (r.Some? <==> !failing || l <= |old(Stream())|)
      ensures r.Some? && datagram && !old(eof) ==> r.value == old(DatagramCount(l, ioBufsiz))
      ensures datagram && !old(eof) ==> (r.Some? <==> !(failing && old(Ended())))
      ensures old(Chunked()) ==> Chunked()
    {
      hide Source, Reads, PutAt, Chunked, NextLength, Ended;
      var ok, n;
      ok, n, text := DeliverAcross(s, o, l, ioBufsiz);
      if !ok {
        return None, text;
      }
      EmptyBuffer();
      filepos := filepos + n;
      return Some(n), text;
    }

    /** bgl_rgc_blit_string: delivers the next bytes of the stream into s[o..], as many as
        asked for if there are that many, and leaves exactly the rest. A datagram port reads at most
        once. */
    method BlitString(s: array<byte>, o: nat, l: nat, ioBufsiz: nat) returns (r: Option<nat>, ghost text: seq<byte>)
      requires Valid() && s != buf && o + l <= s.Length && ioBufsiz > 0
      modifies this`bufpos, this`matchstart, this`matchstop, this`forward, this`filepos, this`lastchar,
               this`pbuffer, this`pbufpos, this`chunks, this`eof, s
      ensures Valid() && |text| <= l
      ensures PutAt(old(s[..]), s[..], o, text)
      ensures closed ==> r.None? && text == [] && Stream() == old(Stream())
      ensures !closed && r.None? ==> failing && Source() == []
      ensures r.Some? ==> r.value == |text| && Taken(text)
      ensures r.Some? && !datagram ==> |text| == Min(l, |old(Stream())|)
      ensures !closed && !datagram ==> (r.Some? <==> !failing || l <= |old(Stream())|)
      ensures r.Some? && datagram ==> |text| == old(DatagramCount(l, ioBufsiz))
      ensures !closed && datagram ==> (r.Some? <==> !failing || !old(Ended()) || l <= |old(Pending())|)
      ensures old(Chunked()) ==> Chunked()
    {
      hide Reads, Chunked, NextLength, Ended, Source, Bol, PutAt;
      text := [];
      if closed {
        PutNothing(s[..], o);
        return None, text;
      }
      Cursors();
      var avail := bufpos - matchstop;
      StartMatch();
      var l' := if eof && l > avail then avail else l;
      if avail >= l' {
        text := BlitBuffered(s, o, l');
        return Some(l'), text;
      }
      r, text := BlitAcross(s, o, l', ioBufsiz);
    }
  }
}
