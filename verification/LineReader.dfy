/** The buffered reader of serialport.hpp: a second implementation of line splitting. */
module LineReader {
  import opened Bytes
  import opened Lines

  /** Bytes without a terminator, then one, then the rest: that is the first line. */
  lemma NextOfParts(pending: bool, s: seq<byte>, seen: seq<byte>, b: byte, rest: seq<byte>, max: nat)
    requires DropLf(pending, s) == seen + ([b] + rest) && EndOf(seen) == |seen| && IsEnd(b)
    ensures Next(pending, s, max) == Some(Cut(Line(seen[..Min(|seen|, max)], |seen| > max), rest, b == CR))
  {
    hide EndOf, DropLf, Next;
    EndOfParts(seen, b, rest);
    NextCuts(pending, s, max);
    AroundEnd(seen, b, rest, Min(|seen|, max));
  }

  lemma NextCuts(pending: bool, s: seq<byte>, max: nat)
    requires EndOf(DropLf(pending, s)) < |DropLf(pending, s)|
    ensures var u := DropLf(pending, s);
      var k := EndOf(u);
      Next(pending, s, max) == Some(Cut(Line(u[..Min(k, max)], k > max), u[k + 1..], u[k] == CR))
  {
    hide EndOf, DropLf;
  }

  lemma AroundEnd(seen: seq<byte>, b: byte, rest: seq<byte>, n: nat)
    requires n <= |seen|
    ensures var u := seen + ([b] + rest);
      u[..n] == seen[..n] && u[|seen| + 1..] == rest && u[|seen|] == b
  {}

  lemma EndOfParts(seen: seq<byte>, b: byte, rest: seq<byte>)
    requires EndOf(seen) == |seen| && IsEnd(b)
    ensures EndOf(seen + ([b] + rest)) == |seen|
  {
    var u := seen + ([b] + rest);
    assert u[|seen|] == b;
    assert forall i :: 0 <= i < |seen| ==> u[i] == seen[i] && !IsEnd(seen[i]);
    hide EndOf;
  }

  lemma ExtendsSeen(seen: seq<byte>, b: byte)
    requires EndOf(seen) == |seen| && !IsEnd(b)
    ensures EndOf(seen + [b]) == |seen| + 1
  {
    var u := seen + [b];
    assert forall i :: 0 <= i < |u| ==> !IsEnd(u[i]);
    hide EndOf;
  }

  lemma NoLine(pending: bool, s: seq<byte>, max: nat)
    requires EndOf(DropLf(pending, s)) == |DropLf(pending, s)|
    ensures Next(pending, s, max) == None
  {}

  /**
   From `bytes`, the data bytes `seen` have been taken into a line; the flag and the unread
   bytes are what is left.
   */
  ghost predicate Partial(pending: bool, bytes: seq<byte>, seen: seq<byte>, line: Line, max: nat,
                          pendingLf: bool, unread: seq<byte>)
  {
    && EndOf(seen) == |seen| && line == Line(seen[..Min(|seen|, max)], |seen| > max)
    && DropLf(pending, bytes) == seen + DropLf(pendingLf, unread)
    && (if pendingLf then pending && seen == [] && unread == bytes else pending ==> bytes != [])
  }

  datatype PortError = NoError | BadFileDescriptor | MessageSize | NoBufferSpace | NativeError

  class SerialPort {
    const maxLineLength: nat
    const rxBuf: array<byte>
    var rxHead: nat
    var rxTail: nat
    var pendingLf: bool
    var timedOut: bool
    var lastError: PortError
    var isOpen: bool
    var source: seq<byte>  // what the device delivers before the deadline of the call in progress
    var broken: bool       // whether the port then fails, rather than the time running out

    ghost predicate Valid()
      reads this
    {
      0 < rxBuf.Length && rxHead <= rxTail <= rxBuf.Length && maxLineLength > 0
    }

    /** Everything that arrived and has not been handed out. */
    ghost function Unread(): seq<byte>
      requires Valid()
      reads this, rxBuf
    {
      rxBuf[rxHead..rxTail] + source
    }

    constructor (bufferSize: nat, maxLineLength: nat)
      requires maxLineLength > 0
      ensures Valid() && Unread() == [] && !pendingLf && isOpen && !broken
      ensures this.maxLineLength == maxLineLength && fresh(rxBuf) && rxBuf.Length >= 64 && rxBuf.Length >= bufferSize
    {
      this.maxLineLength := maxLineLength;
      rxBuf := new byte[if bufferSize > 64 then bufferSize else 64](_ => 0);
      rxHead, rxTail, pendingLf, timedOut, lastError := 0, 0, false, false, NoError;
      isOpen, source, broken := true, [], false;
    }

    /** More bytes come in before the next call's deadline. */
    method Arrive(bytes: seq<byte>)
      requires Valid()
      modifies this`source
      ensures Valid() && isOpen == old(isOpen) && Unread() == old(Unread()) + bytes
    {
      assert rxBuf[rxHead..rxTail] + (source + bytes) == rxBuf[rxHead..rxTail] + source + bytes;
      source := source + bytes;
    }

    method BeginOperation()
      modifies this`timedOut, this`lastError
      ensures !timedOut && lastError == NoError
    {
      timedOut, lastError := false, NoError;
    }

    /**
     The operating system's read: any non-empty amount that fits; when nothing is left,
     nothing for want of time, or -1 for a failure.
     */
    method ReadNative(room: nat) returns (n: int)
      requires Valid() && rxTail + room == rxBuf.Length && room > 0
      modifies this`source, this`lastError, rxBuf
      ensures if old(source) == [] then n == (if broken then -1 else 0) else 1 <= n <= room && n <= |old(source)|
      ensures lastError == if n == -1 then NativeError else old(lastError)
      ensures n <= 0 ==> source == old(source)
      ensures n > 0 ==> source == old(source)[n..] && rxBuf[rxTail..rxTail + n] == old(source)[..n]
      ensures forall k :: 0 <= k < rxTail ==> rxBuf[k] == old(rxBuf[k])
    {
      if source == [] {
        if broken {
          lastError := NativeError;
          return -1;
        }
        return 0;
      }
      n :| 1 <= n <= room && n <= |source|;
      forall k | 0 <= k < n {
        rxBuf[rxTail + k] := source[k];
      }
      source := source[n..];
    }

    /**
     Whatever happens, nothing is lost or repeated; no_buffer_space means a buffer full of
     unread bytes, and no byte is delivered only when none is left.
     */
    method FillBuffer() returns (n: int)
      requires Valid()
      modifies this`rxHead, this`rxTail, this`source, this`lastError, rxBuf
      ensures Valid() && Unread() == old(Unread())
      ensures var held := old(rxTail - rxHead);
        if held == rxBuf.Length then n == -1 && lastError == NoBufferSpace
        else if old(source) == [] then
          n == (if broken then -1 else 0) && source == [] && rxTail - rxHead == held &&
          lastError == (if broken then NativeError else old(lastError))
        else n == rxTail - rxHead - held > 0 && lastError == old(lastError)
    {
      MakeRoom();
      if rxTail == rxBuf.Length {
        lastError := NoBufferSpace;
        return -1;
      }
      ghost var held, arriving := rxBuf[rxHead..rxTail], source;
      n := ReadNative(rxBuf.Length - rxTail);
      if n > 0 {
        assert rxBuf[rxHead..rxTail] == held;
        assert rxBuf[rxHead..rxTail + n] == held + rxBuf[rxTail..rxTail + n];
        Delivered(held, arriving, n);
        rxTail := rxTail + n;
      } else {
        assert rxBuf[rxHead..rxTail] == held;
      }
    }

    /** An empty buffer starts over; a full one is compacted. */
    method MakeRoom()
      requires Valid()
      modifies this`rxHead, this`rxTail, rxBuf
      ensures Valid() && Unread() == old(Unread()) && rxTail - rxHead == old(rxTail - rxHead)
      ensures rxTail == rxBuf.Length <==> old(rxTail - rxHead) == rxBuf.Length
    {
      if rxHead == rxTail {
        rxHead := 0;
        rxTail := 0;
      } else if rxTail == rxBuf.Length {
        Compact();
      }
    }

    static lemma Delivered(held: seq<byte>, arriving: seq<byte>, got: nat)
      requires got <= |arriving|
      ensures held + arriving[..got] + arriving[got..] == held + arriving
    {}

    /** Moves the unread bytes to the front, in place. */
    method Compact()
      requires Valid()
      modifies this`rxHead, this`rxTail, rxBuf
      ensures Valid() && rxHead == 0 && rxTail == old(rxTail - rxHead)
      ensures rxBuf[rxHead..rxTail] == old(rxBuf[rxHead..rxTail])
    {
      var left := rxTail - rxHead;
      forall k | 0 <= k < left {
        rxBuf[k] := rxBuf[rxHead + k];
      }
      rxHead, rxTail := 0, left;
    }

    method TakeBuffered(dst: array<byte>, at: nat, nMax: nat) returns (count: nat)
      requires Valid() && at + nMax <= dst.Length && dst != rxBuf
      modifies this`rxHead, this`rxTail, dst
      ensures Valid() && count == Min(old(rxTail - rxHead), nMax) <= |old(Unread())|
      ensures Unread() == old(Unread())[count..] && rxTail - rxHead == old(rxTail - rxHead) - count
      ensures dst[at..at + count] == old(Unread())[..count]
      ensures dst[..at] == old(dst[..at])
    {
      count := Min(rxTail - rxHead, nMax);
      ghost var all := Unread();
      assert all[..count] == rxBuf[rxHead..rxHead + count];
      assert all[count..] == rxBuf[rxHead + count..rxTail] + source;
      forall k | 0 <= k < count {
        dst[at + k] := rxBuf[rxHead + k];
      }
      assert dst[at..at + count] == all[..count];
      rxHead := rxHead + count;
      if rxHead == rxTail {
        rxHead := 0;
        rxTail := 0;
      }
    }

    /** Continues a read of which `count` bytes are there. */
    method TakeMore(buf: array<byte>, count: nat, nBytes: nat, ghost all: seq<byte>) returns (more: nat)
      requires Valid() && count <= nBytes <= buf.Length && buf != rxBuf
      requires count <= |all| && buf[..count] == all[..count] && Unread() == all[count..]
      modifies this`rxHead, this`rxTail, buf
      ensures Valid() && count <= more <= nBytes && more <= |all|
      ensures more == nBytes || rxHead == rxTail
      ensures buf[..more] == all[..more] && Unread() == all[more..]
    {
      var took := TakeBuffered(buf, count, nBytes - count);
      more := count + took;
      Continued(all, count, took);
      assert buf[..more] == buf[..count] + buf[count..more];
    }

    static lemma Continued(all: seq<byte>, count: nat, took: nat)
      requires count + took <= |all|
      ensures all[..count] + all[count..][..took] == all[..count + took]
      ensures all[count..][took..] == all[count + took..]
    {}

    /** Reads until `nBytes` have come, the time is up or the port fails; -1 only when nothing was read. */
    method Read(buf: array<byte>, nBytes: nat) returns (ret: int)
      requires Valid() && nBytes <= buf.Length && buf != rxBuf
      modifies this, rxBuf, buf
      ensures Valid() && !pendingLf && broken == old(broken) && isOpen == old(isOpen)
      ensures !isOpen ==> ret == -1 && lastError == BadFileDescriptor && !timedOut && Unread() == old(Unread())
      ensures var count := Min(nBytes, |old(Unread())|);
        isOpen ==>
          && ret == (if count == 0 && nBytes > 0 && broken then -1 else count)
          && buf[..count] == old(Unread())[..count] && Unread() == old(Unread())[count..]
          && timedOut == (count < nBytes && !broken)
          && lastError == (if count < nBytes && broken then NativeError else NoError)
    {
      BeginOperation();
      pendingLf := false;
      if !isOpen {
        lastError := BadFileDescriptor;
        return -1;
      }
      var count := 0;
      ghost var all := Unread();
      while count < nBytes
        invariant Valid() && !pendingLf && !timedOut && count <= nBytes && count <= |all|
        invariant isOpen && broken == old(broken) && lastError == NoError
        invariant buf[..count] == all[..count] && Unread() == all[count..]
        decreases |all| - count, |source|
      {
        count := TakeMore(buf, count, nBytes, all);
        if count == nBytes {
          break;
        }
        ret := FillBuffer();
        if ret < 0 {
          return if count > 0 then count else -1;
        }
        if ret == 0 {
          timedOut := true;
          break;
        }
      }
      return count;
    }

    /** Reads whatever is there, waiting only for a first byte. */
    method ReadSome(buf: array<byte>, nMax: nat) returns (ret: int)
      requires Valid() && nMax <= buf.Length && buf != rxBuf
      modifies this, rxBuf, buf
      ensures Valid() && !pendingLf && broken == old(broken) && isOpen == old(isOpen)
      ensures !isOpen ==> ret == -1 && lastError == BadFileDescriptor && !timedOut && Unread() == old(Unread())
      ensures isOpen && nMax > 0 && old(Unread()) == [] ==>
        && ret == (if broken then -1 else 0) && timedOut == !broken && Unread() == []
        && lastError == (if broken then NativeError else NoError)
      ensures isOpen && (nMax == 0 || old(Unread()) != []) ==>
        && (if nMax == 0 then ret == 0 else 1 <= ret <= Min(nMax, |old(Unread())|))
        && buf[..ret] == old(Unread())[..ret] && Unread() == old(Unread())[ret..]
        && !timedOut && lastError == NoError
    {
      BeginOperation();
      pendingLf := false;
      if !isOpen {
        lastError := BadFileDescriptor;
        return -1;
      }
      if nMax == 0 {
        return 0;
      }
      if rxTail == rxHead {
        ret := FillBuffer();
        if ret < 0 {
          return -1;
        }
        if ret == 0 {
          timedOut := true;
          return 0;
        }
      }
      ret := TakeBuffered(buf, 0, nMax);
    }

    /** Part of a line has been read. */
    ghost predicate InLine(pending: bool, bytes: seq<byte>, seen: seq<byte>, line: seq<byte>)
      requires Valid()
      reads this, rxBuf
    {
      !timedOut && Cutting() &&
      Partial(pending, bytes, seen, Line(line, lastError == MessageSize), maxLineLength, pendingLf, Unread())
    }

    /** The only complaint so far, if any, is about the line's length. */
    ghost predicate Cutting()
      reads this
    {
      lastError == NoError || lastError == MessageSize
    }

    /** The first line of `bytes` has been read, and no more. */
    ghost predicate LineRead(pending: bool, bytes: seq<byte>, line: seq<byte>)
      requires Valid()
      reads this, rxBuf
    {
      !timedOut && Cutting() &&
      Next(pending, bytes, maxLineLength) == Some(Cut(Line(line, lastError == MessageSize), Unread(), pendingLf))
    }

    /** The bytes ran out first: all of them are consumed, as an unfinished line. */
    ghost predicate LineBroken(pending: bool, bytes: seq<byte>, line: seq<byte>)
      requires Valid()
      reads this, rxBuf
    {
      var head := DropLf(pending, bytes);
      line == head[..Min(|head|, maxLineLength)] && Unread() == [] && pendingLf == (pending && bytes == []) &&
      timedOut == !broken &&
      lastError == (if broken then NativeError else if |head| > maxLineLength then MessageSize else NoError)
    }

    /**
     One line. On an open port the outcome depends on the bytes alone, never on how reads cut
     them up: the first complete line of the bytes not yet handed out, or when the time runs
     out or the port fails before it is complete, an unfinished line. -1 is returned for a
     failure before the first byte of a line.
     */
    method ReadLine() returns (ret: int, line: seq<byte>)
      requires Valid()
      modifies this, rxBuf
      ensures Valid() && broken == old(broken) && isOpen == old(isOpen)
      ensures !isOpen ==>
        && ret == -1 && line == [] && lastError == BadFileDescriptor && !timedOut
        && Unread() == old(Unread()) && pendingLf == old(pendingLf)
      ensures isOpen ==>
        if Next(old(pendingLf), old(Unread()), maxLineLength).Some? then
          LineRead(old(pendingLf), old(Unread()), line) && ret == |line|
        else
          LineBroken(old(pendingLf), old(Unread()), line) && ret == (if broken && line == [] then -1 else |line|)
    {
      hide EndOf, Next, Partial, DropLf;
      BeginOperation();
      line := [];
      if !isOpen {
        lastError := BadFileDescriptor;
        return -1, line;
      }
      ghost var pending, bytes, seen := pendingLf, Unread(), [];
      LineStarts();
      while true
        invariant Valid() && isOpen && broken == old(broken) && InLine(pending, bytes, seen, line)
        decreases |source|, rxTail - rxHead
      {
        var done;
        done, line, seen := ScanBuffer(pending, bytes, seen, line);
        if done {
          return |line|, line;
        }
        if source == [] {
          LineUnfinished(pending, bytes, seen, line);
        }
        ret := FillBuffer();
        if ret < 0 {
          return if line == [] then -1 else |line|, line;
        }
        if ret == 0 {
          timedOut := true;
          return |line|, line;
        }
      }
    }

    lemma LineStarts()
      requires Valid() && !timedOut && lastError == NoError
      ensures InLine(pendingLf, Unread(), [], [])
    {
      EmptyHasNoEnd();
      assert [] + DropLf(pendingLf, Unread()) == DropLf(pendingLf, Unread());
    }

    lemma LineUnfinished(pending: bool, bytes: seq<byte>, seen: seq<byte>, line: seq<byte>)
      requires Valid() && InLine(pending, bytes, seen, line) && Unread() == []
      ensures Next(pending, bytes, maxLineLength) == None
      ensures var head := DropLf(pending, bytes);
        line == head[..Min(|head|, maxLineLength)] && (lastError == MessageSize <==> |head| > maxLineLength)
      ensures pendingLf == (pending && bytes == [])
    {
      hide EndOf, Next;
      assert seen + [] == seen;
      NoLine(pending, bytes, maxLineLength);
    }

    /**
     A caller that reads lines until none is complete gets them all, cut as the byte machine cuts
     them, and then the unfinished line that machine would hold.
     */
    method ReadLines() returns (lines: seq<Line>, unfinished: seq<byte>)
      requires Valid() && isOpen
      modifies this, rxBuf
      ensures Valid() && isOpen && Unread() == []
      ensures lines == All(old(pendingLf), old(Unread()), maxLineLength)
      ensures var t := Text([], false, old(pendingLf));
        lines == Emitted(t, old(Unread()), maxLineLength + 1) &&
        unfinished == After(t, old(Unread()), maxLineLength + 1).line &&
        pendingLf == After(t, old(Unread()), maxLineLength + 1).pendingCr
    {
      hide Next, DropLf, Emitted, All, After;
      LinesAgree(pendingLf, Unread(), maxLineLength + 1);
      lines := [];
      ghost var goal := All(pendingLf, Unread(), maxLineLength);
      ghost var last := After(Text([], false, pendingLf), Unread(), maxLineLength + 1);
      assert [] + goal == goal;
      while true
        invariant Valid() && isOpen && goal == lines + All(pendingLf, Unread(), maxLineLength)
        invariant last == After(Text([], false, pendingLf), Unread(), maxLineLength + 1)
        decreases |Unread()|
      {
        AllNext(lines, pendingLf, Unread(), maxLineLength);
        if Next(pendingLf, Unread(), maxLineLength).Some? {
          AfterNext(pendingLf, Unread(), maxLineLength + 1);
        } else {
          AfterLast(pendingLf, Unread(), maxLineLength + 1);
        }
        var ret, line := ReadLine();
        if timedOut || lastError == NativeError {
          unfinished := line;
          break;
        }
        lines := lines + [Line(line, lastError == MessageSize)];
      }
    }

    /**
     Reading goes on after a deadline: with more bytes arriving in between, the lines are those
     of the whole stream, unless the first deadline fell in the middle of a line, whose two
     halves then come apart.
     */
    method ReadLinesTwice(arriving: seq<byte>) returns (lines: seq<Line>, between: seq<byte>)
      requires Valid() && isOpen
      modifies this, rxBuf
      ensures var t := Text([], false, old(pendingLf));
        var held := After(t, old(Unread()), maxLineLength + 1);
        between == held.line &&
        (between == [] ==> lines == Emitted(t, old(Unread()) + arriving, maxLineLength + 1)) &&
        lines == Emitted(t, old(Unread()), maxLineLength + 1)
          + Emitted(Text([], false, held.pendingCr), arriving, maxLineLength + 1)
    {
      hide Emitted, After, All;
      EmittedConcat(Text([], false, pendingLf), Unread(), arriving, maxLineLength + 1);
      HeldUncut(pendingLf, Unread(), maxLineLength + 1);
      var more, end;
      lines, between := ReadLines();
      Arrive(arriving);
      assert Unread() == arriving;
      more, end := ReadLines();
      lines := lines + more;
    }

    /** The inner loop: bytes of the buffer up to the end of the line or of the buffer. */
    method ScanBuffer(ghost pending: bool, ghost bytes: seq<byte>, ghost seen0: seq<byte>, line0: seq<byte>)
      returns (done: bool, line: seq<byte>, ghost seen: seq<byte>)
      requires Valid() && InLine(pending, bytes, seen0, line0)
      modifies this`rxHead, this`pendingLf, this`lastError
      ensures Valid() && source == old(source)
      ensures if done then LineRead(pending, bytes, line)
        else InLine(pending, bytes, seen, line) && rxHead == rxTail
    {
      hide Partial, Next;
      line, seen := line0, seen0;
      while rxHead < rxTail
        invariant Valid() && InLine(pending, bytes, seen, line)
        decreases rxTail - rxHead
      {
        done, line, seen := ScanByte(pending, bytes, seen, line);
        if done {
          return;
        }
      }
      done := false;
    }

    /** One byte of the buffer. */
    method ScanByte(ghost pending: bool, ghost bytes: seq<byte>, ghost seen0: seq<byte>, line0: seq<byte>)
      returns (done: bool, line: seq<byte>, ghost seen: seq<byte>)
      requires Valid() && rxHead < rxTail && InLine(pending, bytes, seen0, line0)
      modifies this`rxHead, this`pendingLf, this`lastError
      ensures Valid() && rxHead == old(rxHead) + 1
      ensures if done then LineRead(pending, bytes, line) else InLine(pending, bytes, seen, line)
    {
      hide Next, Partial;
      line, seen := line0, seen0;
      var c := rxBuf[rxHead];
      ghost var held, rest := Line(line, lastError == MessageSize), rxBuf[rxHead + 1..rxTail] + source;
      assert Unread() == [c] + rest;
      PartialNext(pending, bytes, seen, held, maxLineLength, pendingLf, c, rest);
      rxHead := rxHead + 1;
      assert Unread() == rest;
      if pendingLf {
        pendingLf := false;
        if c == LF {
          return false, line, seen;
        }
      }
      if c == LF {
        return true, line, seen;
      }
      if c == CR {
        pendingLf := true;
        return true, line, seen;
      }
      seen := seen + [c];
      if |line| >= maxLineLength {
        lastError := MessageSize;
      } else {
        line := line + [c];
      }
      return false, line, seen;
    }
  }

  /** What one more byte does to an unfinished line. */
  lemma PartialNext(pending: bool, bytes: seq<byte>, seen: seq<byte>, line: Line, max: nat,
                    pendingLf: bool, c: byte, rest: seq<byte>)
    requires Partial(pending, bytes, seen, line, max, pendingLf, [c] + rest)
    ensures pendingLf && c == LF ==> Partial(pending, bytes, seen, line, max, false, rest)
    ensures IsEnd(c) && !(pendingLf && c == LF) ==> Next(pending, bytes, max) == Some(Cut(line, rest, c == CR))
    ensures !IsEnd(c) ==>
      Partial(pending, bytes, seen + [c],
              if |line.text| >= max then Line(line.text, true) else Line(line.text + [c], line.truncated),
              max, false, rest)
  {
    hide EndOf, Next, DropLf;
    DropNext(pendingLf, c, rest);
    if IsEnd(c) && !(pendingLf && c == LF) {
      NextOfParts(pending, bytes, seen, c, rest, max);
    }
    if !IsEnd(c) {
      ExtendsSeen(seen, c);
      assert seen + ([c] + rest) == seen + [c] + rest;
    }
  }

  lemma DropNext(pending: bool, c: byte, rest: seq<byte>)
    ensures DropLf(pending, [c] + rest) == if pending && c == LF then rest else [c] + rest
    ensures DropLf(false, rest) == rest
  {
    assert ([c] + rest)[1..] == rest;
  }

  lemma AllNext(lines: seq<Line>, pending: bool, s: seq<byte>, max: nat)
    ensures var c := Next(pending, s, max);
      lines + All(pending, s, max) ==
        if c.None? then lines else lines + [c.value.line] + All(c.value.pending, c.value.rest, max)
  {
    hide Next;
  }

  lemma EmptyHasNoEnd()
    ensures EndOf([]) == 0
  {}
}
