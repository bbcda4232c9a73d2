/**
 Text lines on a byte stream. Two implementations in the repository split lines: the text
 half of the demultiplexer, one byte at a time, and the serial port's `read_line`, one line
 at a time. This module holds a specification of each and proves that they agree.
 */
module Lines {
  import opened Bytes

  const CR: byte := 13
  const LF: byte := 10

  datatype Line = Line(text: seq<byte>, truncated: bool)

  // --- one byte at a time ------------------------------------------------

  /** The pending line, whether bytes of it were dropped, and whether a CR awaits its LF. */
  datatype Text = Text(line: seq<byte>, truncated: bool, pendingCr: bool)

  /** Appends a byte verbatim, keeping room for the terminating NUL among `lineMax` bytes. */
  function AppendByte(t: Text, b: byte, lineMax: nat): Text {
    if |t.line| + 1 >= lineMax then t.(truncated := true) else t.(line := t.line + [b])
  }

  function Append(t: Text, s: seq<byte>, lineMax: nat): Text
    decreases |s|
  {
    if s == [] then t else Append(AppendByte(t, s[0], lineMax), s[1..], lineMax)
  }

  function Emit(t: Text, cr: bool): (Text, Option<Line>) {
    (Text([], false, cr), Some(Line(t.line, t.truncated)))
  }

  function Step(t: Text, b: byte, lineMax: nat): (Text, Option<Line>) {
    if b == CR then Emit(t, true)
    else if b == LF then
      if t.pendingCr then (t.(pendingCr := false), None) else Emit(t, false)
    else (AppendByte(t.(pendingCr := false), b, lineMax), None)
  }

  function After(t: Text, s: seq<byte>, lineMax: nat): Text
    decreases |s|
  {
    if s == [] then t else After(Step(t, s[0], lineMax).0, s[1..], lineMax)
  }

  function Emitted(t: Text, s: seq<byte>, lineMax: nat): seq<Line>
    decreases |s|
  {
    if s == [] then []
    else
      var (t', line) := Step(t, s[0], lineMax);
      (if line.Some? then [line.value] else []) + Emitted(t', s[1..], lineMax)
  }

  lemma {:induction false} EmittedConcat(t: Text, a: seq<byte>, b: seq<byte>, lineMax: nat)
    ensures Emitted(t, a + b, lineMax) == Emitted(t, a, lineMax) + Emitted(After(t, a, lineMax), b, lineMax)
    ensures After(t, a + b, lineMax) == After(After(t, a, lineMax), b, lineMax)
    decreases |a|
  {
    if a == [] {
      assert a + b == b;
    } else {
      assert (a + b)[1..] == a[1..] + b;
      EmittedConcat(Step(t, a[0], lineMax).0, a[1..], b, lineMax);
    }
  }

  /** What `Append` keeps: the first bytes that leave room for the NUL. */
  lemma {:induction false} AppendKeeps(t: Text, s: seq<byte>, lineMax: nat)
    requires |t.line| < lineMax
    ensures Append(t, s, lineMax) ==
      Text((t.line + s)[..Min(|t.line| + |s|, lineMax - 1)],
           t.truncated || |t.line| + |s| > lineMax - 1, t.pendingCr)
    decreases |s|
  {
    if s == [] {
      assert t.line + s == t.line;
    } else {
      AppendKeeps(AppendByte(t, s[0], lineMax), s[1..], lineMax);
      if |t.line| + 1 >= lineMax {
        assert (t.line + s)[..|t.line|] == t.line == (t.line + s[1..])[..|t.line|];
      } else {
        assert t.line + [s[0]] + s[1..] == t.line + s;
      }
    }
  }

  // --- one line at a time ------------------------------------------------

  predicate IsEnd(b: byte) {
    b == CR || b == LF
  }

  /** Index of the first CR or LF, or the length. */
  function EndOf(s: seq<byte>): (k: nat)
    ensures k <= |s|
    ensures forall i :: 0 <= i < k ==> !IsEnd(s[i])
    ensures k < |s| ==> IsEnd(s[k])
  {
    if s == [] || IsEnd(s[0]) then 0 else 1 + EndOf(s[1..])
  }

  /** The LF of a pair whose CR already ended a line is not a line of its own. */
  function DropLf(pending: bool, s: seq<byte>): seq<byte> {
    if pending && s != [] && s[0] == LF then s[1..] else s
  }

  datatype Cut = Cut(line: Line, rest: seq<byte>, pending: bool)

  /** The first complete line of `s`, cut to `max` bytes, and what follows its terminator. */
  function Next(pending: bool, s: seq<byte>, max: nat): (c: Option<Cut>)
    ensures c.Some? ==> |c.value.rest| < |s|
  {
    var u := DropLf(pending, s);
    var k := EndOf(u);
    if k == |u| then None
    else Some(Cut(Line(u[..Min(k, max)], k > max), u[k + 1..], u[k] == CR))
  }

  function All(pending: bool, s: seq<byte>, max: nat): seq<Line>
    decreases |s|
  {
    var c := Next(pending, s, max);
    if c.None? then [] else [c.value.line] + All(c.value.pending, c.value.rest, max)
  }

  // --- the two agree -----------------------------------------------------

  /** Bytes without a terminator only extend the pending line. */
  lemma {:induction false} NoEnd(t: Text, s: seq<byte>, lineMax: nat)
    requires EndOf(s) == |s|
    ensures Emitted(t, s, lineMax) == []
    ensures After(t, s, lineMax) == Append(if s == [] then t else t.(pendingCr := false), s, lineMax)
    decreases |s|
  {
    if s != [] {
      var t' := Step(t, s[0], lineMax).0;
      assert !IsEnd(s[0]);
      assert forall i :: 0 <= i < |s[1..]| ==> s[1..][i] == s[i + 1];
      NoEnd(t', s[1..], lineMax);
    }
  }

  /** The pending line after bytes without a terminator, from a fresh line. */
  lemma FreshLine(pending: bool, head: seq<byte>, lineMax: nat)
    requires lineMax > 0 && EndOf(head) == |head|
    ensures Emitted(Text([], false, pending), head, lineMax) == []
    ensures After(Text([], false, pending), head, lineMax) ==
      Text(head[..Min(|head|, lineMax - 1)], |head| > lineMax - 1, pending && head == [])
  {
    var t := Text([], false, pending && head == []);
    NoEnd(Text([], false, pending), head, lineMax);
    AppendKeeps(t, head, lineMax);
    assert t.line + head == head;
  }

  lemma EmitAtEnd(t: Text, b: byte, rest: seq<byte>, lineMax: nat)
    requires IsEnd(b) && (t.pendingCr ==> b != LF)
    ensures Emitted(t, [b] + rest, lineMax) ==
      [Line(t.line, t.truncated)] + Emitted(Text([], false, b == CR), rest, lineMax)
  {
    assert ([b] + rest)[1..] == rest;
  }

  lemma LineOfParts(pending: bool, head: seq<byte>, b: byte, rest: seq<byte>, lineMax: nat)
    requires lineMax > 0 && EndOf(head) == |head| && IsEnd(b)
    requires pending && head == [] ==> b != LF
    ensures Emitted(Text([], false, pending), head + ([b] + rest), lineMax) ==
      [Line(head[..Min(|head|, lineMax - 1)], |head| > lineMax - 1)]
        + Emitted(Text([], false, b == CR), rest, lineMax)
  {
    hide *;
    var t := Text([], false, pending);
    FreshLine(pending, head, lineMax);
    EmittedConcat(t, head, [b] + rest, lineMax);
    EmitAtEnd(After(t, head, lineMax), b, rest, lineMax);
  }

  lemma FirstLine(pending: bool, s: seq<byte>, lineMax: nat)
    requires lineMax > 0 && EndOf(s) < |s|
    requires pending ==> s[0] != LF
    ensures var k, max := EndOf(s), lineMax - 1;
      Emitted(Text([], false, pending), s, lineMax) ==
        [Line(s[..Min(k, max)], k > max)] + Emitted(Text([], false, s[k] == CR), s[k + 1..], lineMax)
  {
    var k := EndOf(s);
    var head, b, rest := s[..k], s[k], s[k + 1..];
    assert EndOf(head) == k;
    hide Emitted, EndOf;
    LineOfParts(pending, head, b, rest, lineMax);
    SplitAround(s, k, lineMax - 1);
  }

  lemma SplitAround(s: seq<byte>, k: nat, max: nat)
    requires k < |s|
    ensures s[..k] + ([s[k]] + s[k + 1..]) == s
    ensures s[..k][..Min(k, max)] == s[..Min(k, max)]
  {}

  /** Reading line by line gives exactly the lines the byte machine emits from a fresh line. */
  lemma {:induction false} LinesAgree(pending: bool, s: seq<byte>, lineMax: nat)
    requires lineMax > 0
    ensures Emitted(Text([], false, pending), s, lineMax) == All(pending, s, lineMax - 1)
    decreases |s|
  {
    hide *;
    if pending && s != [] && s[0] == LF {
      LfSwallowed(s, lineMax);
      LinesAgree(false, s[1..], lineMax);
    } else {
      var k := EndOf(s);
      AllStep(pending, s, lineMax - 1);
      if k < |s| {
        FirstLine(pending, s, lineMax);
        LinesAgree(s[k] == CR, s[k + 1..], lineMax);
      } else {
        FreshLine(pending, s, lineMax);
      }
    }
  }

  lemma LfSwallowed(s: seq<byte>, lineMax: nat)
    requires s != [] && s[0] == LF && lineMax > 0
    ensures All(true, s, lineMax - 1) == All(false, s[1..], lineMax - 1)
    ensures Emitted(Text([], false, true), s, lineMax) == Emitted(Text([], false, false), s[1..], lineMax)
  {
    hide All, Emitted;
    AllAfterLf(s, lineMax - 1);
    QuietStep(Text([], false, true), s, lineMax);
  }

  lemma QuietStep(t: Text, s: seq<byte>, lineMax: nat)
    requires s != [] && Step(t, s[0], lineMax).1 == None
    ensures Emitted(t, s, lineMax) == Emitted(Step(t, s[0], lineMax).0, s[1..], lineMax)
  {
    hide Step;
  }

  lemma AllAfterLf(s: seq<byte>, max: nat)
    requires s != [] && s[0] == LF
    ensures All(true, s, max) == All(false, s[1..], max)
  {
    assert Next(true, s, max) == Next(false, s[1..], max) by {
      hide EndOf;
      assert DropLf(false, s[1..]) == s[1..] == DropLf(true, s);
    }
    hide Next;
  }

  lemma AllStep(pending: bool, s: seq<byte>, max: nat)
    requires pending && s != [] ==> s[0] != LF
    ensures var k := EndOf(s);
      k <= |s| && All(pending, s, max) ==
        if k == |s| then [] else [Line(s[..Min(k, max)], k > max)] + All(s[k] == CR, s[k + 1..], max)
  {
    hide EndOf, Next, All;
    NextUndropped(pending, s, max);
    AllUnfolds(pending, s, max);
  }

  lemma NextUndropped(pending: bool, s: seq<byte>, max: nat)
    requires pending && s != [] ==> s[0] != LF
    ensures var k := EndOf(s);
      Next(pending, s, max) ==
        if k == |s| then None else Some(Cut(Line(s[..Min(k, max)], k > max), s[k + 1..], s[k] == CR))
  {
    hide EndOf;
    assert DropLf(pending, s) == s;
  }

  lemma AllUnfolds(pending: bool, s: seq<byte>, max: nat)
    ensures var c := Next(pending, s, max);
      All(pending, s, max) == if c.None? then [] else [c.value.line] + All(c.value.pending, c.value.rest, max)
  {
    hide Next;
  }

  // --- the lines of a text -----------------------------------------------

  /** A line and what ends it: LF, CR or both. */
  datatype Written = Written(line: seq<byte>, end: seq<byte>)

  predicate WellWritten(t: seq<Written>) {
    forall i :: 0 <= i < |t| ==>
      t[i].end in [[10], [13], [13, 10]] && forall k :: 0 <= k < |t[i].line| ==> t[i].line[k] !in {10, 13}
  }

  function TextOf(t: seq<Written>): seq<byte> {
    if t == [] then [] else t[0].line + t[0].end + TextOf(t[1..])
  }

  /** A line kept to what leaves room for the NUL. */
  function Kept(line: seq<byte>, lineMax: nat): Line
    requires lineMax > 0
  {
    if |line| < lineMax then Line(line, false) else Line(line[..lineMax - 1], true)
  }

  /** A lone CR is not followed by an empty line ended by a lone LF, which would read as one end of line. */
  predicate NoFalsePair(t: seq<Written>) {
    forall i :: 0 <= i < |t| - 1 ==> t[i].end == [13] ==> t[i + 1].line != [] || t[i + 1].end != [10]
  }

  /** Text yields its lines, one each, whichever way each of them is ended. */
  lemma {:induction false} LinesOfText(t: seq<Written>, pending: bool, lineMax: nat)
    requires lineMax > 0 && WellWritten(t) && NoFalsePair(t)
    requires pending && t != [] ==> t[0].line != [] || t[0].end != [10]
    ensures |Emitted(Text([], false, pending), TextOf(t), lineMax)| == |t|
    ensures forall i :: 0 <= i < |t| ==>
      Emitted(Text([], false, pending), TextOf(t), lineMax)[i] == Kept(t[i].line, lineMax)
  {
    hide Emitted, EndOf, TextOf;
    if t == [] {
      NothingWritten(pending, lineMax);
    } else {
      var w, rest := t[0], TextOf(t[1..]);
      assert forall i :: 0 <= i < |t[1..]| ==> t[1..][i] == t[i + 1];
      FirstWritten(t, pending, lineMax);
      LinesOfText(t[1..], w.end == [13], lineMax);
    }
  }

  lemma NothingWritten(pending: bool, lineMax: nat)
    ensures Emitted(Text([], false, pending), TextOf([]), lineMax) == []
  {}

  lemma FirstWritten(t: seq<Written>, pending: bool, lineMax: nat)
    requires lineMax > 0 && t != [] && WellWritten(t)
    requires pending ==> t[0].line != [] || t[0].end != [10]
    ensures Emitted(Text([], false, pending), TextOf(t), lineMax) ==
      [Kept(t[0].line, lineMax)] + Emitted(Text([], false, t[0].end == [13]), TextOf(t[1..]), lineMax)
  {
    hide Emitted, EndOf;
    var w, rest := t[0], TextOf(t[1..]);
    NoEnds(w.line);
    KeptIsCut(w.line, lineMax);
    assert w.end == [13, 10] || w.end == [13] || w.end == [10];
    LineOfParts(pending, w.line, w.end[0], w.end[1..] + rest, lineMax);
    assert TextOf(t) == w.line + ([w.end[0]] + (w.end[1..] + rest));
    if w.end == [13, 10] {
      assert w.end[1..] + rest == [10] + rest;
      assert ([10] + rest)[1..] == rest;
      QuietStep(Text([], false, true), [10] + rest, lineMax);
    } else {
      assert w.end[1..] == [] && [] + rest == rest;
    }
  }

  lemma KeptIsCut(line: seq<byte>, lineMax: nat)
    requires lineMax > 0
    ensures Kept(line, lineMax) == Line(line[..Min(|line|, lineMax - 1)], |line| > lineMax - 1)
  {
    if |line| < lineMax {
      assert line[..|line|] == line;
    }
  }

  lemma NoEnds(s: seq<byte>)
    requires forall k :: 0 <= k < |s| ==> s[k] !in {10, 13}
    ensures EndOf(s) == |s|
  {
    hide EndOf;
  }

  // --- what is pending afterwards ----------------------------------------

  /** What follows a complete line starts afresh. */
  lemma AfterNext(pending: bool, s: seq<byte>, lineMax: nat)
    requires lineMax > 0 && Next(pending, s, lineMax - 1).Some?
    ensures var c := Next(pending, s, lineMax - 1).value;
      After(Text([], false, pending), s, lineMax) == After(Text([], false, c.pending), c.rest, lineMax)
  {
    hide After, EndOf, Emitted;
    var u := DropLf(pending, s);
    var flag, k := pending && u == s, EndOf(u);
    DroppedLf(pending, s, lineMax);
    var head, tail := u[..k], [u[k]] + u[k + 1..];
    assert EndOf(head) == k by { EndOfHead(u); }
    assert head + tail == u by { SplitAround(u, k, 0); }
    FreshLine(flag, head, lineMax);
    EmittedConcat(Text([], false, flag), head, tail, lineMax);
    EndStarts(After(Text([], false, flag), head, lineMax), u[k], u[k + 1..], lineMax);
  }

  /** Bytes without a complete line leave all of it pending. */
  lemma AfterLast(pending: bool, s: seq<byte>, lineMax: nat)
    requires lineMax > 0 && Next(pending, s, lineMax - 1).None?
    ensures var head := DropLf(pending, s);
      After(Text([], false, pending), s, lineMax) ==
        Text(head[..Min(|head|, lineMax - 1)], |head| > lineMax - 1, pending && s == [])
  {
    hide After, EndOf;
    DroppedLf(pending, s, lineMax);
    var u := DropLf(pending, s);
    FreshLine(pending && u == s, u, lineMax);
  }

  /** A pending line that is empty has not been cut. */
  lemma {:induction false} HeldUncut(pending: bool, s: seq<byte>, lineMax: nat)
    requires lineMax > 1
    ensures var t := After(Text([], false, pending), s, lineMax);
      t.line == [] ==> !t.truncated
    decreases |s|
  {
    hide After, Next;
    var c := Next(pending, s, lineMax - 1);
    if c.Some? {
      AfterNext(pending, s, lineMax);
      HeldUncut(c.value.pending, c.value.rest, lineMax);
    } else {
      AfterLast(pending, s, lineMax);
    }
  }

  lemma DroppedLf(pending: bool, s: seq<byte>, lineMax: nat)
    ensures var u := DropLf(pending, s);
      After(Text([], false, pending), s, lineMax) == After(Text([], false, pending && u == s), u, lineMax) &&
      (pending && u == s && u != [] ==> u[0] != LF)
  {}

  lemma EndOfHead(s: seq<byte>)
    ensures EndOf(s[..EndOf(s)]) == EndOf(s)
  {
    var head := s[..EndOf(s)];
    assert forall i :: 0 <= i < |head| ==> head[i] == s[i];
    hide EndOf;
  }

  lemma EndStarts(t: Text, b: byte, rest: seq<byte>, lineMax: nat)
    requires IsEnd(b) && (t.pendingCr ==> b != LF)
    ensures After(t, [b] + rest, lineMax) == After(Text([], false, b == CR), rest, lineMax)
  {
    assert ([b] + rest)[1..] == rest;
  }
}
