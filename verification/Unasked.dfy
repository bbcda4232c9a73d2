/** What the device sends without being asked, as the host hears it. */
module Unasked {
  import opened Bytes
  import opened Framing
  import opened MsgPack
  import opened Values
  import opened Device
  import opened Messages
  import opened DeviceRuns
  import opened Service
  import opened DemuxLaws
  import Demux = Demultiplexer
  import Lines

  /** The frames and lines a host makes of one step's output. */
  ghost function Heard(hd: Demux.State, steps: seq<Timed>, i: nat, limits: Limits, z: Sizes): Effect
    requires DeviceRuns.Run(steps) && i < |steps|
  {
    DemuxLaws.Run(hd, Written(Emits(FRESH, steps, i, limits)), z)
  }

  /** A host that receives every frame of the device, and has not collected one of its own making. */
  predicate Listening(hd: Demux.State, limits: Limits, z: Sizes) {
    Clear(hd) && ServerSizes(limits.bufSize).frameMax <= z.frameMax
  }

  /**
   Over any run: a notification taken during an attachment reaches the host with its arguments if
   it fits; at any other time nothing is sent. Only one that does not fit is counted.
   */
  lemma NotifyHeard(hd: Demux.State, steps: seq<Timed>, i: nat, limits: Limits, z: Sizes)
    requires DeviceRuns.Run(steps) && i < |steps| && steps[i].step.Notify? && Listening(hd, limits, z)
    ensures var name, args := steps[i].step.name, steps[i].step.args;
      var s, e := At(FRESH, steps, i, limits), Heard(hd, steps, i, limits, z);
      var fits := |NoticePayload(name, args)| <= limits.bufSize;
      e.lines == [] && |e.frames| == (if InAttachment(steps, i) && fits then 1 else 0) &&
      (e.frames != [] && WithinDepth(Arr(args), 0) ==>
         ParseIncoming(e.frames[0]) == Notice(name, Normal(Arr(args)))) &&
      At(FRESH, steps, i + 1, limits) == (if InAttachment(steps, i) && !fits then CountOverflow(s) else s)
  {
    hide At, InAttachment, NoticePayload, ParseIncoming, DemuxLaws.Run, Frame, Body, Clear;
    var name, args := steps[i].step.name, steps[i].step.args;
    var p, s := NoticePayload(name, args), At(FRESH, steps, i, limits);
    AttachedMeans(steps, i, limits);
    AtNext(FRESH, steps, i, limits);
    if InAttachment(steps, i) && |p| <= limits.bufSize {
      PayloadsFit(p, limits.bufSize);
      FrameArrives(hd, p, z);
      if WithinDepth(Arr(args), 0) {
        NoticeReads(name, args);
      }
    } else {
      RunNothing(hd, z);
    }
  }

  lemma AtNext(s: State, steps: seq<Timed>, i: nat, limits: Limits)
    requires DeviceRuns.Run(steps) && i < |steps|
    ensures At(s, steps, i + 1, limits) ==
      Take(At(s, steps, i, limits), steps[i].step, steps[i].time % WRAP, limits).0
  {}

  /** A log line taken during an attachment reaches the host as a framed `log` notification, if that fits. */
  lemma LogFramed(hd: Demux.State, steps: seq<Timed>, i: nat, limits: Limits, z: Sizes)
    requires DeviceRuns.Run(steps) && i < |steps| && steps[i].step.Log? && Listening(hd, limits, z)
    requires InAttachment(steps, i)
    ensures var level, line, e := steps[i].step.level, steps[i].step.line, Heard(hd, steps, i, limits, z);
      var fits := |NoticePayload(LOG, [Int(level), Str(CString(line))])| <= limits.bufSize;
      e.lines == [] && |e.frames| == (if fits then 1 else 0) &&
      (fits ==> ParseIncoming(e.frames[0]) == Notice(LOG, Arr([Uint(level), Str(CString(line))])))
  {
    hide At, InAttachment, NoticePayload, ParseIncoming, CString, DemuxLaws.Run, Frame, Body, Clear;
    var level, line, s := steps[i].step.level, steps[i].step.line, At(FRESH, steps, i, limits);
    AttachedMeans(steps, i, limits);
    LogReachesHost(s, level, line, limits.bufSize);
    var out := EmitLog(s, level, line, limits.bufSize).1;
    if out.Framed? {
      PayloadsFit(out.payload, limits.bufSize);
      FrameArrives(hd, out.payload, z);
    } else {
      RunNothing(hd, z);
    }
  }

  /** A host between frames that has no line pending. */
  predicate AtLineStart(hd: Demux.State) {
    !hd.inFrame && hd.collected == [] && hd.text == Lines.Text([], false, false)
  }

  /**
   Without an attachment it goes out as plain text: the host shows it as one line, cut to what
   its line buffer holds, and stands at the start of the next.
   */
  lemma LogPlain(hd: Demux.State, steps: seq<Timed>, i: nat, limits: Limits, z: Sizes)
    requires DeviceRuns.Run(steps) && i < |steps| && steps[i].step.Log? && !InAttachment(steps, i)
    requires AtLineStart(hd) && z.lineMax > 0
    requires ZeroFree(steps[i].step.line) && Lines.EndOf(steps[i].step.line) == |steps[i].step.line|
    ensures var line, e := steps[i].step.line, Heard(hd, steps, i, limits, z);
      e == Effect(hd, [], [Lines.Line(line[..Min(|line|, z.lineMax - 1)], |line| > z.lineMax - 1)])
  {
    hide At, InAttachment, Announce, DemuxLaws.Run, Lines.EndOf;
    AttachedMeans(steps, i, limits);
    LineShown(hd, steps[i].step.line, z);
  }

  /** A line of text and its LF, from a host at the start of a line. */
  lemma LineShown(hd: Demux.State, line: seq<byte>, z: Sizes)
    requires AtLineStart(hd) && z.lineMax > 0 && ZeroFree(line) && Lines.EndOf(line) == |line|
    ensures DemuxLaws.Run(hd, line + [NEWLINE], z) ==
      Effect(hd, [], [Lines.Line(line[..Min(|line|, z.lineMax - 1)], |line| > z.lineMax - 1)])
  {
    hide DemuxLaws.Run, Lines.EndOf, Lines.After, Lines.Emitted;
    Lines.FreshLine(false, line, z.lineMax);
    RunText(hd, line, z);
    RunByte(hd.(text := Lines.After(hd.text, line, z.lineMax)), NEWLINE, z);
    RunConcat(hd, line, [NEWLINE], z);
  }

  const BANNER: seq<byte> := Ascii("#serial_rpc ready v1")

  /** Every start of the device shows up at such a host as the line that a connecting host waits for. */
  lemma BannerShown(hd: Demux.State, steps: seq<Timed>, i: nat, limits: Limits, z: Sizes)
    requires DeviceRuns.Run(steps) && i < |steps| && steps[i].step.Begin?
    requires AtLineStart(hd) && z.lineMax > 20
    ensures Heard(hd, steps, i, limits, z) == Effect(hd, [], [Lines.Line(BANNER, false)])
  {
    hide At, DemuxLaws.Run, Lines.EndOf, BANNER, READY;
    BannerBytes();
    LineShown(hd, BANNER, z);
    assert BANNER[..20] == BANNER;
  }

  lemma BannerBytes()
    ensures READY == BANNER + [NEWLINE] && |BANNER| == 20 && BANNER[12..17] == Ascii("ready")
    ensures ZeroFree(BANNER) && Lines.EndOf(BANNER) == |BANNER|
  {
    BannerIsStart();
    BannerPrints();
    NoEndInside(BANNER);
  }

  lemma BannerIsStart()
    ensures READY == BANNER + [NEWLINE] && |BANNER| == 20 && BANNER[12..17] == Ascii("ready")
  {
    var text := "#serial_rpc ready v1";
    assert text[12..17] == "ready" && text + "\n" == "#serial_rpc ready v1\n";
  }

  lemma BannerPrints()
    ensures forall k :: 0 <= k < |BANNER| ==> BANNER[k] > 13
  {
    var text := "#serial_rpc ready v1";
    assert forall k :: 0 <= k < |text| ==> text[k] as int > 13;
    assert forall k :: 0 <= k < |BANNER| ==> BANNER[k] as int == text[k] as int;
  }

  lemma NoEndInside(s: seq<byte>)
    requires forall i :: 0 <= i < |s| ==> !Lines.IsEnd(s[i])
    ensures Lines.EndOf(s) == |s|
  {
    hide Lines.EndOf;
  }
}
