/** Receiving a crash dump in the plain protocol: std_ul_recv_data and std_dump_receive_cp_dump.  The modem is
    an arbitrary list of events. */
module StdDump {
  import opened Common
  import opened StdProtocol

  const DUMP_STAGE: Nibble := 0xD

  /** A frame as it arrives; `data` is what its `len` announces. */
  datatype DumpFrame = DumpFrame(cmd: nat, numFrames: nat, currFrame: nat, data: seq<int>)

  /** What happens on the next call to the device: a write is taken, a word arrives, the dump information
      arrives, the crash reason arrives (`stored` whether the write to the information file then works), a frame
      arrives (`count` is what read returns, `stored` whether the write to the dump file then works), or the
      call fails. */
  datatype DumpEvent =
    | Taken
    | Answer(word: nat)
    | Info(dumpSize: nat, numSteps: nat)
    | Reason(stored: bool)
    | Arrives(frame: DumpFrame, count: nat, stored: bool)
    | Failed

  /** The events of a run, one after the other. */
  datatype Events = Silence | Then(event: DumpEvent, rest: Events) {
    /** What is left after the next call. */
    function Tail(): Events { if this == Silence then Silence else rest }

    /** The next two events are a write that is taken and this reply. */
    predicate Grants(reply: nat) {
      Then? && event == Taken && rest.Then? && rest.event == Answer(reply)
    }

    /** The next two events are the dump information and a crash reason that is stored. */
    predicate Informs() {
      Then? && event.Info? && rest.Then? && rest.event == Reason(true)
    }
  }

  function Exp(step: nat): nat { PLAIN_CP2AP + DUMP_STAGE * 0x100 + step }

  function Req(step: nat): nat { PLAIN_AP2CP + DUMP_STAGE * 0x100 + step }

  /** The requests for the steps first .. first + count - 1. */
  function StepRequests(first: nat, count: nat): seq<int> {
    seq(count, i requires i >= 0 => Req(first + i))
  }

  /** START, the steps and DONE. */
  function Requests(numSteps: nat): (requests: seq<int>)
    ensures |requests| == numSteps + 2 && requests[numSteps + 1] == 0x9D0D
    ensures forall k :: 0 <= k <= numSteps ==> requests[k] == 0x9D00 + k
  {
    [Req(0)] + StepRequests(1, numSteps) + [Req(0xD)]
  }

  /** A request decodes to the daemon, the dump stage and this step, and the frames and replies that belong to it
      to the same from the modem. */
  lemma StepWords(step: nat)
    requires step < 0x100
    ensures Req(step) == Msg(9, 0xD, step / 16, step % 16) == 0x9D00 + step
    ensures Exp(step) == Msg(0xA, 0xD, step / 16, step % 16) == 0xAD00 + step
    ensures Req(step) / 0x1000 == 9 && Req(step) / 0x100 % 16 == 0xD
    ensures Exp(step) / 0x1000 == 0xA && Exp(step) / 0x100 % 16 == 0xD
  {
    MsgDecodes(9, 0xD, step / 16, step % 16);
    MsgDecodes(0xA, 0xD, step / 16, step % 16);
  }

  /** No two requests of a dump are the same word, exactly for less than 13 steps. */
  lemma RequestsDistinctIff(numSteps: nat)
    requires numSteps < 0x100
    ensures (forall i, j :: 0 <= i < j < numSteps + 2 ==> Requests(numSteps)[i] != Requests(numSteps)[j]) <==>
            numSteps < 13
  {
    var requests := Requests(numSteps);
    hide Requests;
    if numSteps >= 13 {
      assert requests[13] == requests[numSteps + 1];
    }
  }

  /** A frame of another stage, step or direction ends the step with EFAULT. */
  lemma WrongCommandRefused(frame: DumpFrame, count: nat, stored: bool, rest: Events, step: nat, seqn: nat, saved: nat)
    requires frame.cmd != 0xAD00 + step
    ensures RecvFrames(Then(Arrives(frame, count, stored), rest), step, seqn, saved) == StepResult(-14, rest, [])
  {}

  /** Step 13 is requested with the word of DONE. */
  lemma ThirteenIsDone()
    ensures Requests(13)[13] == 0x9D0D == Requests(13)[14]
  {}

  /** What a step did: its return value, the events left, and the frames written to the file. */
  datatype StepResult = StepResult(ret: int, rest: Events, frames: seq<DumpFrame>)

  function Bytes(frames: seq<DumpFrame>): seq<int> {
    if frames == [] then [] else frames[0].data + Bytes(frames[1..])
  }

  /** The receive loop of std_ul_recv_data when frame seqn is expected next and `saved` bytes of the step are
      stored.  The step returns their number as an int. */
  function RecvFrames(script: Events, step: nat, seqn: nat, saved: nat): StepResult
    decreases script
  {
    if script == Silence || !script.event.Arrives? then StepResult(-EIO, script.Tail(), [])
    else
      var event, frame := script.event, script.event.frame;
      var total := saved + |frame.data|;
      if frame.cmd != Exp(step) then StepResult(-EFAULT, script.rest, [])
      else if frame.currFrame != seqn then StepResult(event.count, script.rest, [])
      else if !event.stored then StepResult(-EIO, script.rest, [])
      else if frame.currFrame < frame.numFrames then
        var more := RecvFrames(script.rest, step, seqn + 1, total);
        more.(frames := [frame] + more.frames)
      else StepResult(Signed32(total), script.rest, [frame])
  }

  function RecvStep(script: Events, step: nat): StepResult {
    if script == Silence || script.event != Taken then StepResult(-EIO, script.Tail(), [])
    else RecvFrames(script.rest, step, 1, 0)
  }

  /** All steps from `step` on; `saved` is the 32-bit total so far. */
  datatype DumpResult = DumpResult(ret: int, saved: nat, rest: Events, steps: seq<seq<DumpFrame>>)

  function RecvSteps(script: Events, step: nat, numSteps: nat, saved: nat): DumpResult
    decreases numSteps + 1 - step
  {
    if step > numSteps then DumpResult(0, saved, script, [])
    else
      var one := RecvStep(script, step);
      if one.ret < 0 then DumpResult(one.ret, saved, one.rest, [one.frames])
      else
        var more := RecvSteps(one.rest, step + 1, numSteps, (saved + one.ret) % TWO_32);
        more.(steps := [one.frames] + more.steps)
  }

  class DumpDevice {
    var script: Events
    var file: seq<int>
    /** Every word that the daemon wrote, or tried to. */
    var sent: seq<int>

    constructor (behaviour: Events)
      ensures script == behaviour && file == [] && sent == []
    {
      script, file, sent := behaviour, [], [];
    }

    /** std_ul_rx_frame */
    method RxFrame() returns (event: DumpEvent)
      modifies this`script
      ensures script == old(script).Tail()
      ensures event == if old(script).Then? && old(script).event.Arrives? then old(script).event else Failed
    {
      event := if script.Then? && script.event.Arrives? then script.event else Failed;
      script := script.Tail();
    }

    /** std_ul_recv_data */
    method UlRecvData(step: nat) returns (ret: int)
      modifies this
      ensures var result := RecvStep(old(script), step);
              ret == result.ret && script == result.rest && file == old(file) + Bytes(result.frames)
      ensures sent == old(sent) + [Req(step)]
    {
      sent := sent + [Req(step)];
      if script == Silence || script.event != Taken {
        script := script.Tail();
        return -EIO;
      }
      script := script.rest;
      ret := RecvDataFrames(step);
    }

    /** The loop of std_ul_recv_data. */
    method RecvDataFrames(step: nat) returns (ret: int)
      modifies this`script, this`file
      ensures var result := RecvFrames(old(script), step, 1, 0);
              ret == result.ret && script == result.rest && file == old(file) + Bytes(result.frames)
    {
      hide Bytes, RecvFrames, Signed32, Exp, Continued;
      ghost var all := RecvFrames(script, step, 1, 0);
      ghost var frames: seq<DumpFrame> := [];
      var seqn: nat := 1;
      var saved: nat := 0;
      NoBytes();
      ContinuedAtFirst(all);
      while true
        invariant Continued(all, frames, RecvFrames(script, step, seqn, saved))
        invariant file == old(file) + Bytes(frames)
        decreases script
      {
        FrameRefused(all, frames, script, step, seqn, saved);
        ghost var here := script;
        var event := RxFrame();
        if event == Failed { return -EIO; }
        var frame := event.frame;
        if frame.cmd != Exp(step) { return -EFAULT; }
        if frame.currFrame != seqn { return event.count; }
        seqn := seqn + 1;
        if !event.stored { return -EIO; }
        BytesAppend(frames, frame);
        FrameTaken(all, frames, here, step, seqn - 1, saved);
        file := file + frame.data;
        saved := saved + |frame.data|;
        frames := frames + [frame];
        if !(frame.currFrame < frame.numFrames) {
          return Signed32(saved);
        }
      }
    }

    /** The loop of std_dump_receive_cp_dump over the steps. */
    method RecvAllSteps(numSteps: nat) returns (ret: int, saved: nat)
      modifies this
      ensures var result := RecvSteps(old(script), 1, numSteps, 0);
              ret == result.ret && saved == result.saved && script == result.rest
              && file == old(file) + AllBytes(result.steps)
              && sent == old(sent) + StepRequests(1, |result.steps|)
    {
      hide RecvStep, AllBytes, Bytes;
      ghost var all := RecvSteps(script, 1, numSteps, 0);
      saved, ret := 0, 0;
      var step: nat := 1;
      ghost var steps: seq<seq<DumpFrame>> := [];
      NoStepBytes();
      while step <= numSteps
        invariant ret == 0
        invariant ContinuedSteps(all, steps, RecvSteps(script, step, numSteps, saved))
        invariant file == old(file) + AllBytes(steps)
        invariant sent == old(sent) + StepRequests(1, |steps|) && step == |steps| + 1
        decreases numSteps + 1 - step
      {
        ghost var one := RecvStep(script, step);
        ghost var before := steps;
        AllBytesAppend(steps, one.frames);
        assert StepRequests(1, |steps|) + [Req(step)] == StepRequests(1, |steps| + 1);
        StepTaken(all, steps, script, step, numSteps, saved);
        var r := UlRecvData(step);
        steps := steps + [one.frames];
        if r < 0 { return r, saved; }
        saved := (saved + r) % TWO_32;
        step := step + 1;
      }
      assert steps + [] == steps;
    }

    method ReqResp(req: nat, exp: nat) returns (ret: int)
      modifies this
      ensures file == old(file) && sent == old(sent) + [req]
      ensures ret == 0 <==> old(script).Grants(exp)
      ensures ret == 0 ==> script == old(script).rest.rest
      ensures ret <= 0
    {
      sent := sent + [req];
      if script == Silence || script.event != Taken { return -EIO; }
      script := script.rest;
      if script == Silence || !script.event.Answer? { return -EIO; }
      var word := script.event.word;
      script := script.rest;
      return if word == exp then 0 else -EFAULT;
    }

    /** std_ul_recv_info */
    method RecvInfo() returns (ret: int, info: DumpEvent)
      modifies this`script
      ensures ret <= 0
      ensures ret == 0 <==> old(script).Informs()
      ensures ret == 0 ==> info == old(script).event && script == old(script).rest.rest
    {
      info := Failed;
      if script == Silence || !script.event.Info? { return -EIO, info; }
      info := script.event;
      script := script.rest;
      if script == Silence || !script.event.Reason? || !script.event.stored { return -EIO, info; }
      script := script.rest;
      ret := 0;
    }

    /** std_dump_receive_cp_dump */
    method ReceiveCpDump() returns (ret: int)
      modifies this
      ensures ret <= 0
      ensures ret == 0 <==> Succeeds(old(script))
      ensures ret == 0 ==> file == old(file) + AllBytes(Outcome(old(script)).steps)
      ensures ret == 0 ==>
                sent == old(sent) + Requests(Announced(old(script)).numSteps)
    {
      ret := ReqResp(Req(0), Exp(0));
      if ret < 0 { return; }
      var info;
      ret, info := RecvInfo();
      if ret < 0 { return; }
      var saved;
      ret, saved := RecvAllSteps(info.numSteps);
      if ret < 0 { return; }
      NoErrorIsZero(Start(old(script)), 1, info.numSteps, 0);
      if saved != info.dumpSize { return -EFAULT; }
      ret := ReqResp(Req(0xD), Exp(0xD));
      assert sent == old(sent) + Requests(info.numSteps);
    }
  }

  // ----- The whole reception as a function of the events

  predicate Begins(script: Events) {
    script.Grants(Exp(0)) && script.rest.rest.Informs()
  }

  /** The announced size and number of steps, and the events after the announcement. */
  function Announced(script: Events): DumpEvent
    requires Begins(script)
  {
    script.rest.rest.event
  }

  function Start(script: Events): Events
    requires Begins(script)
  {
    script.rest.rest.rest.rest
  }

  function Outcome(script: Events): DumpResult
    requires Begins(script)
  {
    RecvSteps(Start(script), 1, Announced(script).numSteps, 0)
  }

  predicate Succeeds(script: Events) {
    && Begins(script)
    && Outcome(script).ret == 0
    && Outcome(script).saved == Announced(script).dumpSize
    && Outcome(script).rest.Grants(Exp(0xD))
  }

  function AllBytes(steps: seq<seq<DumpFrame>>): seq<int> {
    if steps == [] then [] else Bytes(steps[0]) + AllBytes(steps[1..])
  }

  /** `all` is what was received so far followed by `more`. */
  ghost predicate Continued(all: StepResult, frames: seq<DumpFrame>, more: StepResult) {
    all == more.(frames := frames + more.frames)
  }

  ghost predicate ContinuedSteps(all: DumpResult, steps: seq<seq<DumpFrame>>, more: DumpResult) {
    all == more.(steps := steps + more.steps)
  }

  /** What the step amounts to when the next frame is not taken. */
  lemma FrameRefused(all: StepResult, frames: seq<DumpFrame>, script: Events, step: nat, seqn: nat, saved: nat)
    requires Continued(all, frames, RecvFrames(script, step, seqn, saved))
    ensures script == Silence || !script.event.Arrives? ==> all == StepResult(-EIO, script.Tail(), frames)
    ensures script.Then? && script.event.Arrives? ==>
              var event, frame := script.event, script.event.frame;
              if frame.cmd != Exp(step) then all == StepResult(-EFAULT, script.rest, frames)
              else if frame.currFrame != seqn then all == StepResult(event.count, script.rest, frames)
              else !event.stored ==> all == StepResult(-EIO, script.rest, frames)
  {
    assert frames + [] == frames;
  }

  lemma ContinuedAtFirst(all: StepResult)
    ensures Continued(all, [], all)
  {
    assert [] + all.frames == all.frames;
  }

  lemma FrameTaken(all: StepResult, frames: seq<DumpFrame>, script: Events, step: nat, seqn: nat, saved: nat)
    requires Continued(all, frames, RecvFrames(script, step, seqn, saved))
    requires script.Then? && script.event.Arrives? && script.event.stored
    requires script.event.frame.cmd == Exp(step) && script.event.frame.currFrame == seqn
    ensures var frame := script.event.frame;
            var total := saved + |frame.data|;
            if frame.currFrame < frame.numFrames
            then Continued(all, frames + [frame], RecvFrames(script.rest, step, seqn + 1, total))
            else all == StepResult(Signed32(total), script.rest, frames + [frame])
  {
    var frame := script.event.frame;
    var more := RecvFrames(script.rest, step, seqn + 1, saved + |frame.data|);
    assert frames + ([frame] + more.frames) == (frames + [frame]) + more.frames;
  }

  lemma StepTaken(all: DumpResult, steps: seq<seq<DumpFrame>>, script: Events, step: nat, numSteps: nat, saved: nat)
    requires step <= numSteps && ContinuedSteps(all, steps, RecvSteps(script, step, numSteps, saved))
    ensures var one := RecvStep(script, step);
            if one.ret < 0 then all == DumpResult(one.ret, saved, one.rest, steps + [one.frames])
            else ContinuedSteps(all, steps + [one.frames],
                                RecvSteps(one.rest, step + 1, numSteps, (saved + one.ret) % TWO_32))
  {
    hide RecvStep;
    var one := RecvStep(script, step);
    if one.ret >= 0 {
      var more := RecvSteps(one.rest, step + 1, numSteps, (saved + one.ret) % TWO_32);
      assert steps + ([one.frames] + more.steps) == (steps + [one.frames]) + more.steps;
    }
  }

  lemma NoBytes()
    ensures Bytes([]) == []
  {}

  lemma NoStepBytes()
    ensures AllBytes([]) == []
  {}

  lemma {:induction false} BytesAppend(frames: seq<DumpFrame>, frame: DumpFrame)
    ensures Bytes(frames + [frame]) == Bytes(frames) + frame.data
  {
    if frames == [] {
      assert [frame][1..] == [] && frames + [frame] == [frame];
    } else {
      assert (frames + [frame])[1..] == frames[1..] + [frame];
      BytesAppend(frames[1..], frame);
    }
  }

  lemma {:induction false} AllBytesAppend(steps: seq<seq<DumpFrame>>, frames: seq<DumpFrame>)
    ensures AllBytes(steps + [frames]) == AllBytes(steps) + Bytes(frames)
  {
    if steps == [] {
      assert [frames][1..] == [] && steps + [frames] == [frames];
    } else {
      assert (steps + [frames])[1..] == steps[1..] + [frames];
      AllBytesAppend(steps[1..], frames);
    }
  }

  /** No step is left out unless one fails. */
  lemma {:induction false} NoErrorIsZero(script: Events, step: nat, numSteps: nat, saved: nat)
    ensures RecvSteps(script, step, numSteps, saved).ret <= 0
    ensures RecvSteps(script, step, numSteps, saved).ret == 0 ==>
              |RecvSteps(script, step, numSteps, saved).steps| == if step <= numSteps then numSteps + 1 - step else 0
    decreases numSteps + 1 - step
  {
    hide RecvStep;
    if step <= numSteps {
      var one := RecvStep(script, step);
      NoErrorIsZero(one.rest, step + 1, numSteps, if one.ret < 0 then 0 else (saved + one.ret) % TWO_32);
    }
  }

  // ----- What success is worth

  /** The frames carry the command of the step and the numbers seqn, seqn + 1, ..., and only the last one
      has reached its announced count. */
  predicate CompleteFrom(frames: seq<DumpFrame>, step: nat, seqn: nat) {
    && frames != [] && frames[0].cmd == Exp(step) && frames[0].currFrame == seqn
    && if |frames| == 1 then seqn >= frames[0].numFrames
       else seqn < frames[0].numFrames && CompleteFrom(frames[1..], step, seqn + 1)
  }

  /** One complete list of frames for each of the steps first .. numSteps. */
  predicate CompleteDump(steps: seq<seq<DumpFrame>>, first: nat, numSteps: nat) {
    if first > numSteps then steps == []
    else steps != [] && CompleteFrom(steps[0], first, 1) && CompleteDump(steps[1..], first + 1, numSteps)
  }

  /** The frames of every step arrive numbered seqn, seqn + 1, ...; a write that is taken begins the next step,
      from 1, and anything but these two ends the transfer. */
  predicate Numbered(script: Events, seqn: nat) {
    if script == Silence then true
    else
      match script.event
      case Taken => Numbered(script.rest, 1)
      case Arrives(frame, _, _) => frame.currFrame == seqn && Numbered(script.rest, seqn + 1)
      case _ => true
  }

  /** A step without an error is complete, and leaves numbered frames to come, exactly if all of them are
      numbered now. */
  lemma {:induction false} StepComplete(script: Events, step: nat, seqn: nat, saved: nat)
    requires RecvFrames(script, step, seqn, saved).ret >= 0
    ensures var result := RecvFrames(script, step, seqn, saved);
            && (Numbered(script, seqn) <==>
                CompleteFrom(result.frames, step, seqn) && Numbered(result.rest, seqn + |result.frames|))
            && (CompleteFrom(result.frames, step, seqn) ==> result.ret == Signed32(saved + |Bytes(result.frames)|))
    decreases script
  {
    hide Signed32;
    var frame := script.event.frame;
    if frame.cmd == Exp(step) && frame.currFrame == seqn && script.event.stored {
      hide Bytes;
      if frame.currFrame < frame.numFrames {
        StepComplete(script.rest, step, seqn + 1, saved + |frame.data|);
        Prepend(frame, RecvFrames(script.rest, step, seqn + 1, saved + |frame.data|).frames, step, seqn);
      } else {
        OneFrame(frame);
      }
    }
  }

  lemma OneFrame(frame: DumpFrame)
    ensures Bytes([frame]) == frame.data
  {
    assert [frame][1..] == [];
  }

  lemma Prepend(frame: DumpFrame, more: seq<DumpFrame>, step: nat, seqn: nat)
    requires frame.cmd == Exp(step) && frame.currFrame == seqn < frame.numFrames
    ensures CompleteFrom([frame] + more, step, seqn) <==> CompleteFrom(more, step, seqn + 1)
    ensures Bytes([frame] + more) == frame.data + Bytes(more)
  {
    assert ([frame] + more)[1..] == more;
  }

  lemma RecvStepComplete(script: Events, step: nat)
    requires RecvStep(script, step).ret >= 0
    ensures var result := RecvStep(script, step);
            && script.Then? && script.event == Taken
            && (Numbered(script.rest, 1) <==>
                CompleteFrom(result.frames, step, 1) && Numbered(result.rest, 1 + |result.frames|))
            && (CompleteFrom(result.frames, step, 1) ==> result.ret == Signed32(|Bytes(result.frames)|))
  {
    hide RecvFrames, CompleteFrom, Bytes, Numbered, Signed32;
    StepComplete(script.rest, step, 1, 0);
  }

  lemma {:induction false} StepsComplete(script: Events, step: nat, numSteps: nat, saved: nat, k: nat, reply: nat)
    requires RecvSteps(script, step, numSteps, saved).ret == 0 && saved < TWO_32
    requires RecvSteps(script, step, numSteps, saved).rest.Grants(reply)
    ensures var result := RecvSteps(script, step, numSteps, saved);
            && (CompleteDump(result.steps, step, numSteps) <==> Numbered(script, k))
            && (Numbered(script, k) ==> (saved + |AllBytes(result.steps)|) % TWO_32 == result.saved)
    decreases numSteps + 1 - step
  {
    if step > numSteps {
      NoStepBytes();
    } else {
      var one := RecvStep(script, step);
      hide RecvStep, CompleteFrom, Bytes, CompleteDump, AllBytes, Signed32;
      RecvStepComplete(script, step);
      var next := (saved + one.ret) % TWO_32;
      var more := RecvSteps(one.rest, step + 1, numSteps, next);
      StepsComplete(one.rest, step + 1, numSteps, next, 1 + |one.frames|, reply);
      PrependStep(one.frames, more.steps, step, numSteps);
      if Numbered(script, k) {
        NextTotal(saved, |Bytes(one.frames)|, |AllBytes(more.steps)|);
      }
    }
  }

  lemma PrependStep(frames: seq<DumpFrame>, more: seq<seq<DumpFrame>>, step: nat, numSteps: nat)
    requires step <= numSteps
    ensures CompleteDump([frames] + more, step, numSteps) <==>
            CompleteFrom(frames, step, 1) && CompleteDump(more, step + 1, numSteps)
    ensures AllBytes([frames] + more) == Bytes(frames) + AllBytes(more)
  {
    hide CompleteFrom, Bytes;
    assert ([frames] + more)[1..] == more;
  }

  /** The total after a step that returned its size, and further ones. */
  lemma NextTotal(saved: nat, size: nat, more: nat)
    ensures Signed32(size) >= 0 <==> size % TWO_32 < TWO_31
    ensures Signed32(size) >= 0 ==>
              ((saved + Signed32(size)) % TWO_32 + more) % TWO_32 == (saved + size + more) % TWO_32
  {
    ModuloSum(saved, size, more);
  }

  lemma ModuloSum(a: nat, b: nat, c: nat)
    ensures ((a + b % TWO_32) % TWO_32 + c) % TWO_32 == (a + b + c) % TWO_32
  {}

  lemma {:induction false} SavedIsWord(script: Events, step: nat, numSteps: nat, saved: nat)
    requires saved < TWO_32
    ensures RecvSteps(script, step, numSteps, saved).saved < TWO_32
    decreases numSteps + 1 - step
  {
    hide RecvStep;
    if step <= numSteps {
      var one := RecvStep(script, step);
      if one.ret >= 0 {
        SavedIsWord(one.rest, step + 1, numSteps, (saved + one.ret) % TWO_32);
      }
    }
  }

  lemma SameWord(n: nat, word: nat)
    requires word < TWO_32 && n % TWO_32 == word
    ensures n == word <==> n < TWO_32
  {}

  /** When the function reports success, the file holds a complete dump exactly if all frames were numbered
      right: the branch for a wrong number ends the step without an error. Its length is then the announced one
      modulo 2^32, and the announced one exactly if it is below 2^32. */
  lemma SuccessIsCompleteIfNumbered(script: Events)
    requires Succeeds(script)
    ensures var steps, announced := Outcome(script).steps, Announced(script);
            && (CompleteDump(steps, 1, announced.numSteps) <==> Numbered(Start(script), 1))
            && (Numbered(Start(script), 1) ==>
                  && |AllBytes(steps)| % TWO_32 == announced.dumpSize
                  && (|AllBytes(steps)| == announced.dumpSize <==> |AllBytes(steps)| < TWO_32))
  {
    StepsComplete(Start(script), 1, Announced(script).numSteps, 0, 1, Exp(0xD));
    SavedIsWord(Start(script), 1, Announced(script).numSteps, 0);
    if Numbered(Start(script), 1) {
      SameWord(|AllBytes(Outcome(script).steps)|, Announced(script).dumpSize);
    }
    hide RecvSteps, Numbered, CompleteDump, AllBytes;
  }

  /** Every frame until the end of the transfer could be written to the dump file. */
  predicate AllStored(script: Events) {
    if script == Silence then true
    else
      match script.event
      case Taken => AllStored(script.rest)
      case Arrives(_, _, stored) => stored && AllStored(script.rest)
      case _ => true
  }

  lemma {:induction false} StepStored(script: Events, step: nat, seqn: nat, saved: nat)
    requires RecvFrames(script, step, seqn, saved).ret >= 0 && Numbered(script, seqn)
    ensures AllStored(script) <==> AllStored(RecvFrames(script, step, seqn, saved).rest)
    decreases script
  {
    hide Signed32;
    var frame := script.event.frame;
    if frame.currFrame < frame.numFrames {
      StepStored(script.rest, step, seqn + 1, saved + |frame.data|);
    }
  }

  lemma {:induction false} StepsStored(script: Events, step: nat, numSteps: nat, saved: nat, k: nat, reply: nat)
    requires RecvSteps(script, step, numSteps, saved).ret == 0 && Numbered(script, k)
    requires RecvSteps(script, step, numSteps, saved).rest.Grants(reply)
    ensures AllStored(script)
    decreases numSteps + 1 - step
  {
    if step <= numSteps {
      var one := RecvStep(script, step);
      hide RecvFrames, CompleteFrom, Bytes, Signed32;
      RecvStepComplete(script, step);
      StepStored(script.rest, step, 1, 0);
      StepsStored(one.rest, step + 1, numSteps, (saved + one.ret) % TWO_32, 1 + |one.frames|, reply);
    }
  }

  /** A dump with a frame that could not be written does not succeed. */
  lemma SuccessIsStored(script: Events)
    requires Succeeds(script) && Numbered(Start(script), 1)
    ensures AllStored(Start(script))
  {
    StepsStored(Start(script), 1, Announced(script).numSteps, 0, 1, Exp(0xD));
  }

  function Granted(reply: nat, rest: Events): Events { Then(Taken, Then(Answer(reply), rest)) }

  function Upload(dumpSize: nat, numSteps: nat, data: Events): Events {
    Granted(Exp(0), Then(Info(dumpSize, numSteps), Then(Reason(true), data)))
  }

  /** A single frame with the wrong number, as long as the announced dump, is taken for all of it. */
  lemma WrongNumberAccepted()
    ensures exists script: Events ::
              Succeeds(script) && AllBytes(Outcome(script).steps) == [] && Announced(script).dumpSize == 2064
  {
    var end := Granted(Exp(0xD), Silence);
    var stray := Then(Taken, Then(Arrives(DumpFrame(Exp(1), 1, 7, []), 2064, true), end));
    var script := Upload(2064, 1, stray);
    assert RecvStep(stray, 1) == StepResult(2064, end, []);
    assert RecvSteps(end, 2, 1, 2064) == DumpResult(0, 2064, end, []);
    var nothing: seq<seq<DumpFrame>> := [[]];
    assert nothing + [] == nothing && nothing[1..] == [] && Bytes([]) == [];
    assert Outcome(script).steps == nothing;
    assert AllBytes(Outcome(script).steps) == [];
  }

  // ----- An honest modem is understood

  const STD_HDR_LEN: nat := 16

  /** What a modem sends for a step, and for all steps, before `rest`. */
  function Send(frames: seq<DumpFrame>, rest: Events): Events {
    if frames == [] then rest
    else Then(Arrives(frames[0], STD_HDR_LEN + |frames[0].data|, true), Send(frames[1..], rest))
  }

  function SendSteps(steps: seq<seq<DumpFrame>>, rest: Events): Events {
    if steps == [] then rest else Then(Taken, Send(steps[0], SendSteps(steps[1..], rest)))
  }

  lemma {:induction false} FramesUnderstood(frames: seq<DumpFrame>, rest: Events, step: nat, seqn: nat, saved: nat)
    requires CompleteFrom(frames, step, seqn)
    ensures RecvFrames(Send(frames, rest), step, seqn, saved)
            == StepResult(Signed32(saved + |Bytes(frames)|), rest, frames)
    decreases |frames|
  {
    hide Bytes, Signed32;
    assert frames == [frames[0]] + frames[1..];
    if |frames| > 1 {
      Prepend(frames[0], frames[1..], step, seqn);
      FramesUnderstood(frames[1..], rest, step, seqn + 1, saved + |frames[0].data|);
    } else {
      OneFrame(frames[0]);
      assert frames == [frames[0]] && frames[1..] == [];
    }
  }

  lemma StepUnderstood(frames: seq<DumpFrame>, rest: Events, step: nat)
    requires CompleteFrom(frames, step, 1)
    ensures RecvStep(Then(Taken, Send(frames, rest)), step) == StepResult(Signed32(|Bytes(frames)|), rest, frames)
  {
    hide CompleteFrom, RecvFrames, Send, Bytes, Signed32;
    FramesUnderstood(frames, rest, step, 1, 0);
  }

  lemma FirstStepBytes(steps: seq<seq<DumpFrame>>)
    requires steps != []
    ensures |AllBytes(steps)| == |Bytes(steps[0])| + |AllBytes(steps[1..])|
    ensures steps == [steps[0]] + steps[1..]
  {}

  /** The size of a step, as 32 bits, is no negative int. */
  predicate StepFits(frames: seq<DumpFrame>) { |Bytes(frames)| % TWO_32 < TWO_31 }

  predicate StepsFit(steps: seq<seq<DumpFrame>>) { forall i :: 0 <= i < |steps| ==> StepFits(steps[i]) }

  lemma FirstFits(steps: seq<seq<DumpFrame>>)
    requires steps != []
    ensures StepsFit(steps) <==> StepFits(steps[0]) && StepsFit(steps[1..])
  {
    hide StepFits;
    assert forall i :: 1 <= i < |steps| ==> steps[i] == steps[1..][i - 1];
  }

  lemma {:induction false} StepsUnderstood(steps: seq<seq<DumpFrame>>, rest: Events, step: nat, numSteps: nat,
                                           saved: nat)
    requires CompleteDump(steps, step, numSteps) && saved < TWO_32
    ensures var result := RecvSteps(SendSteps(steps, rest), step, numSteps, saved);
            if StepsFit(steps) then result == DumpResult(0, (saved + |AllBytes(steps)|) % TWO_32, rest, steps)
            else result.ret < 0
    decreases |steps|
  {
    hide CompleteFrom, Bytes, AllBytes, RecvFrames, RecvStep, Send, StepsFit, Signed32;
    if steps == [] {
      NoStepBytes();
      NoSteps();
    } else {
      var size := |Bytes(steps[0])|;
      FirstStepBytes(steps);
      FirstFits(steps);
      StepUnderstood(steps[0], SendSteps(steps[1..], rest), step);
      NextTotal(saved, size, |AllBytes(steps[1..])|);
      if StepFits(steps[0]) {
        StepsUnderstood(steps[1..], rest, step + 1, numSteps, (saved + Signed32(size)) % TWO_32);
      }
    }
  }

  lemma NoSteps()
    ensures StepsFit([])
  {}

  /** What a modem sends to upload a whole dump. */
  function HonestUpload(steps: seq<seq<DumpFrame>>): Events {
    Upload(|AllBytes(steps)| % TWO_32, |steps|, SendSteps(steps, Granted(Exp(0xD), Silence)))
  }

  /** A complete dump that is sent in order is received with success, and stored, exactly if the size of every
      step fits an int.  Below 4 GiB that is: exactly if every step is shorter than 2 GiB. */
  lemma HonestDumpReceived(steps: seq<seq<DumpFrame>>)
    requires CompleteDump(steps, 1, |steps|)
    ensures Succeeds(HonestUpload(steps)) <==> StepsFit(steps)
    ensures StepsFit(steps) ==> Outcome(HonestUpload(steps)).steps == steps
  {
    hide RecvSteps, SendSteps, AllBytes, StepsFit, CompleteDump;
    StepsUnderstood(steps, Granted(Exp(0xD), Silence), 1, |steps|, 0);
  }

  /** Only these two replies, to START and to DONE, and a crash reason that is stored let a dump succeed. */
  lemma SuccessNeedsReplies(script: Events)
    requires Succeeds(script)
    ensures script.rest.event == Answer(0xAD00) && script.rest.rest.rest.event == Reason(true)
    ensures Outcome(script).rest.rest.event == Answer(0xAD0D)
  {
    hide RecvSteps;
  }

  // ----- Large dumps

  /** Frames seqn to numFrames of a step, each of the full size but the last. */
  function DataFrames(step: nat, seqn: nat, numFrames: nat, last: nat): seq<DumpFrame>
    decreases numFrames - seqn
  {
    if seqn < numFrames then
      [DumpFrame(Exp(step), numFrames, seqn, seq(MSS, _ => 0))] + DataFrames(step, seqn + 1, numFrames, last)
    else [DumpFrame(Exp(step), numFrames, seqn, seq(last, _ => 0))]
  }

  lemma {:induction false} DataFramesComplete(step: nat, seqn: nat, numFrames: nat, last: nat)
    requires seqn <= numFrames
    ensures CompleteFrom(DataFrames(step, seqn, numFrames, last), step, seqn)
    ensures |Bytes(DataFrames(step, seqn, numFrames, last))| == (numFrames - seqn) * MSS + last
    decreases numFrames - seqn
  {
    hide Bytes;
    if seqn < numFrames {
      DataFramesComplete(step, seqn + 1, numFrames, last);
      Prepend(DumpFrame(Exp(step), numFrames, seqn, seq(MSS, _ => 0)), DataFrames(step, seqn + 1, numFrames, last),
              step, seqn);
    } else {
      OneFrame(DumpFrame(Exp(step), numFrames, seqn, seq(last, _ => 0)));
    }
  }

  lemma OneStep(frames: seq<DumpFrame>)
    requires CompleteFrom(frames, 1, 1)
    ensures CompleteDump([frames], 1, 1)
    ensures AllBytes([frames]) == Bytes(frames)
    ensures StepsFit([frames]) <==> StepFits(frames)
  {
    hide CompleteFrom, Bytes, StepFits;
    assert [frames][1..] == [];
    NoStepBytes();
    assert Bytes(frames) + [] == Bytes(frames);
  }

  /** A single step of 2^20 full frames, exactly 2 GiB, is refused however well it arrives. */
  lemma TwoGigabytesRefused()
    ensures var steps := [DataFrames(1, 1, 0x10_0000, MSS)];
            && CompleteDump(steps, 1, 1) && |Bytes(steps[0])| == TWO_31
            && !Succeeds(HonestUpload(steps))
  {
    hide DataFrames, CompleteFrom, CompleteDump, StepsFit, Bytes, Succeeds, HonestUpload;
    var frames := DataFrames(1, 1, 0x10_0000, MSS);
    DataFramesComplete(1, 1, 0x10_0000, MSS);
    OneStep(frames);
    HonestDumpReceived([frames]);
    assert !StepFits(frames);
  }

  /** A single step of 2^21 full frames, exactly 4 GiB, passes for the empty dump. */
  lemma FourGigabytesPass()
    ensures var steps := [DataFrames(1, 1, 0x20_0000, MSS)];
            && CompleteDump(steps, 1, 1) && |AllBytes(steps)| == TWO_32
            && Succeeds(HonestUpload(steps)) && Announced(HonestUpload(steps)).dumpSize == 0
            && Outcome(HonestUpload(steps)).steps == steps
  {
    hide DataFrames, CompleteFrom, CompleteDump, StepsFit, Bytes, AllBytes, Succeeds;
    var frames := DataFrames(1, 1, 0x20_0000, MSS);
    DataFramesComplete(1, 1, 0x20_0000, MSS);
    OneStep(frames);
    HonestDumpReceived([frames]);
    assert StepFits(frames);
  }

  // ----- When success means exactly the announced length

  /** The largest size that a step can report. */
  const MAX_STEP: nat := TWO_31 - 1

  function StepsLeft(step: nat, numSteps: nat): nat { if step > numSteps then 0 else numSteps + 1 - step }

  lemma StepAdds(saved: nat, size: nat)
    ensures Signed32(size) >= 0 ==> (saved + Signed32(size)) % TWO_32 <= saved + MAX_STEP
  {}

  /** So many steps cannot report more than their number times the largest size. */
  lemma {:induction false} SavedBounded(script: Events, step: nat, numSteps: nat, saved: nat, k: nat, reply: nat)
    requires RecvSteps(script, step, numSteps, saved).ret == 0 && saved < TWO_32
    requires RecvSteps(script, step, numSteps, saved).rest.Grants(reply) && Numbered(script, k)
    ensures RecvSteps(script, step, numSteps, saved).saved <= saved + StepsLeft(step, numSteps) * MAX_STEP
    decreases numSteps + 1 - step
  {
    if step <= numSteps {
      var one := RecvStep(script, step);
      hide RecvStep, CompleteFrom, Bytes, Signed32;
      RecvStepComplete(script, step);
      StepAdds(saved, |Bytes(one.frames)|);
      SavedBounded(one.rest, step + 1, numSteps, (saved + one.ret) % TWO_32, 1 + |one.frames|, reply);
    }
  }

  /** Frames of one step for this many bytes. */
  function StepOf(step: nat, size: nat): seq<DumpFrame> { DataFrames(step, 1, size / MSS + 1, size % MSS) }

  lemma StepOfComplete(step: nat, size: nat)
    ensures CompleteFrom(StepOf(step, size), step, 1) && |Bytes(StepOf(step, size))| == size
  {
    hide DataFrames, CompleteFrom, Bytes;
    DataFramesComplete(step, 1, size / MSS + 1, size % MSS);
  }

  /** A dump of `total` bytes in the steps from `step` on, and of `extra` more in the first of them. */
  function Spread(step: nat, numSteps: nat, total: nat, extra: nat): seq<seq<DumpFrame>>
    decreases numSteps + 1 - step
  {
    if step > numSteps then []
    else
      var part := if total <= MAX_STEP then total else MAX_STEP;
      [StepOf(step, part + extra)] + Spread(step + 1, numSteps, total - part, 0)
  }

  lemma FitsWithExtra(part: nat, extra: nat)
    requires part <= MAX_STEP && (extra == 0 || extra == TWO_32)
    ensures (part + extra) % TWO_32 < TWO_31
  {}

  lemma {:induction false} SpreadComplete(step: nat, numSteps: nat, total: nat, extra: nat)
    requires total <= StepsLeft(step, numSteps) * MAX_STEP && (extra == 0 || extra == TWO_32)
    ensures var steps := Spread(step, numSteps, total, extra);
            && CompleteDump(steps, step, numSteps) && StepsFit(steps)
            && |steps| == StepsLeft(step, numSteps)
            && |AllBytes(steps)| == total + if step <= numSteps then extra else 0
    decreases numSteps + 1 - step
  {
    hide StepOf, CompleteFrom, CompleteDump, Bytes, AllBytes, StepsFit;
    if step > numSteps {
      NoStepBytes();
      NoSteps();
      NoDump(step, numSteps);
    } else {
      var part := if total <= MAX_STEP then total else MAX_STEP;
      var first, others := StepOf(step, part + extra), Spread(step + 1, numSteps, total - part, 0);
      StepOfComplete(step, part + extra);
      SpreadComplete(step + 1, numSteps, total - part, 0);
      PrependStep(first, others, step, numSteps);
      FitsWithExtra(part, extra);
      assert ([first] + others)[1..] == others;
      FirstFits([first] + others);
    }
  }

  lemma NoDump(step: nat, numSteps: nat)
    requires step > numSteps
    ensures CompleteDump([], step, numSteps)
  {}

  /** Whatever the modem sends for this announcement, numbered right: success means a dump of this very size. */
  ghost predicate SuccessIsExact(numSteps: nat, dumpSize: nat) {
    forall script: Events ::
      Succeeds(script) && Announced(script) == Info(dumpSize, numSteps) && Numbered(Start(script), 1) ==>
        |AllBytes(Outcome(script).steps)| == dumpSize
  }

  /** It does only without steps or where no success is possible, because the steps cannot report so much.  All
      other announcements are also met by a dump with 2^32 bytes too many. */
  lemma SuccessIsExactIff(numSteps: nat, dumpSize: nat)
    requires dumpSize < TWO_32
    ensures SuccessIsExact(numSteps, dumpSize) <==> numSteps == 0 || numSteps * MAX_STEP < dumpSize
  {
    hide RecvSteps, SendSteps, Numbered, AllBytes, CompleteDump, StepsFit, Spread;
    if numSteps == 0 || numSteps * MAX_STEP < dumpSize {
      forall script: Events |
          Succeeds(script) && Announced(script) == Info(dumpSize, numSteps) && Numbered(Start(script), 1)
        ensures |AllBytes(Outcome(script).steps)| == dumpSize
      {
        ExactOrImpossible(script);
      }
    } else {
      var steps := Spread(1, numSteps, dumpSize, TWO_32);
      SpreadComplete(1, numSteps, dumpSize, TWO_32);
      HonestDumpReceived(steps);
      var script := HonestUpload(steps);
      SuccessIsCompleteIfNumbered(script);
      SameWord(dumpSize, dumpSize);
      assert Announced(script) == Info(dumpSize, numSteps);
    }
  }

  lemma ExactOrImpossible(script: Events)
    requires Succeeds(script) && Numbered(Start(script), 1)
    requires var announced := Announced(script);
             announced.numSteps == 0 || announced.numSteps * MAX_STEP < announced.dumpSize
    ensures |AllBytes(Outcome(script).steps)| == Announced(script).dumpSize
  {
    if Announced(script).numSteps == 0 {
      NoStepBytes();
    } else {
      hide RecvSteps, Numbered, AllBytes;
      SavedBounded(Start(script), 1, Announced(script).numSteps, 0, 1, Exp(0xD));
    }
  }
}
