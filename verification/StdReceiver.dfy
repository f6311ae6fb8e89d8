/** What an honest modem makes of the frames of std_boot.c: it gets back the binary, byte for byte. */
module StdReceiver {
  import opened Common
  import opened StdProtocol

  /** Accepts frames first, first + 1, ... up to numFrames and concatenates their data. */
  function Reassemble(entries: seq<Entry>, cmd: nat, numFrames: nat, first: nat): Option<seq<int>>
    decreases |entries|
  {
    if entries == [] then (if first == numFrames + 1 then Some([]) else None)
    else
      match entries[0]
      case Sent(Frame(c, n, k, len, data)) =>
        if c == cmd && n == numFrames && k == first && len == |data| && 1 <= len <= MSS then
          match Reassemble(entries[1..], cmd, numFrames, first + 1)
          case Some(more) => Some(data + more)
          case None => None
        else None
      case _ => None
  }

  lemma OneFrameLess(n: nat)
    requires n > 0
    ensures n < MSS ==> FrameCount(n) == 1
    ensures n >= MSS ==> FrameCount(n) == FrameCount(n - MSS) + 1
  {}

  /** For every size there are exactly ceil(size / 2048) frames, numbered without a gap, of 1 to 2048
      bytes each, and they reassemble to the binary. */
  lemma {:induction false} FramesReassemble(cmd: nat, numFrames: nat, k: nat, rest: seq<int>)
    requires k + FrameCount(|rest|) == numFrames
    ensures |Frames(cmd, numFrames, k, rest)| == FrameCount(|rest|) == (|rest| + 2047) / 2048
    ensures Reassemble(Frames(cmd, numFrames, k, rest), cmd, numFrames, k + 1) == Some(rest)
    decreases |rest|
  {
    if rest != [] {
      OneFrameLess(|rest|);
      var len := if |rest| < MSS then |rest| else MSS;
      FramesReassemble(cmd, numFrames, k + 1, rest[len..]);
      assert rest[..len] + rest[len..] == rest;
    }
  }

  lemma ReadFirst(rest: seq<int>)
    ensures ReadFile(rest, 0, MSS) == rest[..if |rest| < MSS then |rest| else MSS]
  {}

  lemma ReadShifted(rest: seq<int>, i: nat)
    requires i > 0 && (i - 1) * MSS < |rest| - MSS
    ensures ReadFile(rest[MSS..], (i - 1) * MSS, MSS) == ReadFile(rest, i * MSS, MSS)
  {}

  /** Frame i carries the i-th 2048 bytes. */
  lemma {:induction false} FrameCarries(cmd: nat, numFrames: nat, k: nat, rest: seq<int>, i: nat)
    requires i < |Frames(cmd, numFrames, k, rest)|
    ensures i * 2048 < |rest|
    ensures var data := ReadFile(rest, i * 2048, 2048);
            Frames(cmd, numFrames, k, rest)[i] == Sent(Frame(cmd, numFrames, k + i + 1, |data|, data))
    decreases i
  {
    hide ReadFile;
    if i == 0 {
      ReadFirst(rest);
    } else {
      var len := if |rest| < MSS then |rest| else MSS;
      FrameCarries(cmd, numFrames, k + 1, rest[len..], i - 1);
      ReadShifted(rest, i);
    }
  }

  /** A run of the plain download that reports success has delivered the file region. */
  lemma PlainDownloadDelivers(stage: Nibble, file: seq<int>, offset: nat, size: nat)
    requires offset + size <= |file|
    ensures var entries := PlainDownload(stage, Region(file, offset, size));
            && entries[|entries| - 1] == Received(Plain(PLAIN_CP2AP, stage, PLAIN_SEND))
            && |entries| == FrameCount(size) + 1
            && Reassemble(entries[..|entries| - 1], Plain(PLAIN_AP2CP, stage, PLAIN_SEND), FrameCount(size), 1)
               == Some(file[offset..offset + size])
  {
    var cmd := Plain(PLAIN_AP2CP, stage, PLAIN_SEND);
    var region := Region(file, offset, size);
    RegionIsSlice(file, offset, size);
    FramesReassemble(cmd, FrameCount(size), 0, region);
    var frames := Frames(cmd, FrameCount(size), 0, region);
    assert PlainDownload(stage, region)[..|frames|] == frames;
  }

  /** The SIT receiver appends a segment only where its offset says, after acknowledging it. */
  function ReassembleSit(entries: seq<Entry>, stage: Nibble, total: nat, have: seq<int>): Option<seq<int>>
    decreases |entries|
  {
    if entries == [] then (if |have| == total then Some(have) else None)
    else if |entries| == 1 then None
    else
      match entries[0]
      case Sent(Payload(cmd, length, totalSize, dataOffset, data)) =>
        if && cmd == Msg(AP2CP, DOWNLOAD, stage, DATA) && totalSize == total && dataOffset == |have|
           && length == |data| + 8 && 1 <= |data| <= MSS && entries[1] == Received(Msg(CP2AP, DOWNLOAD, stage, DATA))
        then ReassembleSit(entries[2..], stage, total, have + data)
        else None
      case _ => None
  }

  lemma FirstSegment(stage: Nibble, total: nat, rest: seq<int>)
    requires 0 < |rest| <= total
    ensures var len := if |rest| < MSS then |rest| else MSS;
            var entries := SitDownload(stage, total, rest);
            && |entries| >= 2
            && entries[0]
               == Sent(Payload(Msg(AP2CP, DOWNLOAD, stage, DATA), len + 8, total, total - |rest|, rest[..len]))
            && entries[1] == Received(Msg(CP2AP, DOWNLOAD, stage, DATA))
            && entries[2..] == SitDownload(stage, total, rest[len..])
  {
    hide Msg;
  }

  lemma {:induction false} SegmentCount(stage: Nibble, total: nat, rest: seq<int>)
    requires |rest| <= total
    ensures |SitDownload(stage, total, rest)| == 2 * FrameCount(|rest|) == 2 * ((|rest| + 2047) / 2048)
    decreases |rest|
  {
    hide Msg;
    if rest != [] {
      OneFrameLess(|rest|);
      SegmentCount(stage, total, rest[if |rest| < MSS then |rest| else MSS..]);
    }
  }

  /** In the SIT form every data_offset is the sum of the lengths sent before, and the segments
      reassemble to the binary. */
  lemma {:induction false} SegmentsReassemble(stage: Nibble, total: nat, have: seq<int>, rest: seq<int>)
    requires |have| + |rest| == total
    ensures ReassembleSit(SitDownload(stage, total, rest), stage, total, have) == Some(have + rest)
    decreases |rest|
  {
    if rest == [] {
      assert have + rest == have;
    } else {
      hide Msg, SitDownload;
      var len := if |rest| < MSS then |rest| else MSS;
      FirstSegment(stage, total, rest);
      SegmentsReassemble(stage, total, have + rest[..len], rest[len..]);
      assert have + rest[..len] + rest[len..] == have + rest;
    }
  }

  lemma SitDownloadDelivers(stage: Nibble, file: seq<int>, offset: nat, size: nat)
    requires offset + size <= |file|
    ensures ReassembleSit(SitDownload(stage, size, Region(file, offset, size)), stage, size, [])
            == Some(file[offset..offset + size])
  {
    RegionIsSlice(file, offset, size);
    SegmentsReassemble(stage, size, [], Region(file, offset, size));
    assert [] + Region(file, offset, size) == Region(file, offset, size);
  }
}
