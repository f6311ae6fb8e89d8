/** The modem link of std_boot.c: command words, the boot device as an arbitrary environment, and the
    download of one binary in both forms of the protocol. */
module StdProtocol {
  import opened Common

  const MSS: nat := 2048
  const EFAULT: int := 14
  const EIO: int := 5

  // ----- Command words

  const AP2CP: nat := 0xA
  const CP2AP: nat := 0xC
  const READY: nat := 0x0
  const DOWNLOAD: nat := 0x1
  const UPLOAD: nat := 0x2
  const SECURITY: nat := 0x3
  const FINALIZE: nat := 0x4
  const START: nat := 0x0
  const PASS: nat := 0x0
  const CRC: nat := 0x1
  const DATA: nat := 0xB
  const BOOT: nat := 0xB
  const DONE: nat := 0xD
  const NONE_TOC: nat := 0x0

  type Nibble = n: nat | n < 16

  /** MSG: four nibbles in a 16-bit word. */
  function Msg(direction: Nibble, cmd: Nibble, index: Nibble, stat: Nibble): (word: nat)
    ensures word < 0x1_0000
  {
    direction * 0x1000 + cmd * 0x100 + index * 0x10 + stat
  }

  /** Every word decodes to the one message it was made from. */
  lemma MsgDecodes(d: Nibble, c: Nibble, i: Nibble, s: Nibble)
    ensures var word := Msg(d, c, i, s);
            word / 0x1000 == d && word / 0x100 % 16 == c && word / 0x10 % 16 == i && word % 16 == s
  {
    var word := Msg(d, c, i, s);
    Digit(word, d * 0x1000 / 0x10 + c * 0x10 + i, s);
    Digit(d * 0x100 + c * 0x10 + i, d * 0x10 + c, i);
    Digit(d * 0x10 + c, d, c);
    assert word / 0x100 == word / 0x10 / 0x10;
    assert word / 0x1000 == word / 0x10 / 0x10 / 0x10;
  }

  lemma Digit(word: nat, rest: nat, low: Nibble)
    requires word == rest * 0x10 + low
    ensures word / 0x10 == rest && word % 0x10 == low
  {}

  const PLAIN_AP2CP: nat := 0x9000
  const PLAIN_CP2AP: nat := 0xA000
  const PLAIN_SEND: nat := 0x1

  /** A word of the plain protocol: direction, stage in the second byte, code in the first. */
  function Plain(direction: nat, stage: Nibble, code: nat): nat { direction + stage * 0x100 + code }

  // ----- The boot device

  datatype Packet =
    | Command(word: nat)
    | Frame(cmd: nat, numFrames: nat, currFrame: nat, len: nat, data: seq<int>)
    | Payload(cmd: nat, length: nat, totalSize: nat, dataOffset: nat, data: seq<int>)
    | CrcFrame(cmd: nat, crc: nat)

  datatype Entry = Sent(packet: Packet) | Received(word: nat)

  /** What the device does on the next call: take a write whole, deliver a word, or fail. */
  datatype Event = Accept | Reply(word: nat) | Fail

  predicate Matches(entry: Entry, event: Event) {
    match entry
    case Sent(_) => event.Accept?
    case Received(word) => event == Reply(word)
  }

  /** The device behaves so that exactly these entries can be exchanged first. */
  predicate Follows(script: seq<Event>, entries: seq<Entry>) {
    |entries| <= |script| && forall i :: 0 <= i < |entries| ==> Matches(entries[i], script[i])
  }

  /** The log has grown by the first k of these entries and at most one word that was not expected. */
  ghost predicate GrownBy(k: nat, entries: seq<Entry>, l0: seq<Entry>, l1: seq<Entry>) {
    && k <= |entries|
    && (l1 == l0 + entries[..k] || exists word :: l1 == l0 + entries[..k] + [Received(word)])
  }

  /** Nothing but a beginning of these entries was exchanged. */
  ghost predicate Began(entries: seq<Entry>, l0: seq<Entry>, l1: seq<Entry>) {
    exists k: nat :: GrownBy(k, entries, l0, l1)
  }

  /** The outcome of an operation whose purpose is to exchange `entries`, and which is `possible` as far as
      the files are concerned: it succeeds exactly when the device plays along, and then exactly those
      entries were exchanged; otherwise it stopped somewhere on the way. */
  ghost predicate Exchanged(possible: bool, ok: bool, entries: seq<Entry>, s0: seq<Event>, l0: seq<Entry>,
                            s1: seq<Event>, l1: seq<Entry>)
  {
    && (ok <==> possible && Follows(s0, entries))
    && (ok ==> l1 == l0 + entries && s1 == s0[|entries|..])
    && Began(entries, l0, l1)
  }

  lemma BeganAll(entries: seq<Entry>, l: seq<Entry>)
    ensures Began(entries, l, l + entries)
  {
    assert entries[..|entries|] == entries;
    assert GrownBy(|entries|, entries, l, l + entries);
  }

  lemma BeganNone(entries: seq<Entry>, l: seq<Entry>)
    ensures Began(entries, l, l)
    ensures forall word :: Began(entries, l, l + [Received(word)])
  {
    assert l + entries[..0] == l;
    assert GrownBy(0, entries, l, l);
    forall word ensures Began(entries, l, l + [Received(word)]) {
      assert GrownBy(0, entries, l, l + [Received(word)]);
    }
  }

  lemma BeganAfter(a: seq<Entry>, b: seq<Entry>, l0: seq<Entry>, l2: seq<Entry>)
    requires Began(b, l0 + a, l2)
    ensures Began(a + b, l0, l2)
  {
    var k: nat :| GrownBy(k, b, l0 + a, l2);
    assert l0 + (a + b)[..|a| + k] == l0 + a + b[..k];
    assert GrownBy(|a| + k, a + b, l0, l2);
  }

  lemma BeganEarlier(a: seq<Entry>, b: seq<Entry>, l0: seq<Entry>, l1: seq<Entry>)
    requires Began(a, l0, l1)
    ensures Began(a + b, l0, l1)
  {
    var k: nat :| GrownBy(k, a, l0, l1);
    assert (a + b)[..k] == a[..k];
    assert GrownBy(k, a + b, l0, l1);
  }

  lemma ExchangeNothing(s: seq<Event>, l: seq<Entry>)
    ensures Exchanged(true, true, [], s, l, s, l)
  {
    BeganNone([], l);
  }

  lemma ExchangeThen(a: seq<Entry>, possible: bool, ok: bool, b: seq<Entry>, s0: seq<Event>, l0: seq<Entry>,
                     s1: seq<Event>, l1: seq<Entry>, s2: seq<Event>, l2: seq<Entry>)
    requires Exchanged(true, true, a, s0, l0, s1, l1) && Exchanged(possible, ok, b, s1, l1, s2, l2)
    ensures Exchanged(possible, ok, a + b, s0, l0, s2, l2)
  {
    FollowsConcat(s0, a, b);
    BeganAfter(a, b, l0, l2);
    hide Began, Follows;
    if ok {
      assert s0[|a|..][|b|..] == s0[|a + b|..];
    }
  }

  lemma ExchangeStops(possible: bool, a: seq<Entry>, later: bool, b: seq<Entry>, s0: seq<Event>, l0: seq<Entry>,
                      s1: seq<Event>, l1: seq<Entry>)
    requires Exchanged(possible, false, a, s0, l0, s1, l1)
    ensures Exchanged(possible && later, false, a + b, s0, l0, s1, l1)
  {
    BeganEarlier(a, b, l0, l1);
    if |a| <= |s0| { FollowsConcat(s0, a, b); }
  }

  /** A file that is too short ends the operation wherever it is. */
  lemma ExchangeImpossible(done: seq<Entry>, total: seq<Entry>, s0: seq<Event>, l0: seq<Entry>, s1: seq<Event>,
                           l1: seq<Entry>)
    requires Exchanged(true, true, done, s0, l0, s1, l1) && done <= total
    ensures Exchanged(false, false, total, s0, l0, s1, l1)
  {
    BeganEarlier(done, total[|done|..], l0, l1);
    assert done + total[|done|..] == total;
  }

  /** One piece of a longer exchange, after `done`. */
  lemma NextPiece(done: seq<Entry>, ok: bool, piece: seq<Entry>, later: seq<Entry>, total: seq<Entry>, possible: bool,
                  s0: seq<Event>, l0: seq<Entry>, s1: seq<Event>, l1: seq<Entry>, s2: seq<Event>, l2: seq<Entry>)
    requires Exchanged(true, true, done, s0, l0, s1, l1) && Exchanged(true, ok, piece, s1, l1, s2, l2)
    requires total == done + (piece + later)
    ensures total == (done + piece) + later
    ensures ok ==> Exchanged(true, true, done + piece, s0, l0, s2, l2)
    ensures !ok ==> Exchanged(possible, false, total, s0, l0, s2, l2)
  {
    ExchangeThen(done, true, ok, piece, s0, l0, s1, l1, s2, l2);
    if !ok {
      ExchangeStops(true, done + piece, possible, later, s0, l0, s2, l2);
    }
  }

  lemma FollowsConcat(s: seq<Event>, a: seq<Entry>, b: seq<Entry>)
    requires |a| <= |s|
    ensures Follows(s, a + b) <==> Follows(s, a) && Follows(s[|a|..], b)
  {
    if Follows(s, a + b) {
      assert forall i :: 0 <= i < |a| ==> (a + b)[i] == a[i];
      assert forall i :: 0 <= i < |b| ==> (a + b)[|a| + i] == b[i];
    }
  }

  class Device {
    var script: seq<Event>
    var log: seq<Entry>

    constructor (behaviour: seq<Event>)
      ensures script == behaviour && log == []
    {
      script, log := behaviour, [];
    }

    method Write(packet: Packet) returns (ret: int)
      modifies this
      ensures ret <= 0
      ensures Exchanged(true, ret == 0, [Sent(packet)], old(script), old(log), script, log)
    {
      hide Began;
      BeganNone([Sent(packet)], log);
      BeganAll([Sent(packet)], log);
      if |script| == 0 { return -EIO; }
      var event := script[0];
      script := script[1..];
      if event.Accept? {
        log := log + [Sent(packet)];
        return 0;
      }
      return -EIO;
    }

    /** The second half of std_udl_req_resp: poll, read and compare, unless nothing is expected. */
    method Respond(exp: nat) returns (ret: int)
      modifies this
      ensures ret <= 0
      ensures Exchanged(true, ret == 0, Response(exp), old(script), old(log), script, log)
    {
      hide Began;
      BeganNone(Response(exp), log);
      BeganAll(Response(exp), log);
      if exp == 0 { return 0; }
      if |script| == 0 { return -EIO; }
      var event := script[0];
      script := script[1..];
      if !event.Reply? { return -EIO; }
      log := log + [Received(event.word)];
      return if event.word == exp then 0 else -EFAULT;
    }

    /** std_udl_req_resp */
    method ReqResp(req: nat, exp: nat) returns (ret: int)
      modifies this
      ensures ret <= 0
      ensures Exchanged(true, ret == 0, Request(req) + Response(exp), old(script), old(log), script, log)
    {
      ExchangeNothing(script, log);
      ret := 0;
      if req != 0 {
        ret := Write(Command(req));
        if ret < 0 {
          ExchangeStops(true, Request(req), true, Response(exp), old(script), old(log), script, log);
          return;
        }
      }
      ghost var s1, l1 := script, log;
      ret := Respond(exp);
      ExchangeThen(Request(req), true, ret == 0, Response(exp), old(script), old(log), s1, l1, script, log);
    }

    /** std_dl_send_bin of the plain protocol: all frames, then one response. */
    method SendBin(stage: Nibble, file: seq<int>, offset: nat, size: nat) returns (ret: int)
      modifies this
      ensures ret <= 0
      ensures Exchanged(Readable(file, offset, size), ret == 0, PlainDownload(stage, Region(file, offset, size)),
                        old(script), old(log), script, log)
    {
      hide Exchanged, Frames, Region, Remaining, ReadFile, Readable, Request, Response;
      if offset >= TWO_31 {
        NotSeekable(PlainDownload(stage, Region(file, offset, size)), file, offset, size, script, log);
        return -1;
      }
      var exp := Plain(PLAIN_CP2AP, stage, PLAIN_SEND);
      var cmd := Plain(PLAIN_AP2CP, stage, PLAIN_SEND);
      var numFrames := size / MSS;
      if size > MSS * numFrames { numFrames := numFrames + 1; }
      var currFrame := 0;
      var rest := size;
      ghost var total := PlainDownload(stage, Region(file, offset, size));
      ghost var sent: seq<Entry> := [];
      ghost var s0, l0 := script, log;
      FrameCountIsCeiling(size);
      ExchangeNothing(script, log);
      RemainingAll(file, offset, size);
      while rest > 0
        invariant 0 <= rest <= size && (rest < size ==> offset + size - rest <= |file|)
        invariant Exchanged(true, true, sent, s0, l0, script, log)
        invariant var frames := Frames(cmd, numFrames, currFrame, Remaining(file, offset, size, rest));
                  total == sent + (frames + Response(exp))
      {
        currFrame := currFrame + 1;
        var len := if rest < MSS then rest else MSS;
        var data := ReadFile(file, offset + size - rest, len);
        ReadIsChunk(file, offset, size, rest, len);
        if |data| != len {
          ExchangeImpossible(sent, total, s0, l0, script, log);
          return -EFAULT;
        }
        ghost var s1, l1 := script, log;
        ret := Write(Frame(cmd, numFrames, currFrame, len, data));
        ghost var piece := [Sent(Frame(cmd, numFrames, currFrame, len, data))];
        ghost var later := Frames(cmd, numFrames, currFrame, Remaining(file, offset, size, rest - len)) + Response(exp);
        NextFrame(cmd, numFrames, currFrame - 1, file, offset, size, rest, Response(exp));
        NextPiece(sent, ret == 0, piece, later, total, Readable(file, offset, size), s0, l0, s1, l1, script, log);
        if ret < 0 { return; }
        sent := sent + piece;
        rest := rest - len;
      }
      ghost var s1, l1 := script, log;
      ret := ReqResp(0, exp);
      ResponseOnly(exp);
      NoFrames(cmd, numFrames, currFrame);
      AllRead(file, offset, size);
      assert total == sent + Response(exp);
      ExchangeThen(sent, true, ret == 0, Response(exp), s0, l0, s1, l1, script, log);
    }

    /** std_dl_tx_frame_sit and the response to it. */
    method SendSegment(packet: Packet, exp: nat) returns (ret: int)
      requires exp != 0
      modifies this
      ensures ret <= 0
      ensures Exchanged(true, ret == 0, [Sent(packet), Received(exp)], old(script), old(log), script, log)
    {
      hide Exchanged, Request, Response;
      ResponseOnly(exp);
      assert [Sent(packet), Received(exp)] == [Sent(packet)] + [Received(exp)];
      ret := Write(packet);
      if ret < 0 {
        ExchangeStops(true, [Sent(packet)], true, [Received(exp)], old(script), old(log), script, log);
        return;
      }
      ghost var s1, l1 := script, log;
      ret := ReqResp(0, exp);
      ExchangeThen([Sent(packet)], true, ret == 0, [Received(exp)], old(script), old(log), s1, l1, script, log);
    }

    /** std_dl_send_bin of the SIT protocol: every segment is acknowledged before the next. */
    method SendBinSit(stage: Nibble, file: seq<int>, offset: nat, size: nat) returns (ret: int)
      modifies this
      ensures ret <= 0
      ensures Exchanged(Readable(file, offset, size), ret == 0, SitDownload(stage, size, Region(file, offset, size)),
                        old(script), old(log), script, log)
    {
      hide Exchanged, SitDownload, Region, Remaining, ReadFile, Readable, Msg, Request, Response;
      if offset >= TWO_31 {
        NotSeekable(SitDownload(stage, size, Region(file, offset, size)), file, offset, size, script, log);
        return -1;
      }
      var exp := Msg(CP2AP, DOWNLOAD, stage, DATA);
      var cmd := Msg(AP2CP, DOWNLOAD, stage, DATA);
      AckIsNotZero(stage);
      var rest := size;
      ghost var total := SitDownload(stage, size, Region(file, offset, size));
      ghost var exchanged: seq<Entry> := [];
      ghost var s0, l0 := script, log;
      ExchangeNothing(script, log);
      RemainingAll(file, offset, size);
      while rest > 0
        invariant 0 <= rest <= size && (rest < size ==> offset + size - rest <= |file|)
        invariant Exchanged(true, true, exchanged, s0, l0, script, log)
        invariant total == exchanged + SitDownload(stage, size, Remaining(file, offset, size, rest))
      {
        var len := if rest < MSS then rest else MSS;
        var data := ReadFile(file, offset + size - rest, len);
        ReadIsChunk(file, offset, size, rest, len);
        if |data| != len {
          ExchangeImpossible(exchanged, total, s0, l0, script, log);
          return -EFAULT;
        }
        ghost var piece := [Sent(Payload(cmd, len + 8, size, size - rest, data)), Received(exp)];
        ghost var later := SitDownload(stage, size, Remaining(file, offset, size, rest - len));
        NextSegment(stage, file, offset, size, rest);
        ghost var s1, l1 := script, log;
        ret := SendSegment(Payload(cmd, len + 8, size, size - rest, data), exp);
        NextPiece(exchanged, ret == 0, piece, later, total, Readable(file, offset, size), s0, l0, s1, l1, script, log);
        if ret < 0 { return; }
        exchanged := exchanged + piece;
        rest := rest - len;
      }
      NoSegments(stage, size);
      AllRead(file, offset, size);
      assert total == exchanged;
      ret := 0;
    }
  }

  lemma ResponseOnly(exp: nat)
    ensures Request(0) + Response(exp) == Response(exp)
    ensures exp != 0 ==> Request(0) + Response(exp) == [Received(exp)]
  {}

  lemma AckIsNotZero(stage: Nibble)
    ensures Msg(CP2AP, DOWNLOAD, stage, DATA) != 0
  {}

  lemma NoFrames(cmd: nat, numFrames: nat, k: nat)
    ensures Frames(cmd, numFrames, k, []) == []
  {}

  lemma NoSegments(stage: Nibble, total: nat)
    ensures SitDownload(stage, total, []) == []
  {}

  lemma NotSeekable(total: seq<Entry>, file: seq<int>, offset: nat, size: nat, s: seq<Event>, l: seq<Entry>)
    requires !Seekable(offset)
    ensures Exchanged(Readable(file, offset, size), false, total, s, l, s, l)
  {
    BeganNone(total, l);
  }

  lemma AllRead(file: seq<int>, offset: nat, size: nat)
    requires Seekable(offset) && (size > 0 ==> offset + size <= |file|)
    ensures Readable(file, offset, size)
  {}

  function Request(req: nat): seq<Entry> { if req == 0 then [] else [Sent(Command(req))] }

  function Response(exp: nat): seq<Entry> { if exp == 0 then [] else [Received(exp)] }

  // ----- Files

  /** read(2) of at most len bytes at a position; short at the end of the file. */
  function ReadFile(file: seq<int>, position: nat, len: nat): seq<int> {
    if position >= |file| then []
    else if position + len <= |file| then file[position..position + len]
    else file[position..]
  }

  /** The whole binary can be found and read. */
  predicate Readable(file: seq<int>, offset: nat, size: nat) {
    Seekable(offset) && (size == 0 || offset + size <= |file|)
  }

  /** The bytes of the binary; past the end of the file there is nothing to send and the value is moot. */
  function Region(file: seq<int>, offset: nat, size: nat): (region: seq<int>)
    ensures |region| == size
  {
    seq(size, i => if i >= 0 && offset + i < |file| then file[offset + i] else 0)
  }

  /** The last `rest` bytes of the binary. */
  function Remaining(file: seq<int>, offset: nat, size: nat, rest: nat): (remaining: seq<int>)
    requires rest <= size
    ensures |remaining| == rest
  {
    Region(file, offset, size)[size - rest..]
  }

  lemma RemainingAll(file: seq<int>, offset: nat, size: nat)
    ensures Remaining(file, offset, size, size) == Region(file, offset, size)
    ensures Remaining(file, offset, size, 0) == []
  {}

  lemma RegionIsSlice(file: seq<int>, offset: nat, size: nat)
    requires offset + size <= |file|
    ensures Region(file, offset, size) == file[offset..offset + size]
  {}

  lemma ReadIsChunk(file: seq<int>, offset: nat, size: nat, rest: nat, len: nat)
    requires len <= rest <= size
    ensures var data := ReadFile(file, offset + size - rest, len);
            && (|data| == len ==> data == Region(file, offset, size)[size - rest..][..len])
            && (|data| == len && len > 0 ==> offset + size - rest + len <= |file|)
            && (|data| != len ==> !Readable(file, offset, size))
  {
    var data, position := ReadFile(file, offset + size - rest, len), offset + size - rest;
    if |data| == len && len > 0 {
      assert data == file[position..position + len];
      forall i | 0 <= i < len
        ensures Region(file, offset, size)[size - rest..][..len][i] == data[i]
      {
        assert Region(file, offset, size)[size - rest + i] == file[position + i];
      }
    }
  }

  // ----- Fragmentation

  function FrameCount(size: nat): nat { (size + MSS - 1) / MSS }

  lemma FrameCountIsCeiling(size: nat)
    ensures FrameCount(size) == size / MSS + (if size > MSS * (size / MSS) then 1 else 0)
  {}

  /** The frames for the rest of a binary of which k frames have been sent. */
  function Frames(cmd: nat, numFrames: nat, k: nat, rest: seq<int>): seq<Entry>
    decreases |rest|
  {
    if rest == [] then []
    else
      var len := if |rest| < MSS then |rest| else MSS;
      [Sent(Frame(cmd, numFrames, k + 1, len, rest[..len]))] + Frames(cmd, numFrames, k + 1, rest[len..])
  }

  function PlainDownload(stage: Nibble, region: seq<int>): seq<Entry> {
    Frames(Plain(PLAIN_AP2CP, stage, PLAIN_SEND), FrameCount(|region|), 0, region)
    + Response(Plain(PLAIN_CP2AP, stage, PLAIN_SEND))
  }

  lemma NextFrame(cmd: nat, numFrames: nat, k: nat, file: seq<int>, offset: nat, size: nat, rest: nat, tail: seq<Entry>)
    requires 0 < rest <= size
    requires |ReadFile(file, offset + size - rest,
                       if rest < MSS then rest else MSS)| == if rest < MSS then rest else MSS
    ensures var len := if rest < MSS then rest else MSS;
            Frames(cmd, numFrames, k, Remaining(file, offset, size, rest)) + tail
            == [Sent(Frame(cmd, numFrames, k + 1, len, ReadFile(file, offset + size - rest, len)))]
               + (Frames(cmd, numFrames, k + 1, Remaining(file, offset, size, rest - len)) + tail)
  {
    var region := Region(file, offset, size);
    var len := if rest < MSS then rest else MSS;
    ReadIsChunk(file, offset, size, rest, len);
    assert region[size - rest..][len..] == region[size - (rest - len)..];
  }

  /** The segments of the rest of a binary of `total` bytes, each followed by its acknowledgement. */
  function SitDownload(stage: Nibble, total: nat, rest: seq<int>): seq<Entry>
    requires |rest| <= total
    decreases |rest|
  {
    if rest == [] then []
    else
      var len := if |rest| < MSS then |rest| else MSS;
      [Sent(Payload(Msg(AP2CP, DOWNLOAD, stage, DATA), len + 8, total, total - |rest|, rest[..len])),
       Received(Msg(CP2AP, DOWNLOAD, stage, DATA))]
      + SitDownload(stage, total, rest[len..])
  }

  lemma NextSegment(stage: Nibble, file: seq<int>, offset: nat, size: nat, rest: nat)
    requires 0 < rest <= size
    requires |ReadFile(file, offset + size - rest,
                       if rest < MSS then rest else MSS)| == if rest < MSS then rest else MSS
    ensures var len := if rest < MSS then rest else MSS;
            SitDownload(stage, size, Remaining(file, offset, size, rest))
            == [Sent(Payload(Msg(AP2CP, DOWNLOAD, stage, DATA), len + 8, size, size - rest,
                             ReadFile(file, offset + size - rest, len))),
                Received(Msg(CP2AP, DOWNLOAD, stage, DATA))]
               + SitDownload(stage, size, Remaining(file, offset, size, rest - len))
  {
    var region := Region(file, offset, size);
    var len := if rest < MSS then rest else MSS;
    ReadIsChunk(file, offset, size, rest, len);
    assert region[size - rest..][len..] == region[size - (rest - len)..];
  }
}
