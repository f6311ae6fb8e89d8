/** The transfer loop of std_dump_receive_cp_dump_sit, from the first data header to the DONE handshake. */
module SitDump {
  import opened Common
  import opened StdProtocol

  const HEADER_SIZE: nat := 12

  /** Largest payload a 16-bit length can announce. */
  const MAX_PAYLOAD: nat := 0xFFFF - 8

  type Word16 = n: nat | n < 0x1_0000

  /** A header arrives (`count` is what read returns), raw bytes arrive (`stored` whether writing them to
      the file works), a word arrives, a write is taken, or the call fails. */
  datatype SitEvent =
    | Taken
    | Answer(word: nat)
    | Header(cmd: nat, length: Word16, count: nat)
    | Raw(data: seq<int>, stored: bool)
    | Failed

  datatype Events = Silence | Then(event: SitEvent, rest: Events) {
    function Count(): nat { if Silence? then 0 else 1 + rest.Count() }

    /** What is left after the next call. */
    function Tail(): Events { if Silence? then Silence else rest }

    /** The next call takes a write. */
    predicate Takes() { Then? && event == Taken }
  }

  const DATA_HEADER: nat := Msg(CP2AP, UPLOAD, NONE_TOC, DATA)
  const DONE_REPLY: nat := Msg(CP2AP, UPLOAD, NONE_TOC, DONE)

  /** What one turn of the loop returns, the events it leaves, and the bytes it writes to the file. */
  datatype ChunkResult = ChunkResult(ret: int, rest: Events, data: seq<int>)

  function RawPart(script: Events, length: nat): (r: ChunkResult)
    ensures r.rest.Count() <= script.Count() && |r.data| <= length && r.ret <= 0
  {
    if script.Silence? || !script.event.Raw? || !script.event.stored then ChunkResult(-EIO, script.Tail(), [])
    else ChunkResult(0, script.rest,
                     if |script.event.data| <= length then script.event.data else script.event.data[..length])
  }

  function HeaderAndRaw(script: Events): (r: ChunkResult)
    ensures r.rest.Count() <= script.Count() && |r.data| <= MAX_PAYLOAD && (r.ret <= 0 || r.ret == HEADER_SIZE)
    ensures r.ret == 0 ==> r.rest.Count() < script.Count()
  {
    if script.Silence? || !script.event.Header? || script.event.count < HEADER_SIZE then
      ChunkResult(-1, script.Tail(), [])
    else if script.event.cmd != DATA_HEADER || script.event.length <= 8 then
      ChunkResult(HEADER_SIZE, script.rest, [])
    else RawPart(script.rest, script.event.length - 8)
  }

  function Chunk(script: Events, spiBoot: bool): (r: ChunkResult)
    ensures |r.data| <= MAX_PAYLOAD && (r.ret <= 0 || r.ret == HEADER_SIZE)
    ensures r.ret == 0 ==> r.rest.Count() < script.Count()
  {
    if !spiBoot then HeaderAndRaw(script)
    else if script.Takes() then HeaderAndRaw(script.rest)
    else ChunkResult(-EIO, script.Tail(), [])
  }

  datatype Outcome = Outcome(ret: int, rest: Events, payloads: seq<seq<int>>)

  function Handshake(script: Events): (r: (int, Events))
    ensures r.0 <= 0
  {
    if !script.Takes() then (-EIO, script.Tail())
    else if script.rest.Silence? || !script.rest.event.Answer? then (-EIO, script.rest.Tail())
    else (if script.rest.event.word == DONE_REPLY then 0 else -EFAULT, script.rest.rest)
  }

  /** The whole loop and what follows it; `offset` is the 32-bit count of bytes so far. */
  function Transfer(script: Events, spiBoot: bool, offset: nat, total: nat): Outcome
    decreases script.Count()
  {
    var chunk := Chunk(script, spiBoot);
    var next := (offset + |chunk.data|) % TWO_32;
    if chunk.ret != 0 then Outcome(chunk.ret, chunk.rest, [])
    else if next < total then
      var more := Transfer(chunk.rest, spiBoot, next, total);
      Outcome(more.ret, more.rest, [chunk.data] + more.payloads)
    else if next != total then Outcome(-EFAULT, chunk.rest, [chunk.data])
    else Outcome(Handshake(chunk.rest).0, Handshake(chunk.rest).1, [chunk.data])
  }

  function Concat(payloads: seq<seq<int>>): seq<int> {
    if payloads == [] then [] else payloads[0] + Concat(payloads[1..])
  }

  lemma NoPayloads()
    ensures Concat([]) == []
  {}

  lemma ConcatFirst(first: seq<int>, more: seq<seq<int>>)
    ensures Concat([first] + more) == first + Concat(more)
  {
    assert ([first] + more)[1..] == more;
  }

  lemma {:induction false} ConcatAppend(payloads: seq<seq<int>>, last: seq<int>)
    ensures Concat(payloads + [last]) == Concat(payloads) + last
    decreases |payloads|
  {
    if payloads == [] {
      assert [] + [last] == [last] && [last][1..] == [];
    } else {
      assert (payloads + [last])[1..] == payloads[1..] + [last];
      ConcatAppend(payloads[1..], last);
    }
  }

  const DONE_REQUEST: nat := Msg(AP2CP, UPLOAD, NONE_TOC, DONE)

  /** What the daemon asks the modem for. */
  datatype Request = NextData(dataOffset: nat) | Word(word: nat)

  /** One request for every payload, with the number of bytes before it. */
  function DataRequests(payloads: seq<seq<int>>): (requests: seq<Request>)
    ensures |requests| == |payloads|
  {
    seq(|payloads|, i requires 0 <= i < |payloads| => NextData(|Concat(payloads[..i])| % TWO_32))
  }

  lemma RequestsAppend(payloads: seq<seq<int>>, last: seq<int>)
    ensures DataRequests(payloads + [last]) == DataRequests(payloads) + [NextData(|Concat(payloads)| % TWO_32)]
    ensures (|Concat(payloads)| % TWO_32 + |last|) % TWO_32 == |Concat(payloads + [last])| % TWO_32
  {
    ConcatAppend(payloads, last);
    hide Concat;
    assert (payloads + [last])[..|payloads|] == payloads;
    assert forall i :: 0 <= i < |payloads| ==> (payloads + [last])[..i] == payloads[..i];
  }

  class SitDumpDevice {
    var script: Events
    var file: seq<int>
    /** Every request that the daemon wrote, or tried to. */
    var sent: seq<Request>

    constructor (behaviour: Events)
      ensures script == behaviour && file == [] && sent == []
    {
      script, file, sent := behaviour, [], [];
    }

    method NextEvent() returns (event: SitEvent)
      modifies this`script
      ensures old(script) == Silence ==> event == Failed && script == Silence
      ensures old(script).Then? ==> event == old(script).event && script == old(script).rest
                                    && script.Count() < old(script).Count()
    {
      match script
      case Silence => event := Failed;
      case Then(e, rest) =>
        event := e;
        script := rest;
    }

    /** The loop to the DONE handshake. */
    method ReceiveDump(totalSize: nat, spiBoot: bool) returns (ret: int)
      requires totalSize < TWO_32
      modifies this
      ensures var outcome := Transfer(old(script), spiBoot, 0, totalSize);
              && ret == outcome.ret && script == outcome.rest && file == old(file) + Concat(outcome.payloads)
              && (ret == 0 ==>
                    var requests := if spiBoot then DataRequests(outcome.payloads) else [];
                    sent == old(sent) + requests + [Word(0xA20D)])
    {
      hide Concat, Transfer, Chunk, DataRequests;
      var pRawdata: array?<int> := null;
      var prevLength, readLen := 0, 0;
      var dataOffset: nat, saveLen: nat := 0, 0;
      ghost var all := Transfer(script, spiBoot, 0, totalSize);
      ghost var payloads: seq<seq<int>> := [];
      NoPayloads();
      NoRequests();
      while true
        invariant pRawdata != null ==> pRawdata.Length == prevLength && fresh(pRawdata)
        invariant file == old(file) + Concat(payloads)
        invariant dataOffset == saveLen == |Concat(payloads)| % TWO_32
        invariant sent == old(sent) + if spiBoot then DataRequests(payloads) else []
        invariant Continued(all, payloads, Transfer(script, spiBoot, dataOffset, totalSize))
        decreases script.Count()
      {
        ChunkTaken(all, payloads, script, spiBoot, dataOffset, totalSize);
        ghost var chunk := Chunk(script, spiBoot);
        ret, pRawdata, prevLength, readLen := ReceiveChunk(spiBoot, pRawdata, prevLength, dataOffset);
        if ret != 0 { return; }
        ConcatAppend(payloads, chunk.data);
        RequestsAppend(payloads, chunk.data);
        payloads := payloads + [chunk.data];
        dataOffset := (dataOffset + readLen) % TWO_32;
        saveLen := (saveLen + readLen) % TWO_32;
        if dataOffset >= totalSize { break; }
      }
      if saveLen != totalSize { return -EFAULT; }
      ret := Finish();
    }

    /** One turn of the loop: header, buffer, raw data, write to the file. At the read the buffer holds at
        least the requested length. */
    method ReceiveChunk(spiBoot: bool, pRawdata: array?<int>, prevLength: nat, dataOffset: nat)
      returns (ret: int, buffer: array?<int>, length: nat, readLen: nat)
      requires pRawdata != null ==> pRawdata.Length == prevLength
      modifies this, pRawdata
      ensures ret == Chunk(old(script), spiBoot).ret && script == Chunk(old(script), spiBoot).rest
      ensures buffer != null ==> buffer.Length == length && (buffer != pRawdata ==> fresh(buffer))
      ensures ret == 0 ==>
                && buffer != null && readLen <= length && buffer[..readLen] == Chunk(old(script), spiBoot).data
                && file == old(file) + Chunk(old(script), spiBoot).data
      ensures ret != 0 ==> file == old(file)
      ensures sent == old(sent) + if spiBoot then [NextData(dataOffset)] else []
    {
      buffer, length, readLen := pRawdata, prevLength, 0;
      if spiBoot {
        sent := sent + [NextData(dataOffset)];
        var taken := NextEvent();
        if taken != Taken { ret := -EIO; return; }
      }
      var header := NextEvent();
      if !header.Header? || header.count < HEADER_SIZE { ret := -1; return; }
      if header.cmd != Msg(CP2AP, UPLOAD, NONE_TOC, DATA) { ret := HEADER_SIZE; return; }
      var recvLength := header.length as int - 8;
      if recvLength <= 0 { ret := HEADER_SIZE; return; }
      buffer, length := ManageBuffer(pRawdata, prevLength, recvLength);
      var raw := NextEvent();
      if !raw.Raw? { ret := -EIO; return; }
      readLen := if |raw.data| <= recvLength then |raw.data| else recvLength;
      forall i | 0 <= i < readLen {
        buffer[i] := raw.data[i];
      }
      if !raw.stored { ret := -EIO; return; }
      file := file + buffer[..readLen];
      ret := 0;
    }

    /** The DONE handshake. */
    method Finish() returns (ret: int)
      modifies this`script, this`sent
      ensures (ret, script) == Handshake(old(script))
      ensures sent == old(sent) + [Word(DONE_REQUEST)]
    {
      sent := sent + [Word(DONE_REQUEST)];
      var taken := NextEvent();
      if taken != Taken { return -EIO; }
      var reply := NextEvent();
      if !reply.Answer? { return -EIO; }
      return if reply.word == Msg(CP2AP, UPLOAD, NONE_TOC, DONE) then 0 else -EFAULT;
    }

    /** The raw data buffer is kept, cleared, if it is large enough and replaced otherwise. */
    method ManageBuffer(pRawdata: array?<int>, prevLength: nat, recvLength: nat)
      returns (buffer: array<int>, length: nat)
      requires pRawdata != null ==> pRawdata.Length == prevLength
      modifies pRawdata
      ensures recvLength <= length == buffer.Length
      ensures buffer == pRawdata || fresh(buffer)
      ensures forall i :: 0 <= i < length ==> buffer[i] == 0
    {
      var current := pRawdata;
      if current != null {
        if prevLength < recvLength {
          current := null;
        } else {
          forall i | 0 <= i < current.Length { current[i] := 0; }
        }
      }
      if current == null {
        current := new int[recvLength](_ => 0);
        return current, recvLength;
      }
      return current, prevLength;
    }
  }

  lemma NoRequests()
    ensures DataRequests([]) == []
  {}

  /** `all` is the chunks taken so far followed by `more`. */
  ghost predicate Continued(all: Outcome, payloads: seq<seq<int>>, more: Outcome) {
    all.ret == more.ret && all.rest == more.rest && all.payloads == payloads + more.payloads
  }

  lemma ChunkTaken(all: Outcome, payloads: seq<seq<int>>, script: Events, spiBoot: bool, offset: nat, total: nat)
    requires Continued(all, payloads, Transfer(script, spiBoot, offset, total))
    ensures var chunk := Chunk(script, spiBoot);
            var next := (offset + |chunk.data|) % TWO_32;
            if chunk.ret != 0 then all == Outcome(chunk.ret, chunk.rest, payloads)
            else if next < total then
              Continued(all, payloads + [chunk.data], Transfer(chunk.rest, spiBoot, next, total))
            else all.payloads == payloads + [chunk.data] &&
                 if next != total then all.ret == -EFAULT && all.rest == chunk.rest
                 else (all.ret, all.rest) == Handshake(chunk.rest)
  {
    hide Chunk, Handshake;
    var chunk := Chunk(script, spiBoot);
    var next := (offset + |chunk.data|) % TWO_32;
    assert payloads + [] == payloads;
    if chunk.ret == 0 && next < total {
      var more := Transfer(chunk.rest, spiBoot, next, total);
      assert payloads + ([chunk.data] + more.payloads) == (payloads + [chunk.data]) + more.payloads;
    }
  }

  // ----- What the return value is worth

  /** `sum` more bytes after `offset` make the announced number; exactly, unless it is so large that the
      32-bit count can wrap. */
  predicate CompleteSum(sum: nat, offset: nat, total: nat) {
    && (offset + sum) % TWO_32 == total
    && ((offset < total || offset == 0) && total + MAX_PAYLOAD <= TWO_32 ==> offset + sum == total)
  }

  predicate ShortSum(sum: nat, offset: nat, total: nat) {
    && (offset + sum) % TWO_32 < total
    && ((offset < total || offset == 0) && total + MAX_PAYLOAD <= TWO_32 ==> offset + sum < total)
  }

  lemma OneChunk(chunk: nat, offset: nat, total: nat)
    requires chunk <= MAX_PAYLOAD && total < TWO_32
    ensures (offset + chunk) % TWO_32 == total ==> CompleteSum(chunk, offset, total)
    ensures (offset + chunk) % TWO_32 < total ==> ShortSum(chunk, offset, total)
  {}

  lemma OneChunkMore(chunk: nat, more: nat, offset: nat, total: nat)
    requires chunk <= MAX_PAYLOAD && total < TWO_32 && (offset + chunk) % TWO_32 < total
    ensures CompleteSum(more, (offset + chunk) % TWO_32, total) ==> CompleteSum(chunk + more, offset, total)
    ensures ShortSum(more, (offset + chunk) % TWO_32, total) ==> ShortSum(chunk + more, offset, total)
  {
    assert ((offset + chunk) % TWO_32 + more) % TWO_32 == (offset + chunk + more) % TWO_32;
  }

  /** Transfer by cases. */
  lemma TransferCases(script: Events, spiBoot: bool, offset: nat, total: nat)
    ensures var all, chunk := Transfer(script, spiBoot, offset, total), Chunk(script, spiBoot);
            var next := (offset + |chunk.data|) % TWO_32;
            && (chunk.ret != 0 ==> all == Outcome(chunk.ret, chunk.rest, []))
            && (chunk.ret == 0 && next < total ==>
                  var more := Transfer(chunk.rest, spiBoot, next, total);
                  all == Outcome(more.ret, more.rest, [chunk.data] + more.payloads))
            && (chunk.ret == 0 && next > total ==> all == Outcome(-EFAULT, chunk.rest, [chunk.data]))
            && (chunk.ret == 0 && next == total ==>
                  all == Outcome(Handshake(chunk.rest).0, Handshake(chunk.rest).1, [chunk.data]))
  {
    hide Chunk, Handshake;
  }

  /** Whatever the modem sends: 0 is returned only for a dump of the announced size modulo 2^32, and of exactly
      that size up to 2^32 - 65527; a positive value, the left-over result of reading a wrong header, only for
      one that is still short. */
  lemma {:induction false} ReturnValueTells(script: Events, spiBoot: bool, offset: nat, total: nat)
    requires total < TWO_32
    ensures var outcome := Transfer(script, spiBoot, offset, total);
            var sum := |Concat(outcome.payloads)|;
            && (outcome.ret == 0 ==> CompleteSum(sum, offset, total))
            && (outcome.ret > 0 ==>
                  outcome.ret == 12 && (outcome.payloads == [] || ShortSum(sum, offset, total)))
    decreases script.Count()
  {
    hide Chunk, Handshake, Concat, Transfer, CompleteSum, ShortSum;
    var chunk := Chunk(script, spiBoot);
    var next := (offset + |chunk.data|) % TWO_32;
    TransferCases(script, spiBoot, offset, total);
    if chunk.ret == 0 {
      NoPayloads();
      ConcatFirst(chunk.data, []);
      assert [chunk.data] + [] == [chunk.data] && chunk.data + [] == chunk.data;
      OneChunk(|chunk.data|, offset, total);
      if next < total {
        var more := Transfer(chunk.rest, spiBoot, next, total);
        ReturnValueTells(chunk.rest, spiBoot, next, total);
        ConcatFirst(chunk.data, more.payloads);
        OneChunkMore(|chunk.data|, |Concat(more.payloads)|, offset, total);
      }
    }
  }

  // ----- When a positive value is returned

  predicate Announces(event: SitEvent) {
    event.Header? && event.count >= HEADER_SIZE && event.cmd == DATA_HEADER && event.length > 8
  }

  /** A header that announces another command, or no data. */
  predicate AnnouncesWrong(event: SitEvent) {
    event.Header? && event.count >= HEADER_SIZE && !Announces(event)
  }

  /** While the count is still short, and nothing has failed, a wrong header comes. */
  predicate WrongHeaderComes(script: Events, spiBoot: bool, offset: nat, total: nat)
    decreases script
  {
    && (spiBoot ==> script.Takes())
    && var here := if spiBoot then script.rest else script;
    && here.Then?
    && (|| AnnouncesWrong(here.event)
        || (&& Announces(here.event)
            && here.rest.Then? && here.rest.event.Raw? && here.rest.event.stored
            && var announced, arrived := here.event.length - 8, |here.rest.event.data|;
               var next := (offset + if arrived <= announced then arrived else announced) % TWO_32;
            && next < total && WrongHeaderComes(here.rest.rest, spiBoot, next, total)))
  }

  /** The transfer returns a positive value exactly if a wrong header ends it. */
  lemma {:induction false} PositiveIff(script: Events, spiBoot: bool, offset: nat, total: nat)
    ensures Transfer(script, spiBoot, offset, total).ret > 0 <==> WrongHeaderComes(script, spiBoot, offset, total)
    decreases script
  {
    hide Handshake, Transfer, DATA_HEADER;
    TransferCases(script, spiBoot, offset, total);
    var chunk := Chunk(script, spiBoot);
    var next := (offset + |chunk.data|) % TWO_32;
    if chunk.ret == 0 && next < total {
      PositiveIff(chunk.rest, spiBoot, next, total);
    }
  }

  /** What a modem sends for a list of payloads, before `rest`. */
  function Send(payloads: seq<seq<int>>, spiBoot: bool, rest: Events): Events
    requires forall i :: 0 <= i < |payloads| ==> 1 <= |payloads[i]| <= MAX_PAYLOAD
  {
    if payloads == [] then rest
    else
      var data := Then(Header(DATA_HEADER, |payloads[0]| + 8, HEADER_SIZE),
                       Then(Raw(payloads[0], true), Send(payloads[1..], spiBoot, rest)));
      if spiBoot then Then(Taken, data) else data
  }

  lemma ChunkUnderstood(data: seq<int>, spiBoot: bool, rest: Events)
    requires 1 <= |data| <= MAX_PAYLOAD
    ensures var script := Then(Header(DATA_HEADER, |data| + 8, HEADER_SIZE), Then(Raw(data, true), rest));
            Chunk(if spiBoot then Then(Taken, script) else script, spiBoot) == ChunkResult(0, rest, data)
  {}

  /** Payloads that leave the dump short are stored, and the transfer goes on. */
  lemma {:induction false} PayloadsTaken(payloads: seq<seq<int>>, spiBoot: bool, rest: Events, offset: nat, total: nat)
    requires forall i :: 0 <= i < |payloads| ==> 1 <= |payloads[i]| <= MAX_PAYLOAD
    requires offset + |Concat(payloads)| < total < TWO_32
    ensures var more := Transfer(rest, spiBoot, offset + |Concat(payloads)|, total);
            Transfer(Send(payloads, spiBoot, rest), spiBoot, offset, total)
            == Outcome(more.ret, more.rest, payloads + more.payloads)
    decreases |payloads|
  {
    hide Chunk, Handshake, Concat, Transfer;
    NoPayloads();
    if payloads == [] {
      var more := Transfer(rest, spiBoot, offset, total);
      assert [] + more.payloads == more.payloads;
    } else {
      var first, others := payloads[0], payloads[1..];
      assert payloads == [first] + others;
      ConcatFirst(first, others);
      ChunkUnderstood(first, spiBoot, Send(others, spiBoot, rest));
      TransferCases(Send(payloads, spiBoot, rest), spiBoot, offset, total);
      SmallCount(offset + |first|);
      PayloadsTaken(others, spiBoot, rest, offset + |first|, total);
      var more := Transfer(rest, spiBoot, offset + |Concat(payloads)|, total);
      assert [first] + (others + more.payloads) == payloads + more.payloads;
    }
  }

  lemma SmallCount(n: nat)
    requires n < TWO_32
    ensures n % TWO_32 == n
  {}

  /** A wrong header after payloads that leave the dump short ends it there, with a positive value. */
  lemma WrongHeaderEnds(payloads: seq<seq<int>>, cmd: nat, length: Word16, rest: Events, spiBoot: bool, total: nat)
    requires forall i :: 0 <= i < |payloads| ==> 1 <= |payloads[i]| <= MAX_PAYLOAD
    requires |Concat(payloads)| < total < TWO_32 && (cmd != 0xC20B || length <= 8)
    ensures var wrong := Then(Header(cmd, length, 12), rest);
            var script := Send(payloads, spiBoot, if spiBoot then Then(Taken, wrong) else wrong);
            Transfer(script, spiBoot, 0, total) == Outcome(12, rest, payloads)
  {
    var wrong := Then(Header(cmd, length, HEADER_SIZE), rest);
    var asked := if spiBoot then Then(Taken, wrong) else wrong;
    assert Chunk(asked, spiBoot) == ChunkResult(HEADER_SIZE, rest, []);
    hide Chunk, Concat, Transfer, Send, Handshake;
    PayloadsTaken(payloads, spiBoot, asked, 0, total);
    TransferCases(asked, spiBoot, |Concat(payloads)|, total);
    assert payloads + [] == payloads;
  }

  lemma {:induction false} PayloadsUnderstood(payloads: seq<seq<int>>, spiBoot: bool, rest: Events, offset: nat,
                                              total: nat)
    requires payloads != [] && forall i :: 0 <= i < |payloads| ==> 1 <= |payloads[i]| <= MAX_PAYLOAD
    requires offset + |Concat(payloads)| == total < TWO_32
    ensures Transfer(Send(payloads, spiBoot, rest), spiBoot, offset, total)
            == Outcome(Handshake(rest).0, Handshake(rest).1, payloads)
    decreases |payloads|
  {
    hide Chunk, Handshake, Concat, Transfer;
    var more := payloads[1..];
    var size := |payloads[0]|;
    assert payloads == [payloads[0]] + more;
    ConcatFirst(payloads[0], more);
    ChunkUnderstood(payloads[0], spiBoot, Send(more, spiBoot, rest));
    TransferCases(Send(payloads, spiBoot, rest), spiBoot, offset, total);
    NoPayloads();
    SmallCount(offset + size);
    if more != [] {
      ConcatFirst(more[0], more[1..]);
      assert more == [more[0]] + more[1..];
      PayloadsUnderstood(more, spiBoot, rest, offset + size, total);
    }
  }

  /** Any dump below 4 GiB that a modem announces and sends in order is received with success and stored. */
  lemma HonestDumpReceived(payloads: seq<seq<int>>, spiBoot: bool)
    requires payloads != [] && forall i :: 0 <= i < |payloads| ==> 1 <= |payloads[i]| <= MAX_PAYLOAD
    requires |Concat(payloads)| < TWO_32
    ensures Transfer(Send(payloads, spiBoot, GOOD_END), spiBoot, 0, |Concat(payloads)|)
            == Outcome(0, Silence, payloads)
  {
    hide Send, Transfer, Concat;
    GoodEnd();
    PayloadsUnderstood(payloads, spiBoot, GOOD_END, 0, |Concat(payloads)|);
  }

  /** A chunk that cannot be written to the file, or whose header is cut short, makes the transfer fail. */
  lemma BadChunkFails(payloads: seq<seq<int>>, data: seq<int>, header: SitEvent, spiBoot: bool, rest: Events,
                      total: nat)
    requires forall i :: 0 <= i < |payloads| ==> 1 <= |payloads[i]| <= MAX_PAYLOAD
    requires |Concat(payloads)| < total < TWO_32
    requires header.Header?
    ensures var chunk := Then(header, Then(Raw(data, false), rest));
            var script := Send(payloads, spiBoot, if spiBoot then Then(Taken, chunk) else chunk);
            && (header.cmd == 0xC20B && header.length > 8 ==> Transfer(script, spiBoot, 0, total).ret < 0)
            && (header.count < 12 ==> Transfer(script, spiBoot, 0, total).ret < 0)
  {
    var chunk := Then(header, Then(Raw(data, false), rest));
    var asked := if spiBoot then Then(Taken, chunk) else chunk;
    assert header.cmd == 0xC20B && header.length > 8 ==> Chunk(asked, spiBoot).ret < 0;
    assert header.count < 12 ==> Chunk(asked, spiBoot).ret < 0;
    hide Chunk, Concat, Transfer, Send, Handshake;
    PayloadsTaken(payloads, spiBoot, asked, 0, total);
    TransferCases(asked, spiBoot, |Concat(payloads)|, total);
  }

  /** After all payloads the reply to DONE decides: any other word makes the transfer fail. */
  lemma ReplyDecides(payloads: seq<seq<int>>, spiBoot: bool, word: nat, rest: Events)
    requires payloads != [] && forall i :: 0 <= i < |payloads| ==> 1 <= |payloads[i]| <= MAX_PAYLOAD
    requires |Concat(payloads)| < TWO_32
    ensures var script := Send(payloads, spiBoot, Then(Taken, Then(Answer(word), rest)));
            Transfer(script, spiBoot, 0, |Concat(payloads)|).ret == 0 <==> word == 0xC20D
  {
    hide Send, Transfer, Concat;
    PayloadsUnderstood(payloads, spiBoot, Then(Taken, Then(Answer(word), rest)), 0, |Concat(payloads)|);
  }

  // ----- When 0 means exactly the announced size

  function Zeros(n: nat): seq<int> { seq(n, _ => 0) }

  /** n bytes in payloads of any size up to the largest. */
  function Filling(n: nat): seq<seq<int>> {
    if n == 0 then [] else if n <= MAX_PAYLOAD then [Zeros(n)] else [Zeros(MAX_PAYLOAD)] + Filling(n - MAX_PAYLOAD)
  }

  lemma {:induction false} FillingSize(n: nat)
    ensures |Concat(Filling(n))| == n
    ensures forall i :: 0 <= i < |Filling(n)| ==> 1 <= |Filling(n)[i]| <= MAX_PAYLOAD
  {
    hide Concat;
    NoPayloads();
    if 0 < n <= MAX_PAYLOAD {
      ConcatFirst(Zeros(n), []);
      assert [Zeros(n)] + [] == [Zeros(n)];
    } else if n > MAX_PAYLOAD {
      FillingSize(n - MAX_PAYLOAD);
      ConcatFirst(Zeros(MAX_PAYLOAD), Filling(n - MAX_PAYLOAD));
    }
  }

  lemma {:induction false} ConcatSum(a: seq<seq<int>>, b: seq<seq<int>>)
    ensures |Concat(a + b)| == |Concat(a)| + |Concat(b)|
    decreases |a|
  {
    if a == [] {
      assert a + b == b;
    } else {
      assert (a + b)[1..] == a[1..] + b;
      ConcatSum(a[1..], b);
    }
  }

  const GOOD_END: Events := Then(Taken, Then(Answer(DONE_REPLY), Silence))

  /** Whatever the modem sends, success means a dump of this very size. */
  ghost predicate SuccessIsExact(total: nat, spiBoot: bool) {
    forall script ::
      Transfer(script, spiBoot, 0, total).ret == 0 ==> |Concat(Transfer(script, spiBoot, 0, total).payloads)| == total
  }

  /** It does exactly up to the size from which one more payload can carry the 32-bit count over 2^32. */
  lemma SuccessIsExactIff(total: nat, spiBoot: bool)
    requires total < TWO_32
    ensures SuccessIsExact(total, spiBoot) <==> total + 65527 <= 0x1_0000_0000
  {
    hide Transfer, Concat;
    if total + MAX_PAYLOAD <= TWO_32 {
      forall script | Transfer(script, spiBoot, 0, total).ret == 0
        ensures |Concat(Transfer(script, spiBoot, 0, total).payloads)| == total
      {
        ReturnValueTells(script, spiBoot, 0, total);
      }
    } else {
      var script := WrappingDump(total, spiBoot);
    }
  }

  /** All but one byte, then a full payload that wraps the count, then what is missing again. */
  lemma WrappingDump(total: nat, spiBoot: bool) returns (script: Events)
    requires total < TWO_32 < total + MAX_PAYLOAD
    ensures Transfer(script, spiBoot, 0, total).ret == 0
    ensures |Concat(Transfer(script, spiBoot, 0, total).payloads)| == total + TWO_32
  {
    hide Transfer, Concat, Send, Filling, Chunk, Handshake;
    var wrapped := total - 1 + MAX_PAYLOAD - TWO_32;
    var last := Filling(total - wrapped);
    var middle := [Zeros(MAX_PAYLOAD)];
    FillingSize(total - 1);
    FillingSize(total - wrapped);
    var end := Send(last, spiBoot, GOOD_END);
    script := Send(Filling(total - 1), spiBoot, Send(middle, spiBoot, end));
    PayloadsTaken(Filling(total - 1), spiBoot, Send(middle, spiBoot, end), 0, total);
    OneMiddle(spiBoot, end, total);
    GoodEnd();
    NoPayloads();
    PayloadsUnderstood(last, spiBoot, GOOD_END, wrapped, total);
    ConcatFirst(Zeros(MAX_PAYLOAD), last);
    ConcatSum(Filling(total - 1), middle + last);
  }

  lemma OneMiddle(spiBoot: bool, rest: Events, total: nat)
    requires total < TWO_32 < total + MAX_PAYLOAD
    ensures var more := Transfer(rest, spiBoot, total - 1 + MAX_PAYLOAD - TWO_32, total);
            Transfer(Send([Zeros(MAX_PAYLOAD)], spiBoot, rest), spiBoot, total - 1, total)
            == Outcome(more.ret, more.rest, [Zeros(MAX_PAYLOAD)] + more.payloads)
  {
    var middle := [Zeros(MAX_PAYLOAD)];
    assert middle[1..] == [];
    assert Send([], spiBoot, rest) == rest;
    hide Transfer, Chunk, Handshake;
    ChunkUnderstood(Zeros(MAX_PAYLOAD), spiBoot, rest);
    TransferCases(Send(middle, spiBoot, rest), spiBoot, total - 1, total);
    assert (total - 1 + MAX_PAYLOAD) % TWO_32 == total - 1 + MAX_PAYLOAD - TWO_32;
  }

  lemma GoodEnd()
    ensures Handshake(GOOD_END) == (0, Silence)
  {}
}
