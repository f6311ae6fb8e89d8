/** The stages of a boot: the download control table that boot_shannon5100.c builds from the table of
    contents, and std_boot_load_cp_images, which walks it in the SIT protocol. */
module StdBoot {
  import opened StdProtocol

  const MAX_DLOAD_STAGE: nat := 13
  const MAX_TOC_INDEX: nat := 16
  const FIN_STAGE: Nibble := 0xF

  datatype TocElement = TocElement(name: string, bOffset: nat, size: nat, crc: nat)

  datatype FileId = BIN | NV | NV_PROT

  datatype Control = Control(stage: Nibble, start: bool, download: bool, validate: bool, finish: bool,
                             file: FileId, bOffset: nat, bSize: nat, crc: nat)

  const CLEARED := Control(0, false, false, false, false, BIN, 0, 0, 0)

  function FileFor(name: string): FileId {
    if name == "NV" || name == "NV_NORM" then NV else if name == "NV_PROT" then NV_PROT else BIN
  }

  /** TOC, then BOOT, then other images up to entry n, where the table or the list of stages ends. */
  ghost predicate WellFormed(toc: seq<TocElement>, numStages: nat, n: nat)
    requires |toc| == MAX_TOC_INDEX && numStages < MAX_DLOAD_STAGE
  {
    && 2 <= n <= numStages
    && toc[0].name == "TOC" && toc[1].name == "BOOT"
    && (forall i :: 2 <= i < n ==> toc[i].name != "TOC" && toc[i].name != "BOOT" && toc[i].name != "OFFSET")
    && (n < numStages ==> toc[n].name == "OFFSET")
  }

  function TocControl(toc: seq<TocElement>, t: Nibble): Control
    requires |toc| == MAX_TOC_INDEX
  {
    Control(t, true, true, false, true, BIN, toc[0].bOffset, toc[0].size, toc[1].crc)
  }

  function BootControl(toc: seq<TocElement>, b: Nibble): Control
    requires |toc| == MAX_TOC_INDEX
  {
    Control(b, false, false, true, true, BIN, toc[1].bOffset, toc[1].size, 0)
  }

  function ImageControl(toc: seq<TocElement>, i: Nibble): Control
    requires |toc| == MAX_TOC_INDEX
  {
    Control(i, true, true, toc[i].name == "MAIN", true, FileFor(toc[i].name), toc[i].bOffset, toc[i].size, toc[i].crc)
  }

  const FIN_CONTROL := CLEARED.(stage := FIN_STAGE, start := true)

  /** Every entry of the table of contents has a slot of its own, FIN has the one behind them. */
  ghost predicate Filled(ctl: seq<Control>, toc: seq<TocElement>, n: nat, t: Nibble, b: Nibble)
    requires |toc| == MAX_TOC_INDEX && |ctl| == MAX_DLOAD_STAGE && 2 <= n < MAX_DLOAD_STAGE && t < 2 && b < 2
  {
    && ctl[t] == TocControl(toc, t) && ctl[b] == BootControl(toc, b)
    && (forall i: nat :: 2 <= i < n ==> ctl[i] == ImageControl(toc, i))
    && ctl[n] == FIN_CONTROL
    && (forall i :: n < i < MAX_DLOAD_STAGE ==> ctl[i] == CLEARED)
  }

  method BuildStdDloadControl(toc: seq<TocElement>, numStages: nat, t: Nibble, b: Nibble, dlCtrl: array<Control>)
    requires |toc| == MAX_TOC_INDEX && dlCtrl.Length == MAX_DLOAD_STAGE
    requires numStages < MAX_DLOAD_STAGE && t < MAX_DLOAD_STAGE && b < MAX_DLOAD_STAGE
    modifies dlCtrl
    ensures forall n :: WellFormed(toc, numStages, n) && t < 2 && b < 2 && t != b ==> Filled(dlCtrl[..], toc, n, t, b)
  {
    for k := 0 to MAX_DLOAD_STAGE
      invariant forall j :: 0 <= j < k ==> dlCtrl[j] == CLEARED
    {
      dlCtrl[k] := CLEARED;
    }
    var i := 0;
    ghost var images := t < 2 && b < 2 && t != b && numStages >= 2 && toc[0].name == "TOC" && toc[1].name == "BOOT";
    while i < numStages
      invariant i <= numStages
      invariant images && i == 0 ==> forall j :: 0 <= j < MAX_DLOAD_STAGE ==> dlCtrl[j] == CLEARED
      invariant images && i == 1 ==> dlCtrl[t] == TocControl(toc, t).(crc := toc[0].crc)
                                     && forall j :: 0 <= j < MAX_DLOAD_STAGE && j != t ==> dlCtrl[j] == CLEARED
      invariant images && i >= 2 && (forall j :: 2 <= j < i ==> toc[j].name != "TOC" && toc[j].name != "BOOT") ==>
                  && dlCtrl[t] == TocControl(toc, t) && dlCtrl[b] == BootControl(toc, b)
                  && (forall j: nat :: 2 <= j < i ==> dlCtrl[j] == ImageControl(toc, j))
                  && (forall j :: i <= j < MAX_DLOAD_STAGE ==> dlCtrl[j] == CLEARED)
      invariant forall j :: 0 <= j < i ==> toc[j].name != "OFFSET"
    {
      var entry := toc[i];
      if entry.name == "OFFSET" { break; }
      if entry.name == "TOC" {
        dlCtrl[t] := Control(t, true, true, false, true, BIN, entry.bOffset, toc[0].size, entry.crc);
      } else if entry.name == "BOOT" {
        dlCtrl[b] := Control(b, false, false, true, true, BIN, toc[1].bOffset, toc[1].size, dlCtrl[b].crc);
        dlCtrl[t] := dlCtrl[t].(crc := entry.crc);
      } else {
        dlCtrl[i] := Control(i, true, true, entry.name == "MAIN", true, FileFor(entry.name), entry.bOffset,
                             entry.size, entry.crc);
      }
      i := i + 1;
    }
    dlCtrl[i] := dlCtrl[i].(stage := FIN_STAGE, start := true);
    forall n | WellFormed(toc, numStages, n) && t < 2 && b < 2 && t != b
      ensures Filled(dlCtrl[..], toc, n, t, b)
    {
      assert n == i;
    }
  }

  // ----- The stages of the SIT protocol

  function Files(contents: map<FileId, seq<int>>, file: FileId): seq<int> {
    if file in contents then contents[file] else []
  }

  function Pair(req: nat, exp: nat): seq<Entry> { [Sent(Command(req)), Received(exp)] }

  function StartWords(stage: Nibble): (words: (nat, nat))
    ensures words.0 != 0 && words.1 != 0
  {
    if stage == FIN_STAGE then (Msg(AP2CP, FINALIZE, NONE_TOC, PASS), Msg(CP2AP, FINALIZE, NONE_TOC, PASS))
    else (Msg(AP2CP, DOWNLOAD, stage, START), Msg(CP2AP, DOWNLOAD, stage, START))
  }

  function DoneWords(stage: Nibble, boot: nat): (words: (nat, nat))
    ensures words.0 != 0 && words.1 != 0
  {
    if stage == boot then (Msg(AP2CP, READY, stage, BOOT), Msg(CP2AP, READY, stage, BOOT))
    else (Msg(AP2CP, DOWNLOAD, stage, DONE), Msg(CP2AP, DOWNLOAD, stage, DONE))
  }

  function CrcEntries(stage: Nibble, crc: nat): seq<Entry> {
    [Sent(CrcFrame(Msg(AP2CP, SECURITY, stage, CRC), crc)), Received(Msg(CP2AP, SECURITY, stage, PASS))]
  }

  function Started(c: Control): seq<Entry> {
    if c.start then Pair(StartWords(c.stage).0, StartWords(c.stage).1) else []
  }

  function Downloaded(c: Control, contents: map<FileId, seq<int>>): seq<Entry> {
    if c.download then SitDownload(c.stage, c.bSize, Region(Files(contents, c.file), c.bOffset, c.bSize)) else []
  }

  function Validated(c: Control): seq<Entry> { if c.download && c.validate then CrcEntries(c.stage, c.crc) else [] }

  function Finished(c: Control, boot: nat): seq<Entry> {
    if c.finish then Pair(DoneWords(c.stage, boot).0, DoneWords(c.stage, boot).1) else []
  }

  function Stage(c: Control, contents: map<FileId, seq<int>>, boot: nat): seq<Entry> {
    Started(c) + (Downloaded(c, contents) + (Validated(c) + Finished(c, boot)))
  }

  predicate StageReadable(c: Control, contents: map<FileId, seq<int>>) {
    c.download ==> c.file in contents && Readable(contents[c.file], c.bOffset, c.bSize)
  }

  function Stages(ctl: seq<Control>, contents: map<FileId, seq<int>>, boot: nat): seq<Entry> {
    if ctl == [] then [] else Stage(ctl[0], contents, boot) + Stages(ctl[1..], contents, boot)
  }

  predicate AllReadable(ctl: seq<Control>, contents: map<FileId, seq<int>>) {
    forall i :: 0 <= i < |ctl| ==> StageReadable(ctl[i], contents)
  }

  method SendCrc(dev: Device, stage: Nibble, crc: nat) returns (ret: int)
    modifies dev
    ensures ret <= 0
    ensures Exchanged(true, ret == 0, CrcEntries(stage, crc), old(dev.script), old(dev.log), dev.script, dev.log)
  {
    hide Exchanged, Msg;
    var exp := Msg(CP2AP, SECURITY, stage, PASS);
    ghost var sent := [Sent(CrcFrame(Msg(AP2CP, SECURITY, stage, CRC), crc))];
    CrcWords(stage);
    ResponseOnly(exp);
    assert CrcEntries(stage, crc) == sent + [Received(exp)];
    ret := dev.Write(CrcFrame(Msg(AP2CP, SECURITY, stage, CRC), crc));
    if ret < 0 {
      ExchangeStops(true, sent, true, [Received(exp)], old(dev.script), old(dev.log), dev.script, dev.log);
      return;
    }
    ghost var s1, l1 := dev.script, dev.log;
    ret := dev.ReqResp(0, exp);
    ExchangeThen(sent, true, ret == 0, [Received(exp)], old(dev.script), old(dev.log), s1, l1, dev.script, dev.log);
  }

  lemma CrcWords(stage: Nibble)
    ensures Msg(CP2AP, SECURITY, stage, PASS) != 0
  {}

  method Command2(dev: Device, req: nat, exp: nat) returns (ret: int)
    requires req != 0 && exp != 0
    modifies dev
    ensures ret <= 0
    ensures Exchanged(true, ret == 0, Pair(req, exp), old(dev.script), old(dev.log), dev.script, dev.log)
  {
    ret := dev.ReqResp(req, exp);
    assert Request(req) + Response(exp) == Pair(req, exp);
  }

  /** std_dl_send_bin with the descriptor of the stage; without an open file, lseek fails. */
  method SendFile(dev: Device, c: Control, contents: map<FileId, seq<int>>) returns (ret: int)
    requires c.download
    modifies dev
    ensures ret <= 0
    ensures Exchanged(StageReadable(c, contents), ret == 0, Downloaded(c, contents),
                      old(dev.script), old(dev.log), dev.script, dev.log)
  {
    if c.file !in contents {
      BeganNone(Downloaded(c, contents), dev.log);
      return -1;
    }
    hide Exchanged, Readable, SitDownload, Region;
    ret := dev.SendBinSit(c.stage, contents[c.file], c.bOffset, c.bSize);
  }

  /** The body of the loop: one stage. */
  method LoadStage(dev: Device, c: Control, contents: map<FileId, seq<int>>, boot: nat) returns (ret: int)
    modifies dev
    ensures ret <= 0
    ensures Exchanged(StageReadable(c, contents), ret == 0, Stage(c, contents, boot),
                      old(dev.script), old(dev.log), dev.script, dev.log)
  {
    hide Exchanged, Readable, SitDownload, Region, Pair, CrcEntries, StartWords, DoneWords;
    ghost var s0, l0 := dev.script, dev.log;
    ghost var possible := StageReadable(c, contents);
    ghost var d, v, f := Downloaded(c, contents), Validated(c), Finished(c, boot);
    ret := 0;
    ExchangeNothing(dev.script, dev.log);
    if c.start {
      ret := Command2(dev, StartWords(c.stage).0, StartWords(c.stage).1);
      if ret < 0 {
        ExchangeStops(true, Started(c), possible, d + (v + f), s0, l0, dev.script, dev.log);
        return;
      }
    }
    ghost var s1, l1 := dev.script, dev.log;
    ExchangeNothing(dev.script, dev.log);
    if c.download {
      ret := SendFile(dev, c, contents);
      if ret < 0 {
        ExchangeStops(possible, d, true, v + f, s1, l1, dev.script, dev.log);
        ExchangeThen(Started(c), possible, false, d + (v + f), s0, l0, s1, l1, dev.script, dev.log);
        return;
      }
    }
    ghost var s2, l2 := dev.script, dev.log;
    ret := FinishStage(dev, c, boot);
    DownloadSucceeded(possible, d, s1, l1, s2, l2);
    ExchangeThen(d, true, ret == 0, v + f, s1, l1, s2, l2, dev.script, dev.log);
    ExchangeThen(Started(c), true, ret == 0, d + (v + f), s0, l0, s1, l1, dev.script, dev.log);
  }

  lemma DownloadSucceeded(possible: bool, d: seq<Entry>, s1: seq<Event>, l1: seq<Entry>, s2: seq<Event>, l2: seq<Entry>)
    requires Exchanged(possible, true, d, s1, l1, s2, l2)
    ensures possible && Exchanged(true, true, d, s1, l1, s2, l2)
  {}

  method FinishStage(dev: Device, c: Control, boot: nat) returns (ret: int)
    modifies dev
    ensures ret <= 0
    ensures Exchanged(true, ret == 0, Validated(c) + Finished(c, boot), old(dev.script), old(dev.log), dev.script,
                      dev.log)
  {
    hide Exchanged, Pair, CrcEntries, DoneWords;
    ghost var s0, l0 := dev.script, dev.log;
    ret := 0;
    ExchangeNothing(dev.script, dev.log);
    if c.download && c.validate {
      ret := SendCrc(dev, c.stage, c.crc);
      if ret < 0 {
        ExchangeStops(true, Validated(c), true, Finished(c, boot), s0, l0, dev.script, dev.log);
        return;
      }
    }
    ghost var s1, l1 := dev.script, dev.log;
    ExchangeNothing(dev.script, dev.log);
    if c.finish {
      ret := Command2(dev, DoneWords(c.stage, boot).0, DoneWords(c.stage, boot).1);
    }
    ExchangeThen(Validated(c), true, ret == 0, Finished(c, boot), s0, l0, s1, l1, dev.script, dev.log);
  }

  /** std_boot_load_cp_images in a SIT build: the stages from `first` to numStages, one more than counted. */
  method LoadCpImages(dev: Device, dlCtrl: seq<Control>, contents: map<FileId, seq<int>>, first: nat, numStages: nat,
                      boot: nat)
    returns (ret: int)
    requires first <= numStages < |dlCtrl|
    modifies dev
    ensures ret <= 0
    ensures Exchanged(AllReadable(dlCtrl[first..numStages + 1], contents), ret == 0,
                      Stages(dlCtrl[first..numStages + 1], contents, boot),
                      old(dev.script), old(dev.log), dev.script, dev.log)
  {
    hide Exchanged, Stage, Stages, StageReadable;
    ghost var ctl := dlCtrl[first..numStages + 1];
    ghost var total := Stages(ctl, contents, boot);
    ghost var done: seq<Entry> := [];
    ghost var s0, l0 := dev.script, dev.log;
    ret := 0;
    ExchangeNothing(dev.script, dev.log);
    for i := first to numStages + 1
      invariant ret == 0
      invariant Exchanged(true, true, done, s0, l0, dev.script, dev.log)
      invariant total == done + Stages(ctl[i - first..], contents, boot)
      invariant forall k :: 0 <= k < i - first ==> StageReadable(ctl[k], contents)
    {
      var dlc := dlCtrl[i];
      assert dlc == ctl[i - first];
      StagesFrom(ctl, i - first, contents, boot);
      ghost var piece, later := Stage(dlc, contents, boot), Stages(ctl[i - first + 1..], contents, boot);
      ghost var s1, l1 := dev.script, dev.log;
      ret := LoadStage(dev, dlc, contents, boot);
      if ret < 0 {
        ExchangeThen(done, StageReadable(dlc, contents), false, piece, s0, l0, s1, l1, dev.script, dev.log);
        ExchangeStops(StageReadable(dlc, contents), done + piece, AllReadable(ctl, contents), later, s0, l0,
                      dev.script, dev.log);
        assert done + piece + later == total;
        return;
      }
      DownloadSucceeded(StageReadable(dlc, contents), piece, s1, l1, dev.script, dev.log);
      ExchangeThen(done, true, true, piece, s0, l0, s1, l1, dev.script, dev.log);
      done := done + piece;
    }
    assert ctl[|ctl|..] == [];
    NoStages(contents, boot);
    assert total == done;
  }

  lemma StagesFrom(ctl: seq<Control>, i: nat, contents: map<FileId, seq<int>>, boot: nat)
    requires i < |ctl|
    ensures Stages(ctl[i..], contents, boot) == Stage(ctl[i], contents, boot) + Stages(ctl[i + 1..], contents, boot)
  {
    hide Stage;
    assert ctl[i..][1..] == ctl[i + 1..];
  }

  lemma NoStages(contents: map<FileId, seq<int>>, boot: nat)
    ensures Stages([], contents, boot) == []
  {}

  // ----- The whole session of a modem whose BOOT image went over SPI (TOC in slot 1, BOOT in slot 0)

  /** START, the data, the CRC of MAIN, DONE: all the entries for one image. */
  function ImageSession(toc: seq<TocElement>, i: Nibble, contents: map<FileId, seq<int>>): seq<Entry>
    requires |toc| == MAX_TOC_INDEX
  {
    Pair(Msg(AP2CP, DOWNLOAD, i, START), Msg(CP2AP, DOWNLOAD, i, START))
    + (SitDownload(i, toc[i].size, Region(Files(contents, FileFor(toc[i].name)), toc[i].bOffset, toc[i].size))
    + ((if toc[i].name == "MAIN" then CrcEntries(i, toc[i].crc) else [])
    + Pair(Msg(AP2CP, DOWNLOAD, i, DONE), Msg(CP2AP, DOWNLOAD, i, DONE))))
  }

  /** The images i .. n - 1 in rising order, then FIN. */
  function ImagesSession(toc: seq<TocElement>, i: nat, n: nat, contents: map<FileId, seq<int>>): seq<Entry>
    requires |toc| == MAX_TOC_INDEX && i <= n < MAX_DLOAD_STAGE
    decreases n - i
  {
    if i == n then Pair(Msg(AP2CP, FINALIZE, NONE_TOC, PASS), Msg(CP2AP, FINALIZE, NONE_TOC, PASS))
    else ImageSession(toc, i, contents) + ImagesSession(toc, i + 1, n, contents)
  }

  function Session(toc: seq<TocElement>, n: nat, contents: map<FileId, seq<int>>): seq<Entry>
    requires |toc| == MAX_TOC_INDEX && 2 <= n < MAX_DLOAD_STAGE
  {
    Pair(Msg(AP2CP, DOWNLOAD, 1, START), Msg(CP2AP, DOWNLOAD, 1, START))
    + (SitDownload(1, toc[0].size, Region(Files(contents, BIN), toc[0].bOffset, toc[0].size))
    + Pair(Msg(AP2CP, DOWNLOAD, 1, DONE), Msg(CP2AP, DOWNLOAD, 1, DONE)))
    + ImagesSession(toc, 2, n, contents)
  }

  lemma ClearedStage(contents: map<FileId, seq<int>>)
    ensures Stage(CLEARED, contents, 0) == []
  {}

  lemma {:induction false} ClearedStages(ctl: seq<Control>, contents: map<FileId, seq<int>>)
    requires forall i :: 0 <= i < |ctl| ==> ctl[i] == CLEARED
    ensures Stages(ctl, contents, 0) == []
  {
    hide Stage;
    if ctl != [] {
      ClearedStage(contents);
      ClearedStages(ctl[1..], contents);
    }
  }

  lemma FinStage(contents: map<FileId, seq<int>>)
    ensures Stage(FIN_CONTROL, contents, 0)
            == Pair(Msg(AP2CP, FINALIZE, NONE_TOC, PASS), Msg(CP2AP, FINALIZE, NONE_TOC, PASS))
  {}

  lemma ImageStage(toc: seq<TocElement>, i: Nibble, contents: map<FileId, seq<int>>)
    requires |toc| == MAX_TOC_INDEX && 1 <= i < MAX_DLOAD_STAGE
    ensures Stage(ImageControl(toc, i), contents, 0) == ImageSession(toc, i, contents)
  {
    hide Msg, SitDownload, Region;
  }

  lemma {:induction false} StagesAreImages(ctl: seq<Control>, toc: seq<TocElement>, i: nat, n: nat,
                                           contents: map<FileId, seq<int>>)
    requires |toc| == MAX_TOC_INDEX && |ctl| == MAX_DLOAD_STAGE && 2 <= i <= n < MAX_DLOAD_STAGE
    requires Filled(ctl, toc, n, 1, 0)
    ensures Stages(ctl[i..], contents, 0) == ImagesSession(toc, i, n, contents)
    decreases n - i
  {
    hide Stage, Stages, ImageSession;
    StagesFrom(ctl, i, contents, 0);
    if i == n {
      FinStage(contents);
      ClearedStages(ctl[n + 1..], contents);
    } else {
      ImageStage(toc, i, contents);
      StagesAreImages(ctl, toc, i + 1, n, contents);
    }
  }

  lemma {:induction false} StagesConcat(a: seq<Control>, b: seq<Control>, contents: map<FileId, seq<int>>)
    ensures Stages(a + b, contents, 0) == Stages(a, contents, 0) + Stages(b, contents, 0)
    decreases |a|
  {
    hide Stage;
    if a == [] {
      assert a + b == b;
    } else {
      assert (a + b)[1..] == a[1..] + b && (a + b)[0] == a[0];
      StagesConcat(a[1..], b, contents);
      Associate(Stage(a[0], contents, 0), Stages(a[1..], contents, 0), Stages(b, contents, 0));
    }
  }

  lemma Associate(a: seq<Entry>, b: seq<Entry>, c: seq<Entry>)
    ensures a + (b + c) == (a + b) + c
  {}

  lemma TocStage(toc: seq<TocElement>, contents: map<FileId, seq<int>>)
    requires |toc| == MAX_TOC_INDEX
    ensures Stage(TocControl(toc, 1), contents, 0) ==
            Pair(Msg(AP2CP, DOWNLOAD, 1, START), Msg(CP2AP, DOWNLOAD, 1, START))
            + (SitDownload(1, toc[0].size, Region(Files(contents, BIN), toc[0].bOffset, toc[0].size))
            + Pair(Msg(AP2CP, DOWNLOAD, 1, DONE), Msg(CP2AP, DOWNLOAD, 1, DONE)))
  {
    hide Msg, SitDownload, Region;
  }

  /** The stages that std_boot_load_cp_images walks are exactly the session: it succeeds if and only if the
      modem answers every message of it, and nothing else is exchanged. */
  lemma StagesAreTheSession(ctl: seq<Control>, toc: seq<TocElement>, numStages: nat, n: nat, contents: map<FileId,
                            seq<int>>)
    requires |toc| == MAX_TOC_INDEX && |ctl| == MAX_DLOAD_STAGE && numStages < MAX_DLOAD_STAGE
    requires WellFormed(toc, numStages, n) && Filled(ctl, toc, n, 1, 0)
    ensures Stages(ctl[1..numStages + 1], contents, 0) == Session(toc, n, contents)
  {
    hide Stage, Stages, ImagesSession;
    StagesConcat(ctl[1..numStages + 1], ctl[numStages + 1..], contents);
    assert ctl[1..numStages + 1] + ctl[numStages + 1..] == ctl[1..];
    ClearedStages(ctl[numStages + 1..], contents);
    StagesFrom(ctl, 1, contents, 0);
    TocStage(toc, contents);
    StagesAreImages(ctl, toc, 2, n, contents);
  }

  // ----- Every message is matched by its own reply

  function WordOf(p: Packet): nat {
    match p
    case Command(word) => word
    case Frame(cmd, _, _, _, _) => cmd
    case Payload(cmd, _, _, _, _) => cmd
    case CrcFrame(cmd, _) => cmd
  }

  /** The status that answers a message: PASS to a CRC, the same otherwise. */
  function StatusFor(word: nat): nat { if word / 0x100 % 16 == SECURITY then PASS else word % 16 }

  /** The reply is the modem's, to the same command with the same index, and has the status expected. */
  predicate Answers(reply: nat, word: nat) {
    && word / 0x1000 == AP2CP && (word / 0x100 % 16 == SECURITY ==> word % 16 == CRC)
    && reply / 0x1000 == CP2AP
    && reply / 0x100 % 16 == word / 0x100 % 16
    && reply / 0x10 % 16 == word / 0x10 % 16
    && reply % 16 == StatusFor(word)
  }

  lemma Nibbles(word: nat)
    ensures word == word / 0x1000 * 0x1000 + word / 0x100 % 16 * 0x100 + word / 0x10 % 16 * 0x10 + word % 16
  {
    assert word / 0x100 == word / 0x10 / 0x10 && word / 0x1000 == word / 0x10 / 0x10 / 0x10;
    assert word == word / 0x10 * 0x10 + word % 16;
    assert word / 0x10 == word / 0x100 * 0x10 + word / 0x10 % 16;
    assert word / 0x100 == word / 0x1000 * 0x10 + word / 0x100 % 16;
  }

  /** A reply decides which message it answers, and a message which reply is expected. */
  lemma RepliesDecide(reply: nat, word: nat, reply': nat, word': nat)
    requires Answers(reply, word) && Answers(reply', word')
    ensures reply == reply' <==> word == word'
  {
    Nibbles(reply);
    Nibbles(reply');
    Nibbles(word);
    Nibbles(word');
  }

  predicate Alternates(entries: seq<Entry>)
    decreases |entries|
  {
    entries == [] ||
    (|entries| >= 2 && entries[0].Sent? && entries[1].Received? && Answers(entries[1].word, WordOf(entries[0].packet))
     && Alternates(entries[2..]))
  }

  lemma {:induction false} AlternatesConcat(a: seq<Entry>, b: seq<Entry>)
    requires Alternates(a) && Alternates(b)
    ensures Alternates(a + b)
    decreases |a|
  {
    hide Answers, WordOf;
    if a == [] {
      assert a + b == b;
    } else {
      assert (a + b)[2..] == a[2..] + b && (a + b)[0] == a[0] && (a + b)[1] == a[1];
      AlternatesConcat(a[2..], b);
    }
  }

  lemma SameStatusAnswers(cmd: Nibble, index: Nibble, stat: Nibble)
    requires cmd != SECURITY
    ensures Answers(Msg(CP2AP, cmd, index, stat), Msg(AP2CP, cmd, index, stat))
  {
    MsgDecodes(AP2CP, cmd, index, stat);
    MsgDecodes(CP2AP, cmd, index, stat);
    hide Msg;
  }

  lemma PairAlternates(cmd: Nibble, index: Nibble, stat: Nibble)
    requires cmd != SECURITY
    ensures Alternates(Pair(Msg(AP2CP, cmd, index, stat), Msg(CP2AP, cmd, index, stat)))
  {
    hide Answers, Msg;
    SameStatusAnswers(cmd, index, stat);
  }

  lemma PassAnswers(index: Nibble)
    ensures Answers(Msg(CP2AP, SECURITY, index, PASS), Msg(AP2CP, SECURITY, index, CRC))
  {
    MsgDecodes(AP2CP, SECURITY, index, CRC);
    MsgDecodes(CP2AP, SECURITY, index, PASS);
    hide Msg;
  }

  lemma CrcAlternates(index: Nibble, crc: nat)
    ensures Alternates(CrcEntries(index, crc))
  {
    hide Answers, Msg;
    PassAnswers(index);
  }

  lemma {:induction false} DownloadAlternates(stage: Nibble, total: nat, rest: seq<int>)
    requires |rest| <= total
    ensures Alternates(SitDownload(stage, total, rest))
    decreases |rest|
  {
    hide Answers, Msg;
    if rest != [] {
      SameStatusAnswers(DOWNLOAD, stage, DATA);
      var len := if |rest| < MSS then |rest| else MSS;
      DownloadAlternates(stage, total, rest[len..]);
      assert SitDownload(stage, total, rest)[2..] == SitDownload(stage, total, rest[len..]);
    }
  }

  lemma {:induction false} ImagesAlternate(toc: seq<TocElement>, i: nat, n: nat, contents: map<FileId, seq<int>>)
    requires |toc| == MAX_TOC_INDEX && i <= n < MAX_DLOAD_STAGE
    ensures Alternates(ImagesSession(toc, i, n, contents))
    decreases n - i
  {
    hide Msg, SitDownload, Alternates, Pair, CrcEntries;
    if i == n {
      PairAlternates(FINALIZE, NONE_TOC, PASS);
    } else {
      var crc := if toc[i].name == "MAIN" then CrcEntries(i, toc[i].crc) else [];
      var region := Region(Files(contents, FileFor(toc[i].name)), toc[i].bOffset, toc[i].size);
      var first, last := Pair(Msg(AP2CP, DOWNLOAD, i, START), Msg(CP2AP, DOWNLOAD, i, START)),
                         Pair(Msg(AP2CP, DOWNLOAD, i, DONE), Msg(CP2AP, DOWNLOAD, i, DONE));
      PairAlternates(DOWNLOAD, i, START);
      PairAlternates(DOWNLOAD, i, DONE);
      CrcAlternates(i, toc[i].crc);
      NothingAlternates();
      DownloadAlternates(i, toc[i].size, region);
      AlternatesConcat(crc, last);
      AlternatesConcat(SitDownload(i, toc[i].size, region), crc + last);
      AlternatesConcat(first, SitDownload(i, toc[i].size, region) + (crc + last));
      ImagesAlternate(toc, i + 1, n, contents);
      AlternatesConcat(ImageSession(toc, i, contents), ImagesSession(toc, i + 1, n, contents));
    }
  }

  lemma NothingAlternates()
    ensures Alternates([])
  {}

  /** In the whole session, messages and replies alternate and each reply answers the message before it. */
  lemma SessionAlternates(toc: seq<TocElement>, n: nat, contents: map<FileId, seq<int>>)
    requires |toc| == MAX_TOC_INDEX && 2 <= n < MAX_DLOAD_STAGE
    ensures Alternates(Session(toc, n, contents))
  {
    hide Msg, SitDownload, Alternates, Pair, ImagesSession;
    var first, last := Pair(Msg(AP2CP, DOWNLOAD, 1, START), Msg(CP2AP, DOWNLOAD, 1, START)),
                       Pair(Msg(AP2CP, DOWNLOAD, 1, DONE), Msg(CP2AP, DOWNLOAD, 1, DONE));
    var region := Region(Files(contents, BIN), toc[0].bOffset, toc[0].size);
    PairAlternates(DOWNLOAD, 1, START);
    PairAlternates(DOWNLOAD, 1, DONE);
    DownloadAlternates(1, toc[0].size, region);
    ImagesAlternate(toc, 2, n, contents);
    AlternatesConcat(SitDownload(1, toc[0].size, region), last);
    AlternatesConcat(first, SitDownload(1, toc[0].size, region) + last);
    AlternatesConcat(first + (SitDownload(1, toc[0].size, region) + last), ImagesSession(toc, 2, n, contents));
  }

  // ----- The CRCs of TOC and BOOT

  /** Every slot holds the CRC of its own entry. */
  predicate CrcsInPlace(ctl: seq<Control>, toc: seq<TocElement>, n: nat, t: Nibble, b: Nibble)
    requires |toc| == MAX_TOC_INDEX && |ctl| == MAX_DLOAD_STAGE && 2 <= n < MAX_DLOAD_STAGE && t < 2 && b < 2
  {
    ctl[t].crc == toc[0].crc && ctl[b].crc == toc[1].crc && forall i :: 2 <= i < n ==> ctl[i].crc == toc[i].crc
  }

  /** The CRC of BOOT goes into the slot of TOC and not into its own, so that all are in place exactly if these
      two CRCs are 0. */
  lemma CrcsInPlaceIff(ctl: seq<Control>, toc: seq<TocElement>, n: nat, t: Nibble, b: Nibble)
    requires |toc| == MAX_TOC_INDEX && |ctl| == MAX_DLOAD_STAGE && 2 <= n < MAX_DLOAD_STAGE && t < 2 && b < 2
    requires Filled(ctl, toc, n, t, b)
    ensures CrcsInPlace(ctl, toc, n, t, b) <==> toc[0].crc == 0 && toc[1].crc == 0
  {
    assert forall i: nat :: 2 <= i < n ==> ctl[i].crc == ImageControl(toc, i).crc;
  }

  /** A table of TOC and BOOT with the CRCs 1 and 2: TOC gets the 2 and BOOT nothing. */
  lemma CrcsMixedUp() returns (toc: seq<TocElement>, ctl: seq<Control>)
    ensures |toc| == MAX_TOC_INDEX && |ctl| == MAX_DLOAD_STAGE
    ensures WellFormed(toc, 2, 2) && toc[0].crc == 1 && toc[1].crc == 2
    ensures Filled(ctl, toc, 2, 1, 0) && ctl[1].crc == 2 && ctl[0].crc == 0
  {
    var offset := TocElement("OFFSET", 0, 0, 0);
    toc := [TocElement("TOC", 0, 512, 1), TocElement("BOOT", 512, 512, 2)] + seq(14, _ => offset);
    ctl := [BootControl(toc, 0), TocControl(toc, 1), FIN_CONTROL] + seq(10, _ => CLEARED);
  }

  /** The session does not show it: it is the same whatever these two CRCs are. */
  lemma SessionIgnoresCrcs(toc: seq<TocElement>, n: nat, contents: map<FileId, seq<int>>, x: nat, y: nat)
    requires |toc| == MAX_TOC_INDEX && 2 <= n < MAX_DLOAD_STAGE
    ensures Session(toc[0 := toc[0].(crc := x)][1 := toc[1].(crc := y)], n, contents) == Session(toc, n, contents)
  {
    hide SitDownload, ImagesSession, Pair, Msg;
    ImagesIgnoreCrcs(toc, 2, n, contents, x, y);
  }

  lemma {:induction false} ImagesIgnoreCrcs(toc: seq<TocElement>, i: nat, n: nat, contents: map<FileId, seq<int>>,
                                            x: nat, y: nat)
    requires |toc| == MAX_TOC_INDEX && 2 <= i <= n < MAX_DLOAD_STAGE
    ensures ImagesSession(toc[0 := toc[0].(crc := x)][1 := toc[1].(crc := y)], i, n, contents)
            == ImagesSession(toc, i, n, contents)
    decreases n - i
  {
    hide SitDownload, Pair, CrcEntries, Msg;
    if i < n {
      ImagesIgnoreCrcs(toc, i + 1, n, contents, x, y);
    }
  }

  // ----- The boot as a whole

  predicate ImageReadable(entry: TocElement, contents: map<FileId, seq<int>>) {
    FileFor(entry.name) in contents && Readable(contents[FileFor(entry.name)], entry.bOffset, entry.size)
  }

  /** Only the stages of TOC and the images download something. */
  lemma ReadableStages(ctl: seq<Control>, toc: seq<TocElement>, numStages: nat, n: nat, contents: map<FileId, seq<int>>)
    requires |toc| == MAX_TOC_INDEX && |ctl| == MAX_DLOAD_STAGE && numStages < MAX_DLOAD_STAGE
    requires WellFormed(toc, numStages, n) && Filled(ctl, toc, n, 1, 0)
    ensures AllReadable(ctl[1..numStages + 1], contents) <==>
            && BIN in contents && Readable(contents[BIN], toc[0].bOffset, toc[0].size)
            && (forall i :: 2 <= i < n ==> ImageReadable(toc[i], contents))
  {
    hide Readable;
    var stages := ctl[1..numStages + 1];
    assert stages[0] == ctl[1];
    assert forall i :: 2 <= i < n ==> stages[i - 1] == ctl[i];
    if AllReadable(stages, contents) {
      forall i | 2 <= i < n ensures ImageReadable(toc[i], contents) {
        assert StageReadable(stages[i - 1], contents);
      }
    }
  }

  /** Build the table, then load: the boot as a whole. Success means the session took place, failure that
      only a beginning of it did, and it succeeds exactly when the modem and the files play along. */
  method Boot(dev: Device, toc: seq<TocElement>, numStages: nat, ghost n: nat, contents: map<FileId, seq<int>>)
    returns (ret: int)
    requires |toc| == MAX_TOC_INDEX && numStages < MAX_DLOAD_STAGE && WellFormed(toc, numStages, n)
    modifies dev
    ensures ret == 0 ==> dev.log == old(dev.log) + Session(toc, n, contents)
    ensures Began(Session(toc, n, contents), old(dev.log), dev.log)
    ensures ret == 0 <==>
            && Follows(old(dev.script), Session(toc, n, contents))
            && BIN in contents && Readable(contents[BIN], toc[0].bOffset, toc[0].size)
            && (forall i :: 2 <= i < n ==> ImageReadable(toc[i], contents))
  {
    hide Stages, Session, Began, AllReadable, ImageReadable, Readable;
    var dlCtrl := new Control[MAX_DLOAD_STAGE];
    BuildStdDloadControl(toc, numStages, 1, 0, dlCtrl);
    ret := LoadCpImages(dev, dlCtrl[..], contents, 1, numStages, 0);
    StagesAreTheSession(dlCtrl[..], toc, numStages, n, contents);
    ReadableStages(dlCtrl[..], toc, numStages, n, contents);
  }
}
