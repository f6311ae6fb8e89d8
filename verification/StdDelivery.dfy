/** What a modem gets out of a whole boot session: the words on the wire, and for every image its own part of its
    own file. */
module StdDelivery {
  import opened Common
  import opened StdProtocol
  import opened StdReceiver
  import opened StdBoot

  // ----- The words on the wire

  /** Every command and reply of the SIT protocol, for each stage but FIN. */
  lemma Words(stage: Nibble)
    requires stage != 0xF
    ensures StartWords(stage) == (0xA100 + stage * 0x10, 0xC100 + stage * 0x10)
    ensures DoneWords(stage, stage) == (0xA00B + stage * 0x10, 0xC00B + stage * 0x10)
    ensures forall boot: nat :: boot != stage ==>
              DoneWords(stage, boot) == (0xA10D + stage * 0x10, 0xC10D + stage * 0x10)
    ensures Msg(AP2CP, DOWNLOAD, stage, DATA) == 0xA10B + stage * 0x10
    ensures Msg(CP2AP, DOWNLOAD, stage, DATA) == 0xC10B + stage * 0x10
    ensures forall crc ::
              CrcEntries(stage, crc) == [Sent(CrcFrame(0xA301 + stage * 0x10, crc)), Received(0xC300 + stage * 0x10)]
  {}

  lemma FinWords()
    ensures StartWords(0xF) == (0xA400, 0xC400)
  {}

  /** The words of the plain protocol. */
  lemma PlainWords(stage: Nibble)
    ensures Plain(PLAIN_AP2CP, stage, PLAIN_SEND) == 0x9001 + stage * 0x100
    ensures Plain(PLAIN_CP2AP, stage, PLAIN_SEND) == 0xA001 + stage * 0x100
  {}

  /** What is left of BOOT, whose image went another way: its slot says READY. */
  lemma BootStage(toc: seq<TocElement>, contents: map<FileId, seq<int>>)
    requires |toc| == MAX_TOC_INDEX
    ensures Stage(BootControl(toc, 0), contents, 0) == Pair(0xA00B, 0xC00B)
  {}

  /** Everything exchanged for one image; only MAIN has its CRC checked. */
  lemma ImageSessionMeans(toc: seq<TocElement>, i: Nibble, contents: map<FileId, seq<int>>)
    requires |toc| == MAX_TOC_INDEX && 2 <= i < MAX_DLOAD_STAGE
    ensures ImageSession(toc, i, contents) ==
            Pair(0xA100 + i * 0x10, 0xC100 + i * 0x10)
            + (ImageData(toc, i, contents)
            + ((if toc[i].name == "MAIN" then
                  [Sent(CrcFrame(0xA301 + i * 0x10, toc[i].crc)), Received(0xC300 + i * 0x10)]
                else [])
            + Pair(0xA10D + i * 0x10, 0xC10D + i * 0x10)))
  {
    Words(i);
    ImageWords(i);
    hide Msg, SitDownload, Region;
  }

  // ----- The data of one stage

  /** The payload of this stage, or the acknowledgement of one. */
  predicate IsData(entry: Entry, stage: Nibble) {
    match entry
    case Sent(Payload(cmd, _, _, _, _)) => cmd == 0xA10B + stage * 0x10
    case Received(word) => word == 0xC10B + stage * 0x10
    case _ => false
  }

  /** What a modem keeps of the session when it listens for the data of one stage. */
  function DataOf(entries: seq<Entry>, stage: Nibble): seq<Entry> {
    if entries == [] then []
    else (if IsData(entries[0], stage) then [entries[0]] else []) + DataOf(entries[1..], stage)
  }

  lemma {:induction false} DataConcat(a: seq<Entry>, b: seq<Entry>, stage: Nibble)
    ensures DataOf(a + b, stage) == DataOf(a, stage) + DataOf(b, stage)
    decreases |a|
  {
    hide IsData;
    if a == [] {
      assert a + b == b;
    } else {
      assert (a + b)[1..] == a[1..] + b && (a + b)[0] == a[0];
      DataConcat(a[1..], b, stage);
      Associated(if IsData(a[0], stage) then [a[0]] else [], DataOf(a[1..], stage), DataOf(b, stage));
    }
  }

  lemma Associated(a: seq<Entry>, b: seq<Entry>, c: seq<Entry>)
    ensures a + (b + c) == (a + b) + c
  {}

  lemma TwoEntries(a: Entry, b: Entry, stage: Nibble)
    ensures DataOf([a, b], stage) ==
            (if IsData(a, stage) then [a] else []) + (if IsData(b, stage) then [b] else [])
  {
    hide IsData;
    assert [a, b][1..] == [b] && [b][1..] == [];
    assert DataOf([b], stage) == (if IsData(b, stage) then [b] else []) + [];
  }

  lemma NoDataInPair(req: nat, exp: nat, stage: Nibble)
    requires exp != 0xC10B + stage * 0x10
    ensures DataOf(Pair(req, exp), stage) == []
  {
    TwoEntries(Sent(Command(req)), Received(exp), stage);
  }

  lemma NoDataInCrc(i: Nibble, crc: nat, stage: Nibble)
    requires i != 0xF
    ensures DataOf(CrcEntries(i, crc), stage) == []
  {
    Words(i);
    hide Msg;
    TwoEntries(Sent(CrcFrame(0xA301 + i * 0x10, crc)), Received(0xC300 + i * 0x10), stage);
  }

  lemma {:induction false} DataOfDownload(i: Nibble, total: nat, rest: seq<int>, stage: Nibble)
    requires |rest| <= total && i != 0xF
    ensures DataOf(SitDownload(i, total, rest), stage) == if i == stage then SitDownload(i, total, rest) else []
    decreases |rest|
  {
    hide SitDownload, Msg;
    if rest == [] {
      NoSegments(i, total);
    } else {
      var len := if |rest| < MSS then |rest| else MSS;
      FirstSegment(i, total, rest);
      var entries := SitDownload(i, total, rest);
      DataOfDownload(i, total, rest[len..], stage);
      Words(i);
      TwoEntries(entries[0], entries[1], stage);
      assert entries == [entries[0], entries[1]] + entries[2..];
      DataConcat([entries[0], entries[1]], entries[2..], stage);
    }
  }

  // ----- The data of one stage in the whole session

  function ImageData(toc: seq<TocElement>, i: Nibble, contents: map<FileId, seq<int>>): seq<Entry>
    requires |toc| == MAX_TOC_INDEX
  {
    SitDownload(i, toc[i].size, Region(Files(contents, FileFor(toc[i].name)), toc[i].bOffset, toc[i].size))
  }

  lemma DataOfImage(toc: seq<TocElement>, i: Nibble, contents: map<FileId, seq<int>>, stage: Nibble)
    requires |toc| == MAX_TOC_INDEX && i != 0xF
    ensures DataOf(ImageSession(toc, i, contents), stage) == if i == stage then ImageData(toc, i, contents) else []
  {
    Words(i);
    hide SitDownload, Region, Pair, CrcEntries, DataOf, Msg;
    var start := Pair(Msg(AP2CP, DOWNLOAD, i, START), Msg(CP2AP, DOWNLOAD, i, START));
    var done := Pair(Msg(AP2CP, DOWNLOAD, i, DONE), Msg(CP2AP, DOWNLOAD, i, DONE));
    var crc := if toc[i].name == "MAIN" then CrcEntries(i, toc[i].crc) else [];
    var data := ImageData(toc, i, contents);
    ImageWords(i);
    NoDataInPair(Msg(AP2CP, DOWNLOAD, i, START), Msg(CP2AP, DOWNLOAD, i, START), stage);
    NoDataInPair(Msg(AP2CP, DOWNLOAD, i, DONE), Msg(CP2AP, DOWNLOAD, i, DONE), stage);
    NoDataInCrc(i, toc[i].crc, stage);
    NothingOf(stage);
    DataOfDownload(i, toc[i].size, Region(Files(contents, FileFor(toc[i].name)), toc[i].bOffset, toc[i].size), stage);
    DataConcat(crc, done, stage);
    DataConcat(data, crc + done, stage);
    DataConcat(start, data + (crc + done), stage);
    assert DataOf(data, stage) + [] == DataOf(data, stage);
  }

  lemma NothingOf(stage: Nibble)
    ensures DataOf([], stage) == []
  {}

  lemma ImageWords(i: Nibble)
    ensures Msg(AP2CP, DOWNLOAD, i, START) == 0xA100 + i * 0x10 && Msg(CP2AP, DOWNLOAD, i, START) == 0xC100 + i * 0x10
    ensures Msg(AP2CP, DOWNLOAD, i, DONE) == 0xA10D + i * 0x10 && Msg(CP2AP, DOWNLOAD, i, DONE) == 0xC10D + i * 0x10
    ensures Msg(CP2AP, FINALIZE, NONE_TOC, PASS) == 0xC400
  {}

  lemma {:induction false} DataOfImages(toc: seq<TocElement>, i: nat, n: nat, contents: map<FileId, seq<int>>,
                                        stage: Nibble)
    requires |toc| == MAX_TOC_INDEX && i <= n < MAX_DLOAD_STAGE
    ensures DataOf(ImagesSession(toc, i, n, contents), stage) ==
            if i <= stage < n then ImageData(toc, stage, contents) else []
    decreases n - i
  {
    hide ImageSession, ImageData, DataOf, Pair, Msg;
    if i == n {
      ImageWords(0);
      NoDataInPair(Msg(AP2CP, FINALIZE, NONE_TOC, PASS), Msg(CP2AP, FINALIZE, NONE_TOC, PASS), stage);
    } else {
      DataOfImage(toc, i, contents, stage);
      DataOfImages(toc, i + 1, n, contents, stage);
      DataConcat(ImageSession(toc, i, contents), ImagesSession(toc, i + 1, n, contents), stage);
    }
  }

  lemma DataOfSession(toc: seq<TocElement>, n: nat, contents: map<FileId, seq<int>>, stage: Nibble)
    requires |toc| == MAX_TOC_INDEX && 2 <= n < MAX_DLOAD_STAGE
    ensures 2 <= stage < n ==> DataOf(Session(toc, n, contents), stage) == ImageData(toc, stage, contents)
    ensures DataOf(Session(toc, n, contents), 1) ==
            SitDownload(1, toc[0].size, Region(Files(contents, BIN), toc[0].bOffset, toc[0].size))
  {
    TocPart(toc, contents, 1);
    TocPart(toc, contents, stage);
    hide SitDownload, Region, Pair, ImagesSession, ImageData, DataOf, Msg;
    DataOfImages(toc, 2, n, contents, stage);
    DataOfImages(toc, 2, n, contents, 1);
    DataConcat(TocSession(toc, contents), ImagesSession(toc, 2, n, contents), stage);
    DataConcat(TocSession(toc, contents), ImagesSession(toc, 2, n, contents), 1);
  }

  function TocSession(toc: seq<TocElement>, contents: map<FileId, seq<int>>): seq<Entry>
    requires |toc| == MAX_TOC_INDEX
  {
    Pair(Msg(AP2CP, DOWNLOAD, 1, START), Msg(CP2AP, DOWNLOAD, 1, START))
    + (SitDownload(1, toc[0].size, Region(Files(contents, BIN), toc[0].bOffset, toc[0].size))
    + Pair(Msg(AP2CP, DOWNLOAD, 1, DONE), Msg(CP2AP, DOWNLOAD, 1, DONE)))
  }

  lemma TocPart(toc: seq<TocElement>, contents: map<FileId, seq<int>>, stage: Nibble)
    requires |toc| == MAX_TOC_INDEX
    ensures var data := SitDownload(1, toc[0].size, Region(Files(contents, BIN), toc[0].bOffset, toc[0].size));
            DataOf(TocSession(toc, contents), stage) == if stage == 1 then data else []
  {
    hide SitDownload, Region, Pair, DataOf, Msg;
    var start := Pair(Msg(AP2CP, DOWNLOAD, 1, START), Msg(CP2AP, DOWNLOAD, 1, START));
    var done := Pair(Msg(AP2CP, DOWNLOAD, 1, DONE), Msg(CP2AP, DOWNLOAD, 1, DONE));
    var region := Region(Files(contents, BIN), toc[0].bOffset, toc[0].size);
    ImageWords(1);
    NoDataInPair(Msg(AP2CP, DOWNLOAD, 1, START), Msg(CP2AP, DOWNLOAD, 1, START), stage);
    NoDataInPair(Msg(AP2CP, DOWNLOAD, 1, DONE), Msg(CP2AP, DOWNLOAD, 1, DONE), stage);
    DataOfDownload(1, toc[0].size, region, stage);
    DataConcat(SitDownload(1, toc[0].size, region), done, stage);
    DataConcat(start, SitDownload(1, toc[0].size, region) + done, stage);
    var data := DataOf(SitDownload(1, toc[0].size, region), stage);
    assert data + [] == data;
  }

  // ----- What arrives

  /** A modem that listens for this stage has this part of this file. */
  ghost predicate Delivered(entries: seq<Entry>, stage: Nibble, contents: map<FileId, seq<int>>, file: FileId,
                            bOffset: nat, size: nat)
  {
    && file in contents && bOffset + size <= |contents[file]|
    && ReassembleSit(DataOf(entries, stage), stage, size, []) == Some(contents[file][bOffset..bOffset + size])
  }

  lemma DownloadArrives(entries: seq<Entry>, stage: Nibble, contents: map<FileId, seq<int>>, file: FileId,
                        bOffset: nat, size: nat)
    requires file in contents && size > 0 && Readable(contents[file], bOffset, size)
    requires DataOf(entries, stage) == SitDownload(stage, size, Region(Files(contents, file), bOffset, size))
    ensures Delivered(entries, stage, contents, file, bOffset, size)
  {
    hide ReassembleSit, SitDownload, Region, DataOf;
    SitDownloadDelivers(stage, contents[file], bOffset, size);
  }

  /** After the session, which is what a successful boot has exchanged, the modem has for each image the part that
      the table of contents names: of the NV file for NV and NV_NORM, of the protected one for NV_PROT, and of
      the binary for TOC and all others. */
  lemma SessionDelivers(toc: seq<TocElement>, n: nat, contents: map<FileId, seq<int>>)
    requires |toc| == MAX_TOC_INDEX && 2 <= n < MAX_DLOAD_STAGE
    requires BIN in contents && Readable(contents[BIN], toc[0].bOffset, toc[0].size)
    requires forall i :: 2 <= i < n ==> ImageReadable(toc[i], contents)
    ensures toc[0].size > 0 ==> Delivered(Session(toc, n, contents), 1, contents, BIN, toc[0].bOffset, toc[0].size)
    ensures forall i: Nibble :: 2 <= i < n && toc[i].size > 0 && (toc[i].name == "NV" || toc[i].name == "NV_NORM") ==>
              Delivered(Session(toc, n, contents), i, contents, NV, toc[i].bOffset, toc[i].size)
    ensures forall i: Nibble :: 2 <= i < n && toc[i].size > 0 && toc[i].name == "NV_PROT" ==>
              Delivered(Session(toc, n, contents), i, contents, NV_PROT, toc[i].bOffset, toc[i].size)
    ensures forall i: Nibble :: 2 <= i < n && toc[i].size > 0 &&
                                toc[i].name != "NV" && toc[i].name != "NV_NORM" && toc[i].name != "NV_PROT" ==>
              Delivered(Session(toc, n, contents), i, contents, BIN, toc[i].bOffset, toc[i].size)
  {
    hide Session, Delivered, SitDownload, Region, DataOf, Readable;
    DataOfSession(toc, n, contents, 1);
    if toc[0].size > 0 {
      DownloadArrives(Session(toc, n, contents), 1, contents, BIN, toc[0].bOffset, toc[0].size);
    }
    forall i: Nibble | 2 <= i < n && toc[i].size > 0
      ensures Delivered(Session(toc, n, contents), i, contents, FileFor(toc[i].name), toc[i].bOffset, toc[i].size)
    {
      DataOfSession(toc, n, contents, i);
      assert ImageReadable(toc[i], contents);
      DownloadArrives(Session(toc, n, contents), i, contents, FileFor(toc[i].name), toc[i].bOffset, toc[i].size);
    }
  }
}
