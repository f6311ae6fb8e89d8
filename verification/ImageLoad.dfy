/** Loading the CP image through the kernel in pieces of 62 KiB: load_cp_image_by_stage and load_cp_images. */
module ImageLoad {
  import opened Common

  type Byte = bv8

  const PAYLOAD_LEN: nat := 62 * 1024

  /** The boot modes do not matter to what is loaded, so a load is its place and its bytes. */
  datatype Load = Load(mOffset: nat, data: seq<Byte>)

  /** One entry of the download control table with its open file. */
  datatype Stage = Stage(file: seq<Byte>, size: nat, bOffset: nat, mOffset: nat, dlOnce: bool) {
    /** The part of the announced region that the file really holds. */
    function Available(): seq<Byte> {
      if bOffset >= |file| then []
      else if bOffset + size <= |file| then file[bOffset..bOffset + size]
      else file[bOffset..]
    }

    /** The file holds the whole region. */
    predicate Readable() { size == 0 || bOffset + size <= |file| }
  }

  /** The pieces of a region: full ones, then one that is shorter, maybe empty. */
  function Pieces(region: seq<Byte>, mOffset: nat): seq<Load> {
    if |region| < PAYLOAD_LEN then [Load(mOffset, region)]
    else [Load(mOffset, region[..PAYLOAD_LEN])] + Pieces(region[PAYLOAD_LEN..], mOffset + PAYLOAD_LEN)
  }

  /** One piece for every full 62 KiB, and a last one. */
  function PieceCount(size: nat): nat { size / PAYLOAD_LEN + 1 }

  lemma {:induction false} PiecesCounted(region: seq<Byte>, mOffset: nat)
    ensures |Pieces(region, mOffset)| == PieceCount(|region|) == |region| / 63488 + 1
    decreases |region|
  {
    if |region| >= PAYLOAD_LEN {
      PiecesCounted(region[PAYLOAD_LEN..], mOffset + PAYLOAD_LEN);
    }
  }

  lemma FullPieces(count: nat, size: nat)
    requires count * PAYLOAD_LEN <= size < count * PAYLOAD_LEN + PAYLOAD_LEN
    ensures size / PAYLOAD_LEN == count
  {}

  // ----- Memory

  /** `data` written at an address; every other address keeps its byte. */
  function Put(memory: map<nat, Byte>, at: nat, data: seq<Byte>): map<nat, Byte> {
    memory + map a: nat | at <= a < at + |data| :: ByteFor(data, at, a)
  }

  function ByteFor(data: seq<Byte>, at: nat, a: nat): Byte
    requires at <= a < at + |data|
  {
    data[a - at]
  }

  lemma PutAt(memory: map<nat, Byte>, at: nat, data: seq<Byte>, a: nat)
    ensures a in Put(memory, at, data) <==> a in memory || at <= a < at + |data|
    ensures a in Put(memory, at, data) ==>
            Put(memory, at, data)[a] == if at <= a < at + |data| then data[a - at] else memory[a]
  {}

  lemma PutConcat(memory: map<nat, Byte>, at: nat, first: seq<Byte>, second: seq<Byte>)
    ensures Put(Put(memory, at, first), at + |first|, second) == Put(memory, at, first + second)
  {}

  function Apply(memory: map<nat, Byte>, loads: seq<Load>): map<nat, Byte>
    decreases |loads|
  {
    if loads == [] then memory else Apply(Put(memory, loads[0].mOffset, loads[0].data), loads[1..])
  }

  lemma {:induction false} ApplyConcat(memory: map<nat, Byte>, first: seq<Load>, second: seq<Load>)
    ensures Apply(memory, first + second) == Apply(Apply(memory, first), second)
    decreases |first|
  {
    if first == [] {
      assert first + second == second;
    } else {
      assert (first + second)[1..] == first[1..] + second;
      ApplyConcat(Put(memory, first[0].mOffset, first[0].data), first[1..], second);
    }
  }

  /** The pieces together put the region where it belongs and touch nothing else. */
  lemma {:induction false} PiecesPutRegion(memory: map<nat, Byte>, region: seq<Byte>, mOffset: nat)
    ensures Apply(memory, Pieces(region, mOffset)) == Put(memory, mOffset, region)
    decreases |region|
  {
    hide Put;
    if |region| < PAYLOAD_LEN {
      assert Apply(Put(memory, mOffset, region), []) == Put(memory, mOffset, region);
    } else {
      var first, rest := region[..PAYLOAD_LEN], region[PAYLOAD_LEN..];
      var pieces := Pieces(rest, mOffset + PAYLOAD_LEN);
      assert ([Load(mOffset, first)] + pieces)[1..] == pieces;
      PiecesPutRegion(Put(memory, mOffset, first), rest, mOffset + PAYLOAD_LEN);
      PutConcat(memory, mOffset, first, rest);
      assert first + rest == region;
    }
  }

  // ----- A stage

  /** What a stage that succeeds asks the kernel to load. */
  function StageLoads(stage: Stage, firstXmitDone: char): seq<Load> {
    if (stage.dlOnce && firstXmitDone == '1') || stage.size == stage.bOffset then []
    else Pieces(stage.Available(), stage.mOffset)
  }

  /** Only the driver can still refuse this stage. */
  predicate Fine(stage: Stage, firstXmitDone: char) {
    || (stage.dlOnce && firstXmitDone == '1')
    || (Seekable(stage.bOffset) && (stage.size == stage.bOffset || stage.Readable()))
  }

  /** The stage does what its table entry says: unless the driver refuses, it succeeds, and has put its whole
      region at its memory offset, whatever the memory held. */
  ghost predicate LoadsRegion(stage: Stage, firstXmitDone: char) {
    && Fine(stage, firstXmitDone) && stage.Readable()
    && forall memory ::
         Apply(memory, StageLoads(stage, firstXmitDone)) == Put(memory, stage.mOffset, stage.Available())
  }

  /** It does so exactly for a region that can be found and read, and is not skipped with something to load.  A
      stage is skipped when it went out before, but also when its size happens to be its file offset. */
  lemma RegionLoaded(stage: Stage, firstXmitDone: char)
    ensures LoadsRegion(stage, firstXmitDone) <==>
            && stage.Readable()
            && if stage.dlOnce && firstXmitDone == '1' then stage.size == 0
               else Seekable(stage.bOffset) && (stage.size == 0 || stage.size != stage.bOffset)
  {
    var loads, region := StageLoads(stage, firstXmitDone), stage.Available();
    if !stage.Readable() {
    } else if loads == [] {
      assert |region| == stage.size;
      var memory: map<nat, Byte> := map[];
      if stage.size > 0 {
        assert stage.mOffset in Put(memory, stage.mOffset, region);
        assert Apply(memory, loads) == memory;
      } else {
        forall memory ensures Apply(memory, loads) == Put(memory, stage.mOffset, region) {}
      }
    } else {
      forall memory ensures Apply(memory, loads) == Put(memory, stage.mOffset, region) {
        PiecesPutRegion(memory, region, stage.mOffset);
      }
    }
  }

  /** Shows the case that is lost: sixteen bytes at file offset 16 are never loaded, and the stage succeeds. */
  lemma SixteenAtSixteen(file: seq<Byte>)
    requires |file| == 32
    ensures var stage := Stage(file, 16, 16, 0, false);
            Fine(stage, '0') && StageLoads(stage, '0') == [] && !LoadsRegion(stage, '0')
  {
    RegionLoaded(Stage(file, 16, 16, 0, false), '0');
  }

  /** Sixteen bytes at file offset 2^31 are not found. */
  lemma TooFarToSeek(file: seq<Byte>)
    ensures var stage := Stage(file, 16, TWO_31, 0, false);
            !Fine(stage, '0') && !LoadsRegion(stage, '0')
  {
    RegionLoaded(Stage(file, 16, TWO_31, 0, false), '0');
  }

  // ----- All stages

  function AllLoads(stages: seq<Stage>, firstXmitDone: char): seq<Load> {
    if stages == [] then [] else StageLoads(stages[0], firstXmitDone) + AllLoads(stages[1..], firstXmitDone)
  }

  lemma NoStages(firstXmitDone: char)
    ensures AllLoads([], firstXmitDone) == []
  {}

  lemma FirstStage(stages: seq<Stage>, firstXmitDone: char)
    requires stages != []
    ensures AllLoads(stages, firstXmitDone) ==
            StageLoads(stages[0], firstXmitDone) + AllLoads(stages[1..], firstXmitDone)
  {}

  lemma StageNeeds(stage: Stage, firstXmitDone: char)
    ensures stage.dlOnce && firstXmitDone == '1' ==>
            Fine(stage, firstXmitDone) && StageLoads(stage, firstXmitDone) == []
    ensures !(stage.dlOnce && firstXmitDone == '1') ==>
            && (Fine(stage, firstXmitDone) <==>
                Seekable(stage.bOffset) && (stage.size == stage.bOffset || stage.Readable()))
            && StageLoads(stage, firstXmitDone) ==
               if stage.size == stage.bOffset then [] else Pieces(stage.Available(), stage.mOffset)
    ensures |Pieces(stage.Available(), stage.mOffset)| == PieceCount(|stage.Available()|)
    ensures |stage.Available()| == stage.size <==> stage.Readable()
  {
    PiecesCounted(stage.Available(), stage.mOffset);
    AvailableSize(stage);
  }

  function After(memory: map<nat, Byte>, stage: Stage, firstXmitDone: char): map<nat, Byte> {
    if StageLoads(stage, firstXmitDone) == [] then memory else Put(memory, stage.mOffset, stage.Available())
  }

  /** What the table asks for: the regions of the stages that are loaded, each at its place, later ones on top. */
  function Images(memory: map<nat, Byte>, stages: seq<Stage>, firstXmitDone: char): map<nat, Byte>
    decreases |stages|
  {
    if stages == [] then memory
    else Images(After(memory, stages[0], firstXmitDone), stages[1..], firstXmitDone)
  }

  /** All the requests together put all the images into memory and touch nothing else. */
  lemma {:induction false} AllLoadsPutImages(memory: map<nat, Byte>, stages: seq<Stage>, firstXmitDone: char)
    ensures Apply(memory, AllLoads(stages, firstXmitDone)) == Images(memory, stages, firstXmitDone)
    decreases |stages|
  {
    if stages != [] {
      var loads, rest := StageLoads(stages[0], firstXmitDone), AllLoads(stages[1..], firstXmitDone);
      ApplyConcat(memory, loads, rest);
      if loads == [] {
        AllLoadsPutImages(memory, stages[1..], firstXmitDone);
      } else {
        PiecesPutRegion(memory, stages[0].Available(), stages[0].mOffset);
        AllLoadsPutImages(Put(memory, stages[0].mOffset, stages[0].Available()), stages[1..], firstXmitDone);
      }
    }
  }

  /** The address is not written by this stage. */
  predicate Outside(stage: Stage, firstXmitDone: char, a: nat) {
    StageLoads(stage, firstXmitDone) != [] ==>
      a < stage.mOffset || stage.mOffset + |stage.Available()| <= a
  }

  lemma AfterAt(memory: map<nat, Byte>, stage: Stage, firstXmitDone: char, a: nat)
    ensures Outside(stage, firstXmitDone, a) ==>
            && (a in After(memory, stage, firstXmitDone) <==> a in memory)
            && (a in memory ==> After(memory, stage, firstXmitDone)[a] == memory[a])
    ensures !Outside(stage, firstXmitDone, a) ==>
            && a in After(memory, stage, firstXmitDone)
            && stage.mOffset <= a < stage.mOffset + |stage.Available()|
            && After(memory, stage, firstXmitDone)[a] == stage.Available()[a - stage.mOffset]
  {
    hide StageLoads, Stage.Available, Put;
    PutAt(memory, stage.mOffset, stage.Available(), a);
  }

  lemma {:induction false} OutsideKept(memory: map<nat, Byte>, stages: seq<Stage>, firstXmitDone: char, a: nat)
    requires forall i :: 0 <= i < |stages| ==> Outside(stages[i], firstXmitDone, a)
    ensures a in Images(memory, stages, firstXmitDone) <==> a in memory
    ensures a in memory ==> Images(memory, stages, firstXmitDone)[a] == memory[a]
    decreases |stages|
  {
    hide Outside, After, Stage.Available;
    if stages != [] {
      AfterAt(memory, stages[0], firstXmitDone, a);
      OutsideKept(After(memory, stages[0], firstXmitDone), stages[1..], firstXmitDone, a);
    }
  }

  /** After the boot, an address holds the byte of the last stage that covers it. */
  lemma {:induction false} ImageInPlace(memory: map<nat, Byte>, stages: seq<Stage>, firstXmitDone: char, i: nat, a: nat)
    requires i < |stages| && !Outside(stages[i], firstXmitDone, a)
    requires forall j :: i < j < |stages| ==> Outside(stages[j], firstXmitDone, a)
    ensures stages[i].mOffset <= a < stages[i].mOffset + |stages[i].Available()|
    ensures a in Images(memory, stages, firstXmitDone)
    ensures Images(memory, stages, firstXmitDone)[a] == stages[i].Available()[a - stages[i].mOffset]
    decreases |stages|
  {
    hide Outside, After, Stage.Available;
    AfterAt(memory, stages[0], firstXmitDone, a);
    if i == 0 {
      OutsideKept(After(memory, stages[0], firstXmitDone), stages[1..], firstXmitDone, a);
    } else {
      ImageInPlace(After(memory, stages[0], firstXmitDone), stages[1..], firstXmitDone, i - 1, a);
    }
  }

  lemma PrefixOfPrefix(a: seq<Load>, b: seq<Load>, c: seq<Load>)
    requires a <= b <= c
    ensures a <= c
  {}

  /** One stage that fails after others that were loaded makes the whole loop fail. */
  lemma CannotLoad(table: seq<Stage>, start: nat, num: nat, stage: nat, firstXmitDone: char, patience: nat,
                   done: seq<Load>)
    requires start <= stage <= num < |table|
    requires AllLoads(table[start..num + 1], firstXmitDone) == done + AllLoads(table[stage..num + 1], firstXmitDone)
    requires |StageLoads(table[stage], firstXmitDone)| > patience - |done| || !Fine(table[stage], firstXmitDone)
    ensures |AllLoads(table[start..num + 1], firstXmitDone)| > patience ||
            exists i :: start <= i <= num && !Fine(table[i], firstXmitDone)
  {
    hide StageLoads, AllLoads, Fine;
    FirstStage(table[stage..num + 1], firstXmitDone);
  }

  // ----- The loops

  /** What read delivers. */
  function ReadAt(file: seq<Byte>, at: nat, len: nat): seq<Byte> {
    if at >= |file| then [] else file[at..Min(at + len, |file|)]
  }

  lemma ReadWithin(stage: Stage, total: nat, len: nat)
    requires total <= |stage.Available()| && total + len <= stage.size
    ensures |ReadAt(stage.file, stage.bOffset + total, len)| == len <==> total + len <= |stage.Available()|
    ensures total + len <= |stage.Available()| ==>
            ReadAt(stage.file, stage.bOffset + total, len) == stage.Available()[total..total + len]
  {
    var at, got, all := stage.bOffset + total, ReadAt(stage.file, stage.bOffset + total, len), stage.Available();
    if total + len <= |all| && len > 0 {
      assert got == stage.file[at..at + len];
      forall i | 0 <= i < len
        ensures got[i] == all[total..total + len][i]
      {
        assert all[total + i] == stage.file[at + i];
      }
    }
  }

  lemma AvailableSize(stage: Stage)
    ensures |stage.Available()| <= stage.size
    ensures |stage.Available()| == stage.size <==> stage.Readable()
  {}

  /** One turn of the loop takes one piece off what remains. */
  lemma NextPiece(region: seq<Byte>, mOffset: nat, total: nat, len: nat, size: nat)
    requires total + len <= |region| <= size
    requires if size - total < PAYLOAD_LEN then len == size - total else len == PAYLOAD_LEN
    ensures Pieces(region[total..], mOffset) == [Load(mOffset, region[total..total + len])] +
            if size - total < PAYLOAD_LEN then [] else Pieces(region[total + len..], mOffset + len)
  {
    if size - total < PAYLOAD_LEN {
      assert region[total..] == region[total..total + len];
    } else {
      assert region[total..][..len] == region[total..total + len];
      assert region[total..][len..] == region[total + len..];
    }
  }


  function Min(a: nat, b: nat): nat { if a < b then a else b }

  class Kernel {
    /** The requests that the driver accepted. */
    var loads: seq<Load>
    /** How many more reads and load requests will succeed before one fails. */
    var patience: nat
    /** The property that tells whether a boot went through before. */
    var firstXmitDone: char

    /** load_cp_image_by_stage. A failed stage has made the requests before the one that failed. */
    method LoadCpImageByStage(stage: Stage) returns (ok: bool)
      modifies this
      ensures firstXmitDone == old(firstXmitDone)
      ensures ok <==>
              && Seekable(stage.bOffset)
              && (stage.size == stage.bOffset || (stage.Readable() && PieceCount(stage.size) <= old(patience)))
      ensures ok && stage.size == stage.bOffset ==> loads == old(loads) && patience == old(patience)
      ensures ok && stage.size != stage.bOffset ==>
              loads == old(loads) + Pieces(stage.Available(), stage.mOffset) &&
              patience == old(patience) - PieceCount(stage.size)
      ensures !ok && !Seekable(stage.bOffset) ==> loads == old(loads)
      ensures !ok && Seekable(stage.bOffset) ==>
              var made := Min(old(patience), |stage.Available()| / PAYLOAD_LEN);
              made < |Pieces(stage.Available(), stage.mOffset)| &&
              loads == old(loads) + Pieces(stage.Available(), stage.mOffset)[..made]
    {
      hide Pieces, ReadAt;
      if stage.bOffset >= TWO_31 { return false; }
      ghost var region := stage.Available();
      ghost var pieces := Pieces(region, stage.mOffset);
      ghost var made: seq<Load> := [];
      PiecesCounted(region, stage.mOffset);
      AvailableSize(stage);
      assert region[0..] == region;
      hide Stage.Available, Stage.Readable;
      var total: nat, mOffset: nat, len: nat, last := 0, stage.mOffset, PAYLOAD_LEN, false;
      while true
        invariant firstXmitDone == old(firstXmitDone)
        invariant total == |made| * PAYLOAD_LEN && total <= |region|
        invariant !last && len == PAYLOAD_LEN
        invariant pieces == made + Pieces(region[total..], mOffset)
        invariant loads == old(loads) + made
        invariant |made| <= old(patience) && patience == old(patience) - |made|
        invariant stage.size == stage.bOffset ==> made == []
        decreases stage.size - total
      {
        if stage.size == stage.bOffset { return true; }
        if stage.size - total < PAYLOAD_LEN {
          len := stage.size - total;
          last := true;
          FullPieces(|made|, stage.size);
        }
        PiecesCounted(region[total..], mOffset);
        var data := ReadAt(stage.file, stage.bOffset + total, len);
        ReadWithin(stage, total, len);
        if |data| != len {
          FullPieces(|made|, |region|);
          return false;
        }
        NextPiece(region, mOffset, total, len, stage.size);
        if patience == 0 { return false; }
        patience := patience - 1;
        loads := loads + [Load(mOffset, data)];
        made := made + [Load(mOffset, data)];
        if last { return true; }
        total := total + len;
        mOffset := mOffset + len;
      }
    }

    /** One turn of the loop of load_cp_images: skip the stage or load it. */
    method LoadOrSkip(stage: Stage) returns (ok: bool)
      modifies this
      ensures firstXmitDone == old(firstXmitDone)
      ensures ok <==> Fine(stage, firstXmitDone) && |StageLoads(stage, firstXmitDone)| <= old(patience)
      ensures ok ==>
              && loads == old(loads) + StageLoads(stage, firstXmitDone)
              && patience == old(patience) - |StageLoads(stage, firstXmitDone)|
      ensures old(loads) <= loads
    {
      hide Pieces, StageLoads, Stage.Available, Stage.Readable, Fine;
      StageNeeds(stage, firstXmitDone);
      if stage.dlOnce && firstXmitDone == '1' {
        return true;
      }
      ok := LoadCpImageByStage(stage);
    }

    /** load_cp_images on the table entries start..num. A failure leaves the property as it was. */
    method LoadCpImages(table: seq<Stage>, start: nat, num: nat) returns (ret: Option<int>)
      requires start <= num + 1 <= |table|
      modifies this
      ensures ret.Some? <==>
              && (forall i :: start <= i <= num ==> Fine(table[i], old(firstXmitDone)))
              && |AllLoads(table[start..num + 1], old(firstXmitDone))| <= old(patience)
      ensures ret.Some? ==> loads == old(loads) + AllLoads(table[start..num + 1], old(firstXmitDone))
      ensures ret.Some? ==> ret.value == old(firstXmitDone) as int - '0' as int && firstXmitDone == '1'
      ensures ret.None? ==> firstXmitDone == old(firstXmitDone) && old(loads) <= loads
    {
      hide StageLoads, AllLoads, Fine;
      ghost var before := firstXmitDone;
      ghost var all := AllLoads(table[start..num + 1], before);
      ghost var done: seq<Load> := [];
      var stage: nat := start;
      while stage < num + 1
        invariant start <= stage <= num + 1
        invariant firstXmitDone == before
        invariant forall i :: start <= i < stage ==> Fine(table[i], before)
        invariant all == done + AllLoads(table[stage..num + 1], before)
        invariant loads == old(loads) + done && patience == old(patience) - |done|
      {
        FirstStage(table[stage..num + 1], before);
        assert table[stage..num + 1][1..] == table[stage + 1..num + 1];
        ghost var soFar := loads;
        var ok := LoadOrSkip(table[stage]);
        if !ok {
          PrefixOfPrefix(old(loads), soFar, loads);
          CannotLoad(table, start, num, stage, before, old(patience), done);
          return None;
        }
        done := done + StageLoads(table[stage], before);
        stage := stage + 1;
      }
      NoStages(before);
      assert table[stage..num + 1] == [];
      ret := Some(firstXmitDone as int - '0' as int);
      firstXmitDone := '1';
    }
  }
}
