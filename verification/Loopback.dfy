/** The loopback test: cld_sender_loop and cld_reader_loop share an 8-bit sequence window. */
module Loopback {

  type Octet = n: int | 0 <= n < 0x100

  /** The eight bits of a packet number that are sent. */
  function Low(n: nat): Octet { n % 0x100 }

  /** The eight bits a few packets later. */
  lemma LowAfter(n: nat, gap: nat)
    requires gap <= 5
    ensures Low(n + gap) == if Low(n) + gap < 0x100 then Low(n) + gap else Low(n) + gap - 0x100
  {}

  lemma LowNext(n: nat)
    ensures Low(Low(n) + 1) == Low(n + 1)
  {}

  lemma LowSmall(n: nat)
    requires n < 0x100
    ensures Low(n) == n
  {}

  /** seq_diff as it stands. */
  function SeqDiff(a: Octet, b: Octet): int {
    if a >= b then a - b else a + (0xFF - b)
  }

  /** It is the distance modulo 256, but one too low when the sequence has wrapped. */
  lemma SeqDiffMeans(a: Octet, b: Octet)
    ensures SeqDiff(a, b) == (a - b) % 0x100 - if a < b then 1 else 0
  {}

  /** `sent` packets have gone out; `last` is the number of the packet echoed last and `echoed` one more than it,
      except that before the first echo rx_seq is zero already. `checked` is the sender between its
      test and its write, `halted` the sender after it has forced a crash or left. */
  datatype State = State(
    txSeq: Octet, rxSeq: Octet, sent: nat, last: nat, echoed: nat, checked: bool, halted: bool)
  {
    /** How far the sender's next number is ahead of the last echoed one. */
    function Gap(): int { sent - last }

    /** How many packets went out after the last one that was echoed. */
    function Missing(): int { sent - echoed }

    /** How many may be missing before the test fails: one more before the first echo, when the number 0 counts
        as echoed, and across a wrap. */
    function Patience(): int { if echoed == 0 || txSeq < rxSeq then 2 else 1 }
  }

  const INITIAL: State := State(0, 0, 0, 0, 0, false, false)

  datatype Event = Check | Send | Leave | Echo(number: nat)

  /** The modem echoes packets that were sent, in order, and may lose some. */
  predicate Possible(s: State, event: Event) {
    match event
    case Check => !s.checked && !s.halted
    case Send => s.checked && !s.halted
    case Leave => !s.halted
    case Echo(number) => s.echoed <= number < s.sent
  }

  function Next(s: State, event: Event): State
    requires Possible(s, event)
  {
    match event
    case Check => if SeqDiff(s.txSeq, s.rxSeq) > 2 then s.(halted := true) else s.(checked := true)
    case Send => s.(txSeq := Low(s.txSeq + 1), sent := s.sent + 1, checked := false)
    case Leave => s.(halted := true)
    case Echo(number) => s.(rxSeq := Low(number), last := number, echoed := number + 1)
  }

  /** The memory the two loops share. What they do between two accesses of it is one step. */
  class Link {
    var txSeq: Octet
    var rxSeq: Octet
    ghost var sent: nat
    ghost var last: nat
    ghost var echoed: nat
    var checked: bool
    var halted: bool

    ghost function Now(): State
      reads this
    {
      State(txSeq, rxSeq, sent, last, echoed, checked, halted)
    }

    constructor ()
      ensures Now() == INITIAL && Invariant(Now())
    {
      txSeq, rxSeq, checked, halted := 0, 0, false, false;
      sent, last, echoed := 0, 0, 0;
    }

    /** The sender's test. It forces a modem crash exactly when more echoes are missing than it has patience for. */
    method CheckSequence() returns (crash: bool)
      requires Invariant(Now()) && Possible(Now(), Check)
      modifies this
      ensures Invariant(Now()) && Now() == Next(old(Now()), Check)
      ensures crash <==> old(Now().Missing()) > old(Now().Patience())
      ensures if crash then halted else checked && Now().Gap() <= 3
    {
      TestFails(Now());
      StepKeepsInvariant(Now(), Check);
      crash := SeqDiff(txSeq, rxSeq) > 2;
      if crash {
        halted := true;
      } else {
        checked := true;
      }
    }

    /** The packet's number is that of no other packet whose echo may still come. */
    method SendPacket() returns (msgSeq: Octet)
      requires Invariant(Now()) && Possible(Now(), Send)
      modifies this
      ensures Invariant(Now()) && Now() == Next(old(Now()), Send)
      ensures msgSeq == Low(old(sent))
      ensures forall n :: Possible(Now(), Echo(n)) && Low(n) == msgSeq ==> n == old(sent)
    {
      StepKeepsInvariant(Now(), Send);
      msgSeq := txSeq;
      txSeq := Low(txSeq + 1);
      checked := false;
      sent := sent + 1;
      forall n | Possible(Now(), Echo(n)) && Low(n) == msgSeq ensures n == old(sent) {
        EchoTells(Now(), n, old(sent));
      }
    }

    /** The reader sees only eight bits of the number of the packet that is echoed; they tell it. */
    method TakeEcho(msgSeq: Octet) returns (ghost number: nat)
      requires Invariant(Now()) && exists n :: Possible(Now(), Echo(n)) && Low(n) == msgSeq
      modifies this
      ensures Possible(old(Now()), Echo(number)) && Low(number) == msgSeq
      ensures forall n :: Possible(old(Now()), Echo(n)) && Low(n) == msgSeq ==> n == number
      ensures Invariant(Now()) && Now() == Next(old(Now()), Echo(number))
    {
      number :| Possible(Now(), Echo(number)) && Low(number) == msgSeq;
      forall n | Possible(Now(), Echo(n)) && Low(n) == msgSeq ensures n == number {
        EchoTells(Now(), n, number);
      }
      StepKeepsInvariant(Now(), Echo(number));
      rxSeq := msgSeq;
      last, echoed := number, number + 1;
    }
  }

  // ----- What every step keeps

  predicate Invariant(s: State) {
    && s.txSeq == Low(s.sent) && s.rxSeq == Low(s.last)
    && s.last <= s.sent && s.echoed <= s.sent
    && (if s.echoed == 0 then s.last == 0 else s.echoed == s.last + 1)
    && s.Gap() <= 4
    && (s.checked ==> s.Gap() <= 2 || (s.Gap() == 3 && s.txSeq < s.rxSeq))
    && (s.Gap() == 4 ==> s.rxSeq > 0xFC)
  }

  lemma StepKeepsInvariant(s: State, event: Event)
    requires Invariant(s) && Possible(s, event)
    ensures Invariant(Next(s, event))
  {
    hide Low;
    LowAfter(s.last, s.Gap());
    LowAfter(s.sent, 1);
    LowNext(s.sent);
    if event.Echo? {
      LowAfter(event.number, s.sent - event.number);
      if event.number == s.last + 1 { LowAfter(s.last, 1); }
    }
  }

  /** Two packets that may be echoed and share their eight bits are the same. */
  lemma EchoTells(s: State, m: nat, n: nat)
    requires Invariant(s) && Possible(s, Echo(m)) && Possible(s, Echo(n))
    ensures Low(m) == Low(n) <==> m == n
    ensures (Low(m) - s.rxSeq) % 0x100 == m - s.last
  {
    hide Low;
    LowAfter(s.last, m - s.last);
    LowAfter(s.last, n - s.last);
  }

  lemma TestFails(s: State)
    requires Invariant(s)
    ensures SeqDiff(s.txSeq, s.rxSeq) > 2 <==> s.Missing() > s.Patience()
  {
    LowAfter(s.last, s.Gap());
    LowSmall(0);
    hide Low;
  }

  // ----- Runs

  datatype Run = Begin | Then(before: Run, event: Event)

  /** Every event of the run was possible when it happened. */
  predicate Valid(run: Run) {
    run.Then? ==> Valid(run.before) && Possible(After(run.before), run.event)
  }

  function After(run: Run): State {
    match run
    case Begin => INITIAL
    case Then(before, event) => if Possible(After(before), event) then Next(After(before), event) else After(before)
  }

  lemma {:induction false} RunKeepsInvariant(run: Run)
    requires Valid(run)
    ensures Invariant(After(run))
  {
    if run.Then? {
      RunKeepsInvariant(run.before);
      StepKeepsInvariant(After(run.before), run.event);
    }
  }

  /** In every run the sender is at most four ahead of the last echoed number, also by the eight-bit numbers, and
      four only across a wrap; and never more than three echoes are missing. */
  lemma WindowBounded(run: Run)
    requires Valid(run)
    ensures 0 <= After(run).Gap() <= 4 && 0 <= After(run).Missing() <= 3
    ensures (After(run).txSeq - After(run).rxSeq) % 0x100 == After(run).Gap()
    ensures After(run).Gap() == 4 ==> After(run).last / 0x100 < (After(run).sent - 1) / 0x100
  {
    hide Low, Valid, After, Invariant;
    RunKeepsInvariant(run);
    BoundedAt(After(run));
  }

  lemma BoundedAt(s: State)
    requires Invariant(s)
    ensures 0 <= s.Gap() <= 4 && 0 <= s.Missing() <= 3
    ensures (s.txSeq - s.rxSeq) % 0x100 == s.Gap()
    ensures s.Gap() == 4 ==> s.last / 0x100 < (s.sent - 1) / 0x100
  {
    LowAfter(s.last, s.Gap());
    if s.Gap() == 4 { NextRound(s.last); }
    hide Low;
  }

  lemma NextRound(n: nat)
    requires Low(n) > 0xFC
    ensures n / 0x100 < (n + 3) / 0x100
  {}

  /** The eight bits of an echo tell which packet is echoed: no other packet that may be echoed shares them. */
  lemma NumbersNeverAlias(run: Run, m: nat, n: nat)
    requires Valid(run) && Possible(After(run), Echo(m)) && Possible(After(run), Echo(n))
    ensures Low(m) == Low(n) <==> m == n
    ensures (Low(m) - After(run).rxSeq) % 0x100 == m - After(run).last
  {
    RunKeepsInvariant(run);
    EchoTells(After(run), m, n);
  }

  /** In every run, the test forces a crash exactly when two packets were sent after the last echoed one; three
      before the first echo and across a wrap. */
  lemma CrashExactly(run: Run)
    requires Valid(run) && Possible(After(run), Check)
    ensures Next(After(run), Check).halted <==> After(run).Missing() > After(run).Patience()
  {
    RunKeepsInvariant(run);
    TestFails(After(run));
  }

  // ----- Four is reached

  /** Every packet is echoed before the next is sent. */
  function Lockstep(n: nat): Run {
    if n == 0 then Begin else Then(Then(Then(Lockstep(n - 1), Check), Send), Echo(n - 1))
  }

  lemma {:induction false} LockstepState(n: nat)
    ensures Valid(Lockstep(n + 1))
    ensures After(Lockstep(n + 1)) == State(Low(n + 1), Low(n), n + 1, n, n + 1, false, false)
  {
    if n == 0 {
      SilentState(Begin);
      LowSmall(0);
      assert Silent(Begin) == Then(Then(Begin, Check), Send);
      StepState(Silent(Begin), Echo(0));
    } else {
      LockstepState(n - 1);
      var run := Lockstep(n);
      LowAfter(n - 1, 1);
      LowNext(n);
      hide Low;
      SilentState(run);
      StepState(Silent(run), Echo(n));
    }
  }

  lemma StepState(run: Run, event: Event)
    requires Valid(run) && Possible(After(run), event)
    ensures Valid(Then(run, event))
    ensures After(Then(run, event)) == Next(After(run), event)
  {
    hide Low, Next, Possible;
  }

  function Silent(run: Run): Run { Then(Then(run, Check), Send) }

  lemma SilentState(run: Run)
    requires Valid(run) && !After(run).checked && !After(run).halted
    requires SeqDiff(After(run).txSeq, After(run).rxSeq) <= 2
    ensures Valid(Silent(run))
    ensures After(Silent(run)) == After(run).(txSeq := Low(After(run).txSeq + 1), sent := After(run).sent + 1)
  {
    hide Low, SeqDiff, Valid, After;
    StepState(run, Check);
    StepState(Then(run, Check), Send);
  }

  /** 254 packets are echoed and three are not: the third takes the sender four ahead of the last echoed number. */
  lemma FourReached()
    ensures exists run :: Valid(run) && After(run).sent == 257 && After(run).Gap() == 4
  {
    var run := Lockstep(254);
    LockstepState(253);
    LowSmall(254);
    LowSmall(253);
    LowSmall(255);
    hide Silent, Lockstep, Valid, After;
    assert Low(256) == 0;
    assert Low(1) == 1;
    hide Low;
    SilentState(run);
    SilentState(Silent(run));
    SilentState(Silent(Silent(run)));
    assert Valid(Silent(Silent(Silent(run))));
  }

  /** What the test allows where nothing wraps: the sender is at most three ahead of the last echoed number, in all
      runs that send up to n packets. */
  ghost predicate AtMostThree(n: nat) {
    forall run :: Valid(run) && After(run).sent <= n ==> After(run).Gap() <= 3
  }

  /** It holds exactly as long as the eight-bit number has not wrapped. */
  lemma AtMostThreeIff(n: nat)
    ensures AtMostThree(n) <==> n <= 0x100
  {
    if n <= 0x100 {
      forall run | Valid(run) && After(run).sent <= n ensures After(run).Gap() <= 3 {
        WindowBounded(run);
      }
    } else {
      FourReached();
    }
  }
}
