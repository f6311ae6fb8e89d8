/** organize_dump_files: the ring of 21 crash dump directories. */
module DumpRing {

  const MAX_INDEX: int := 20

  /** A limit outside 1..20 is replaced by 20. */
  function Allowed(limit: int): int {
    if limit > MAX_INDEX || limit < 1 then MAX_INDEX else limit
  }

  function Previous(slot: int): int { if slot != 0 then slot - 1 else MAX_INDEX }

  function Start(index: int, allowed: int): int {
    if index < allowed then MAX_INDEX + index - allowed + 1 else index - allowed
  }

  function Back(slot: int, n: nat): int
    decreases n
  {
    if n == 0 then slot else Back(Previous(slot), n - 1)
  }

  /** n slots going back. */
  function Trail(slot: int, n: nat): seq<int>
    decreases n
  {
    if n == 0 then [] else [slot] + Trail(Previous(slot), n - 1)
  }

  // ----- When the loop ends

  ghost predicate Reaches(slot: int, index: int) { exists n: nat :: Back(slot, n) == index }

  /** What a caller can check beforehand. */
  predicate Ends(index: int, allowed: int) { 0 <= index <= MAX_INDEX || index < allowed - MAX_INDEX - 1 }

  lemma {:induction false} Descends(slot: int, n: nat)
    requires slot < 0 || n <= slot
    ensures Back(slot, n) == slot - n
    decreases n
  {
    if n > 0 {
      Descends(slot - 1, n - 1);
    }
  }

  lemma {:induction false} StaysAbove(slot: int, n: nat)
    requires 0 <= slot
    ensures 0 <= Back(slot, n) <= if slot < MAX_INDEX then MAX_INDEX else slot
    decreases n
  {
    if n > 0 {
      StaysAbove(Previous(slot), n - 1);
    }
  }

  /** The current index comes up after 21 - allowed steps and not before. */
  lemma {:induction false} ComesUp(slot: int, index: int, n: nat, left: nat)
    requires left <= MAX_INDEX
    requires if 0 <= index <= MAX_INDEX then 0 <= slot <= MAX_INDEX && left == Ago(slot, index)
             else index < 0 && slot < 0 && slot == index + left
    requires n <= left
    ensures Back(slot, n) == index <==> n == left
    decreases n
  {
    if n > 0 {
      ComesUp(Previous(slot), index, n - 1, left - 1);
    }
  }

  /** The loop ends exactly for the stored indices 0..20, or for a negative one so small that it starts below 0. */
  lemma EndsIff(index: int, allowed: int)
    requires 1 <= allowed <= MAX_INDEX
    ensures Reaches(Start(index, allowed), index) <==> Ends(index, allowed)
    ensures Ends(index, allowed) <==> 0 <= index <= 20 || index < allowed - 21
    ensures Ends(index, allowed) ==>
            forall n: nat :: n <= MAX_INDEX + 1 - allowed ==>
              (Back(Start(index, allowed), n) == index <==> n == MAX_INDEX + 1 - allowed)
  {
    var start := Start(index, allowed);
    if Ends(index, allowed) {
      forall n: nat | n <= MAX_INDEX + 1 - allowed
        ensures Back(start, n) == index <==> n == MAX_INDEX + 1 - allowed
      {
        ComesUp(start, index, n, MAX_INDEX + 1 - allowed);
      }
      assert Back(start, MAX_INDEX + 1 - allowed) == index;
    } else {
      forall n: nat ensures Back(start, n) != index {
        if index < 0 {
          StaysAbove(start, n);
        } else if n <= start {
          Descends(start, n);
        } else {
          BackAdds(start, start, n - start);
          Descends(start, start);
          StaysAbove(0, n - start);
        }
      }
    }
  }

  /** From the stored index 21 with the limit 5, the loop goes around for ever. */
  lemma NeverEnds()
    ensures !Reaches(Start(21, 5), 21)
  {
    EndsIff(21, 5);
  }

  lemma {:induction false} BackAdds(slot: int, m: nat, n: nat)
    ensures Back(slot, m + n) == Back(Back(slot, m), n)
    decreases m
  {
    if m > 0 {
      BackAdds(Previous(slot), m - 1, n);
    }
  }

  // ----- The ring

  predicate Slot(s: int) { 0 <= s <= MAX_INDEX }

  /** How many slots s lies behind the index. */
  function Ago(index: int, s: int): int {
    if s <= index then index - s else index - s + MAX_INDEX + 1
  }

  lemma {:induction false} InTrail(slot: int, n: nat, s: int)
    requires Slot(slot) && n <= MAX_INDEX + 1
    ensures s in Trail(slot, n) <==> Slot(s) && Ago(slot, s) < n
    decreases n
  {
    if n > 0 {
      InTrail(Previous(slot), n - 1, s);
    }
  }

  lemma {:induction false} TrailConcat(slot: int, m: nat, n: nat)
    ensures Trail(slot, m) + Trail(Back(slot, m), n) == Trail(slot, m + n)
    decreases m
  {
    if m > 0 {
      TrailConcat(Previous(slot), m - 1, n);
    }
  }

  lemma {:induction false} TrailLength(slot: int, n: nat)
    ensures |Trail(slot, n)| == n
    decreases n
  {
    if n > 0 {
      TrailLength(Previous(slot), n - 1);
    }
  }

  /** No slot is visited twice in one round. */
  lemma {:induction false} TrailDistinct(slot: int, n: nat)
    requires Slot(slot) && n <= MAX_INDEX + 1
    ensures forall i, j :: 0 <= i < j < |Trail(slot, n)| ==> Trail(slot, n)[i] != Trail(slot, n)[j]
    decreases n
  {
    if n > 0 {
      InTrail(Previous(slot), n - 1, slot);
      TrailDistinct(Previous(slot), n - 1);
    }
  }

  /** Keeping `allowed` slots that end at the index and removing the others is one round of the ring. */
  lemma RoundSplits(index: int, allowed: int)
    requires Slot(index) && 1 <= allowed <= MAX_INDEX
    ensures Trail(index, allowed) + Trail(Start(index, allowed), MAX_INDEX + 1 - allowed) == Trail(index, MAX_INDEX + 1)
  {
    BackTo(index, allowed);
    TrailConcat(index, allowed, MAX_INDEX + 1 - allowed);
  }

  lemma {:induction false} BackTo(index: int, n: nat)
    requires Slot(index) && n <= MAX_INDEX
    ensures Back(index, n) == Start(index, n) || n == 0
    decreases n
  {
    if n > 1 {
      BackTo(Previous(index), n - 1);
    }
  }

  // ----- The routine and what happens around it

  /** The stored properties, the directories that exist with the time each was last written, and a clock. */
  datatype Dumps = Dumps(index: int, limit: int, dirs: map<int, nat>, clock: nat)

  function Without(dirs: map<int, nat>, slots: seq<int>): map<int, nat> {
    map s | s in dirs && s !in slots :: dirs[s]
  }

  function Removed(d: Dumps): seq<int>
    requires Ends(d.index, Allowed(d.limit))
  {
    Trail(Start(d.index, Allowed(d.limit)), MAX_INDEX + 1 - Allowed(d.limit))
  }

  function Organized(d: Dumps): Dumps
    requires Ends(d.index, Allowed(d.limit))
  {
    Dumps(if d.index == MAX_INDEX then 0 else d.index + 1, Allowed(d.limit), Without(d.dirs, Removed(d)), d.clock)
  }

  class Storage {
    var index: int
    var limit: int
    var dirs: map<int, nat>
    var clock: nat
    /** Every directory handed to remove_directory so far. */
    var removals: seq<int>

    function State(): Dumps
      reads this
    {
      Dumps(index, limit, dirs, clock)
    }

    /** A limit from 1 to 20 stays, any other becomes 20.  For an index of the ring, the directories that stay are
        exactly the `limit` ones ending at the index, and the next index is the one behind it. */
    method OrganizeDumpFiles()
      requires Ends(index, Allowed(limit))
      modifies this
      ensures State() == Organized(old(State()))
      ensures removals == old(removals) + Removed(old(State()))
      ensures limit == if 1 <= old(limit) <= 20 then old(limit) else 20
      ensures 0 <= old(index) <= 20 ==>
                && index == (if old(index) == 20 then 0 else old(index) + 1)
                && |removals| == |old(removals)| + 21 - limit
                && (forall s :: s in dirs <==> s in old(dirs) && StaysIn(s, old(index), limit))
                && (forall s :: s in dirs ==> dirs[s] == old(dirs)[s])
    {
      hide Trail, Back, Ends, Without;
      ghost var before := State();
      if limit > MAX_INDEX || limit < 1 {
        limit := MAX_INDEX;
      }
      var removalIndex: int;
      if index < limit {
        removalIndex := MAX_INDEX + index - limit + 1;
      } else {
        removalIndex := index - limit;
      }
      ghost var start, left, k: nat := removalIndex, MAX_INDEX + 1 - limit, 0;
      EndsIff(index, limit);
      TrailConcat(start, 0, 0);
      NoTrail(start, dirs);
      while removalIndex != index
        invariant index == before.index && limit == Allowed(before.limit) && clock == before.clock
        invariant k <= left && removalIndex == Back(start, k)
        invariant removals == old(removals) + Trail(start, k)
        invariant dirs == Without(before.dirs, Trail(start, k))
        decreases left - k
      {
        TrailStep(start, k, before.dirs);
        removals := removals + [removalIndex];
        dirs := dirs - {removalIndex};
        if removalIndex != 0 {
          removalIndex := removalIndex - 1;
        } else {
          removalIndex := MAX_INDEX;
        }
        k := k + 1;
      }
      if index == MAX_INDEX {
        index := 0;
      } else {
        index := index + 1;
      }
      if 0 <= before.index <= 20 { OrganizedMeans(before); }
      hide Organized, Removed, StaysIn;
    }
  }

  /** A directory of the ring stays if it is one of the `limit` ones ending at the index, counted around. */
  predicate StaysIn(s: int, index: int, limit: int) {
    0 <= s <= 20 ==> index - limit < s <= index || index - limit + 21 < s
  }

  lemma OrganizedMeans(d: Dumps)
    requires 0 <= d.index <= 20
    ensures Ends(d.index, Allowed(d.limit))
    ensures Organized(d).limit == if 1 <= d.limit <= 20 then d.limit else 20
    ensures |Removed(d)| == 21 - Organized(d).limit
    ensures forall s :: s in Organized(d).dirs <==> s in d.dirs && StaysIn(s, d.index, Organized(d).limit)
    ensures forall s :: s in Organized(d).dirs ==> Organized(d).dirs[s] == d.dirs[s]
  {
    RemovedAreTheOldest(d);
    hide Trail, Removed, Start;
  }

  lemma NoTrail(slot: int, dirs: map<int, nat>)
    ensures Back(slot, 0) == slot && Trail(slot, 0) == []
    ensures Without(dirs, []) == dirs
  {}

  lemma TrailStep(slot: int, k: nat, dirs: map<int, nat>)
    ensures Back(slot, k + 1) == Previous(Back(slot, k))
    ensures Trail(slot, k + 1) == Trail(slot, k) + [Back(slot, k)]
    ensures Without(dirs, Trail(slot, k + 1)) == Without(dirs, Trail(slot, k)) - {Back(slot, k)}
  {
    BackAdds(slot, k, 1);
    TrailConcat(slot, k, 1);
    assert Trail(Back(slot, k), 1) == [Back(slot, k)];
    hide Back, Trail;
  }

  // ----- Runs

  /** Younger dumps are closer behind the index. */
  predicate Ordered(d: Dumps) {
    && Slot(d.index)
    && (forall s :: s in d.dirs ==> Slot(s) && d.dirs[s] <= d.clock)
    && (forall s, t :: s in d.dirs && t in d.dirs && Ago(d.index, s) < Ago(d.index, t) ==> d.dirs[t] < d.dirs[s])
  }

  /** The directories removed are exactly those that are not among the `allowed` ones ending at the index. */
  lemma RemovedAreTheOldest(d: Dumps)
    requires Slot(d.index)
    ensures Ends(d.index, Allowed(d.limit))
    ensures |Removed(d)| == MAX_INDEX + 1 - Allowed(d.limit)
    ensures forall s :: s in Removed(d) <==> Slot(s) && Ago(d.index, s) >= Allowed(d.limit)
    ensures 1 <= d.limit <= 20 ==>
              && |Removed(d)| == 21 - d.limit
              && forall s :: s in Removed(d) <==>
                   0 <= s <= 20 && !(d.index - d.limit < s <= d.index || d.index - d.limit + 21 < s)
  {
    hide Trail, Back;
    var allowed := Allowed(d.limit);
    var start, left := Start(d.index, allowed), MAX_INDEX + 1 - allowed;
    TrailLength(start, left);
    forall s ensures s in Removed(d) <==> Slot(s) && Ago(d.index, s) >= allowed {
      InTrail(start, left, s);
    }
  }

  /** One call: no dump that goes is younger than one that stays, and the next dump gets an empty directory. */
  lemma OrganizeKeepsTheNewest(d: Dumps)
    requires Ordered(d)
    ensures Ends(d.index, Allowed(d.limit))
    ensures forall s, t :: s in d.dirs && t in d.dirs && s in Removed(d) && t !in Removed(d) ==> d.dirs[s] < d.dirs[t]
    ensures forall s :: s in d.dirs && s !in Removed(d) ==> s in Organized(d).dirs && Organized(d).dirs[s] == d.dirs[s]
    ensures Organized(d).index !in Organized(d).dirs
    ensures Ordered(Organized(d))
  {
    RemovedAreTheOldest(d);
    hide Removed, Allowed, Start;
  }

  /** All the slots that are kept hold a dump. */
  predicate KeptFull(d: Dumps) { forall s :: s in Trail(d.index, Allowed(d.limit)) ==> s in d.dirs }

  lemma KeptSlots(d: Dumps)
    requires Slot(d.index) && 1 <= d.limit <= 20
    ensures KeptFull(d) <==>
            forall s :: 0 <= s <= 20 && (d.index - d.limit < s <= d.index || d.index - d.limit + 21 < s) ==> s in d.dirs
  {
    forall s ensures s in Trail(d.index, d.limit) <==>
                     0 <= s <= 20 && (d.index - d.limit < s <= d.index || d.index - d.limit + 21 < s)
    {
      InTrail(d.index, d.limit, s);
    }
    hide Trail;
  }

  /** Never more directories than allowed are left.  With the next dump there are more than allowed exactly if
      none of the kept slots was empty. */
  lemma StoredAtMost(d: Dumps)
    requires Ordered(d)
    ensures Ends(d.index, Allowed(d.limit)) && |Organized(d).dirs| <= Organized(d).limit <= 20
    ensures 1 <= d.limit <= 20 ==> |Organized(d).dirs| <= d.limit
    ensures |Written(Organized(d)).dirs| == |Organized(d).dirs| + 1
    ensures |Written(Organized(d)).dirs| > Organized(d).limit <==> KeptFull(d)
    ensures 1 <= d.limit <= 20 ==> (|Written(Organized(d)).dirs| > d.limit <==> KeptFull(d))
  {
    OrganizeKeepsTheNewest(d);
    LeftCounted(d);
    WrittenCounted(Organized(d));
    hide Trail, Ordered, Removed, Start, Without, Ago, KeptFull, Written;
  }

  lemma LeftCounted(d: Dumps)
    requires Ordered(d) && Ends(d.index, Allowed(d.limit))
    ensures |Organized(d).dirs| <= Allowed(d.limit)
    ensures |Organized(d).dirs| == Allowed(d.limit) <==> KeptFull(d)
  {
    var kept := Trail(d.index, Allowed(d.limit));
    TrailLength(d.index, Allowed(d.limit));
    TrailDistinct(d.index, Allowed(d.limit));
    KeptAreLeft(d);
    hide Trail, Ordered, Removed, Start, Without, Ago, Organized;
    AtMost(Organized(d).dirs.Keys, kept);
  }

  lemma WrittenCounted(o: Dumps)
    requires o.index !in o.dirs
    ensures |Written(o).dirs| == |o.dirs| + 1
  {
    assert Written(o).dirs.Keys == o.dirs.Keys + {o.index};
  }

  lemma KeptAreLeft(d: Dumps)
    requires Ordered(d) && Ends(d.index, Allowed(d.limit))
    ensures forall s :: s in Organized(d).dirs.Keys <==> s in d.dirs && s in Trail(d.index, Allowed(d.limit))
  {
    RemovedAreTheOldest(d);
    forall s | s in d.dirs ensures s in Removed(d) <==> s !in Trail(d.index, Allowed(d.limit)) {
      InTrail(d.index, Allowed(d.limit), s);
    }
    hide Trail, Removed, Ordered, Start, Ago;
  }

  /** Distinct slots are all taken exactly if there are as many keys. */
  lemma {:induction false} AtMost(keys: set<int>, slots: seq<int>)
    requires forall s :: s in keys ==> s in slots
    requires forall i, j :: 0 <= i < j < |slots| ==> slots[i] != slots[j]
    ensures |keys| <= |slots|
    ensures |keys| == |slots| <==> forall s :: s in slots ==> s in keys
    decreases |slots|
  {
    if slots == [] {
      assert forall s :: s !in keys;
      assert keys == {};
    } else {
      var first, others := slots[0], slots[1..];
      assert slots == [first] + others;
      assert first !in others;
      AtMost(keys - {first}, others);
      if first in keys {
        assert keys == (keys - {first}) + {first};
      } else {
        assert keys == keys - {first};
      }
    }
  }

  lemma WrittenNext(history: History)
    ensures After(Then(history, Write)) == Written(After(history))
  {}

  /** With the limit 1, the first dump is kept when the second is written. */
  lemma LimitExceeded()
    ensures exists history :: After(history).limit == 1 && history.Then? && history.event == Write &&
                              |After(history).dirs| == 2
  {
    hide Trail, Removed, Start;
    var d := Dumps(0, 1, map[0 := 1], 1);
    var history := Then(Then(Beginning, SetLimit(1)), Write);
    assert After(Then(Beginning, SetLimit(1))) == Dumps(0, 1, map[], 0);
    assert After(history) == d;
    RemovedAreTheOldest(d);
    var organized := Then(history, Organize);
    assert After(organized) == Organized(d) == Dumps(1, 1, map[0 := 1], 1);
    hide After, Organized;
    var longer := Then(organized, Write);
    WrittenNext(organized);
    assert After(longer).dirs == map[0 := 1, 1 := 2];
  }

  function Written(d: Dumps): Dumps {
    d.(dirs := d.dirs[d.index := d.clock + 1], clock := d.clock + 1)
  }

  /** Someone sets the limit, a log is written into the current directory, or the routine runs. */
  datatype Event = SetLimit(limit: int) | Write | Organize

  datatype History = Beginning | Then(before: History, event: Event)

  function Next(d: Dumps, event: Event): Dumps
    requires event.Organize? ==> Ends(d.index, Allowed(d.limit))
  {
    match event
    case SetLimit(limit) => d.(limit := limit)
    case Write => Written(d)
    case Organize => Organized(d)
  }

  lemma NextOrdered(d: Dumps, event: Event)
    requires Ordered(d)
    ensures event.Organize? ==> Ends(d.index, Allowed(d.limit))
    ensures Ordered(Next(d, event))
  {
    if event.Organize? {
      OrganizeKeepsTheNewest(d);
    }
  }

  /** The state after a history, from the properties' defaults. Every call of the routine in it ends. */
  ghost function After(history: History): (d: Dumps)
    ensures Ordered(d) && (history == Beginning ==> d == Dumps(0, 5, map[], 0))
  {
    match history
    case Beginning => Dumps(0, 5, map[], 0)
    case Then(before, event) =>
      NextOrdered(After(before), event);
      Next(After(before), event)
  }
}
