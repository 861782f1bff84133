/** The scheduling decisions of the kernel, as a state machine: who runs, who may run next, and who never runs again. */
module Scheduler {
  const MAX_TASKS: nat := 4
  const QUANTUM: nat := 5

  datatype TaskState = Unused | Ready | Running | Zombie

  datatype Sched = Sched(states: seq<TaskState>, current: nat, ticks: nat)

  /** The slot `k` places behind the current one. */
  function Slot(s: Sched, k: nat): int {
    if s.current + k < MAX_TASKS then s.current + k else s.current + k - MAX_TASKS
  }

  /** The first ready slot from `k` places behind the current one on, or the current one. */
  function ScanFrom(s: Sched, k: nat): (t: nat)
    requires |s.states| == MAX_TASKS && s.current < MAX_TASKS && 1 <= k <= MAX_TASKS
    ensures t < MAX_TASKS
    decreases MAX_TASKS - k
  {
    if k == MAX_TASKS then s.current
    else if s.states[Slot(s, k)] == Ready then Slot(s, k)
    else ScanFrom(s, k + 1)
  }

  function Next(s: Sched): (t: nat)
    requires |s.states| == MAX_TASKS && s.current < MAX_TASKS
    ensures t < MAX_TASKS
  {
    ScanFrom(s, 1)
  }

  function Switch(s: Sched): Sched
    requires |s.states| == MAX_TASKS && s.current < MAX_TASKS
  {
    var t := Next(s);
    if t == s.current then s
    else
      var states := if s.states[s.current] == Running then s.states[s.current := Ready] else s.states;
      s.(states := states[t := Running], current := t)
  }

  /** A timer interrupt. */
  function Tick(s: Sched): Sched
    requires |s.states| == MAX_TASKS && s.current < MAX_TASKS
  {
    if s.ticks + 1 < QUANTUM then s.(ticks := s.ticks + 1) else Switch(s).(ticks := 0)
  }

  /** The yield interrupt. */
  function Yield(s: Sched): Sched
    requires |s.states| == MAX_TASKS && s.current < MAX_TASKS
  {
    if Next(s) == s.current then s else Switch(s).(ticks := 0)
  }

  /** The entry function of the current task returned.  The main task has none. */
  function Exit(s: Sched): Sched
    requires |s.states| == MAX_TASKS && s.current < MAX_TASKS
  {
    if s.current == 0 then s else s.(states := s.states[s.current := Zombie])
  }

  /** The first unused slot but 0; 0 if there is none. */
  function FreeSlot(states: seq<TaskState>): (slot: nat)
    requires |states| == MAX_TASKS
    ensures slot < MAX_TASKS && (slot != 0 ==> states[slot] == Unused)
    ensures slot == 0 ==> forall i | 1 <= i < MAX_TASKS :: states[i] != Unused
    ensures forall i | 1 <= i < slot :: states[i] != Unused
  {
    if states[1] == Unused then 1 else if states[2] == Unused then 2 else if states[3] == Unused then 3 else 0
  }

  function Spawn(s: Sched): Sched
    requires |s.states| == MAX_TASKS
  {
    var slot := FreeSlot(s.states);
    if slot == 0 then s else s.(states := s.states[slot := Ready])
  }

  datatype Event = TickEvent | YieldEvent | ExitEvent | SpawnEvent

  /** Only the current slot runs, or has just exited; task 0 is ready whenever it is not current. */
  ghost predicate Inv(s: Sched) {
    && |s.states| == MAX_TASKS && s.current < MAX_TASKS && s.ticks < QUANTUM
    && (forall i {:trigger s.states[i]} :: 0 <= i < MAX_TASKS && s.states[i] == Running ==> i == s.current)
    && s.states[s.current] in {Running, Zombie}
    && s.states[0] == if s.current == 0 then Running else Ready
  }

  function Apply(s: Sched, e: Event): Sched
    requires |s.states| == MAX_TASKS && s.current < MAX_TASKS
  {
    match e
    case TickEvent => Tick(s)
    case YieldEvent => Yield(s)
    case ExitEvent => Exit(s)
    case SpawnEvent => Spawn(s)
  }

  const BOOT: Sched := Sched([Running, Unused, Unused, Unused], 0, 0)

  lemma BootInv()
    ensures Inv(BOOT)
  {
  }

  /** What the scan finds: a ready slot with none ready before it, or nothing. */
  lemma {:induction false} ScanFinds(s: Sched, k: nat)
    requires |s.states| == MAX_TASKS && s.current < MAX_TASKS && 1 <= k <= MAX_TASKS
    ensures var t := ScanFrom(s, k);
      if t == s.current then forall j: nat {:trigger Slot(s, j)} :: k <= j < MAX_TASKS ==> s.states[Slot(s, j)] != Ready
      else exists j: nat {:trigger Slot(s, j)} :: k <= j < MAX_TASKS && t == Slot(s, j) && s.states[t] == Ready
             && forall i: nat {:trigger Slot(s, i)} :: k <= i < j ==> s.states[Slot(s, i)] != Ready
    decreases MAX_TASKS - k
  {
    if k < MAX_TASKS && s.states[Slot(s, k)] != Ready {
      ScanFinds(s, k + 1);
    }
  }

  /** A task keeps the processor for five timer ticks. */
  lemma FiveTicks(s: Sched)
    requires Inv(s)
    ensures s.ticks < 4 ==> Tick(s).current == s.current && Tick(s).ticks == s.ticks + 1 && Tick(s).states == s.states
    ensures s.ticks == 4 ==> Tick(s).ticks == 0 && Tick(s).current == Next(s)
    ensures s.ticks <= 4
  {
  }

  /** The slot `j` places on, counting round the four slots, has a ready task. */
  predicate ReadyAt(s: Sched, j: nat)
    requires |s.states| == 4
  {
    s.states[(s.current + j) % 4] == Ready
  }

  /** The next task is the first ready one in cyclic order, or the current one if no other is ready. */
  lemma NextInCycle(s: Sched)
    requires Inv(s)
    ensures (exists j: nat {:trigger ReadyAt(s, j)} :: 1 <= j <= 3 && ReadyAt(s, j) && Next(s) == (s.current + j) % 4
               && forall i: nat {:trigger ReadyAt(s, i)} :: 1 <= i < j ==> !ReadyAt(s, i))
         || (Next(s) == s.current && forall i: nat {:trigger ReadyAt(s, i)} :: 1 <= i <= 3 ==> !ReadyAt(s, i))
  {
    var _ := ReadyAt(s, 1) || ReadyAt(s, 2) || ReadyAt(s, 3);
  }

  /** A switch makes the next task the running one and the current one ready, unless it has exited, and leaves the other two
      as they are; a yield switches at once and starts the quantum over, or does nothing. */
  lemma SwitchSays(s: Sched, i: nat)
    requires Inv(s) && i < 4
    ensures var t := Next(s);
      t != s.current ==>
        && Yield(s).current == Switch(s).current == t && Yield(s).ticks == 0 && Yield(s).states == Switch(s).states
        && Switch(s).states[i] == if i == t then Running else if i == s.current && s.states[i] == Running then Ready else s.states[i]
    ensures Next(s) == s.current ==> Yield(s) == s && Switch(s) == s
  {
  }

  /** Every event keeps the invariant. */
  lemma ApplyKeepsInv(s: Sched, e: Event)
    requires Inv(s)
    ensures Inv(Apply(s, e))
  {
    ScanFinds(s, 1);
  }

  /** An exiting task always finds a successor: when another task than 0 is current, a scan finds task 0 at the latest. */
  lemma SuccessorExists(s: Sched)
    requires Inv(s) && s.current != 0
    ensures Next(s) != s.current && s.states[Next(s)] == Ready && Yield(s).current != s.current
  {
    ScanFinds(s, 1);
    assert Slot(s, MAX_TASKS - s.current) == 0;
  }

  // ---- Runs ----

  ghost function Run(s: Sched, events: seq<Event>): (r: Sched)
    requires Inv(s)
    ensures Inv(r)
  {
    if events == [] then s
    else
      var before := Run(s, events[..|events| - 1]);
      ApplyKeepsInv(before, events[|events| - 1]);
      Apply(before, events[|events| - 1])
  }

  lemma RunNext(s: Sched, events: seq<Event>, n: nat)
    requires Inv(s) && n < |events|
    ensures Run(s, events[..n + 1]) == Apply(Run(s, events[..n]), events[n])
  {
    assert events[..n + 1][..n] == events[..n];
  }

  /** A zombie that was switched away from stays one through any event, and is not dispatched. */
  lemma ZombieStep(s: Sched, e: Event, z: nat)
    requires Inv(s) && z < MAX_TASKS && s.states[z] == Zombie && s.current != z
    ensures Apply(s, e).states[z] == Zombie && Apply(s, e).current != z
  {
    ScanFinds(s, 1);
    hide Slot, ScanFrom;
  }

  /** A zombie that was switched away from stays a zombie, and is never current again. */
  lemma {:induction false} ZombieStays(s: Sched, events: seq<Event>, z: nat)
    requires Inv(s) && z < MAX_TASKS && s.states[z] == Zombie && s.current != z
    ensures Run(s, events).states[z] == Zombie && Run(s, events).current != z
  {
    hide Apply, Inv;
    if events != [] {
      var front := events[..|events| - 1];
      ZombieStays(s, front, z);
      ZombieStep(Run(s, front), events[|events| - 1], z);
    }
  }

  /** How many places behind the current slot another one is. */
  function Distance(s: Sched, i: nat): (d: nat)
    requires s.current < MAX_TASKS && i < MAX_TASKS
    ensures d < MAX_TASKS && Slot(s, d) == i
    ensures d == 0 <==> i == s.current
  {
    if s.current <= i then i - s.current else i + MAX_TASKS - s.current
  }

  /** Where the next task is found, when slot `i` waits: no further than `i`. */
  lemma NextAt(s: Sched, i: nat) returns (j: nat)
    requires Inv(s) && i < MAX_TASKS && s.states[i] == Ready
    ensures 1 <= j <= Distance(s, i) && Next(s) == Slot(s, j) && Next(s) != s.current
    ensures s.states[Next(s)] == Ready
  {
    ScanFinds(s, 1);
    var d := Distance(s, i);
    assert Slot(s, d) == i;
    hide ScanFrom;
    j :| 1 <= j < MAX_TASKS && Next(s) == Slot(s, j)
         && forall m: nat {:trigger Slot(s, m)} :: 1 <= m < j ==> s.states[Slot(s, m)] != Ready;
  }

  /** A switch while slot `i` waits either dispatches it or comes closer to it. */
  lemma SwitchComesCloser(s: Sched, i: nat)
    requires Inv(s) && i < MAX_TASKS && s.states[i] == Ready
    ensures Switch(s).current != s.current && Distance(Switch(s), i) < Distance(s, i)
    ensures Switch(s).current == i || Switch(s).states[i] == Ready
  {
    var j := NextAt(s, i);
    hide ScanFrom;
  }

  /** The interrupts a waiting slot may still have to wait for. */
  function Patience(s: Sched, i: nat): int
    requires s.current < MAX_TASKS && i < MAX_TASKS
  {
    QUANTUM * Distance(s, i) - s.ticks
  }

  /** Every timer tick and every yield uses up patience of a waiting slot; nothing gives it back. */
  lemma PatienceRunsOut(s: Sched, e: Event, i: nat)
    requires Inv(s) && i < MAX_TASKS && s.states[i] == Ready
    ensures 1 <= Patience(s, i) <= QUANTUM * (MAX_TASKS - 1)
    ensures var r := Apply(s, e);
      && (r.current == i || r.states[i] == Ready)
      && (e.TickEvent? || e.YieldEvent? ==> r.current == i || Patience(r, i) < Patience(s, i))
      && (e.ExitEvent? || e.SpawnEvent? ==> r.current == s.current && Patience(r, i) == Patience(s, i))
  {
    SwitchComesCloser(s, i);
  }

  /** The timer ticks and yields of a run. */
  function Interrupts(events: seq<Event>): nat {
    if events == [] then 0
    else
      var e := events[|events| - 1];
      Interrupts(events[..|events| - 1]) + if e.TickEvent? || e.YieldEvent? then 1 else 0
  }

  /** Slot `i` was dispatched somewhere along the run. */
  ghost predicate Dispatched(s: Sched, events: seq<Event>, i: nat)
    requires Inv(s)
  {
    exists n {:trigger events[..n]} :: 0 <= n <= |events| && Run(s, events[..n]).current == i
  }

  lemma {:induction false} WaitingRun(s: Sched, events: seq<Event>, i: nat)
    requires Inv(s) && i < MAX_TASKS && s.states[i] == Ready && !Dispatched(s, events, i)
    ensures var r := Run(s, events);
      r.states[i] == Ready && r.current != i && Patience(r, i) <= Patience(s, i) - Interrupts(events)
  {
    assert events[..|events|] == events;
    if events != [] {
      var front := events[..|events| - 1];
      forall n | 0 <= n <= |front|
        ensures Run(s, front[..n]).current != i
      {
        assert front[..n] == events[..n];
      }
      WaitingRun(s, front, i);
      PatienceRunsOut(Run(s, front), events[|events| - 1], i);
    }
  }

  /** A ready slot waits for at most fifteen timer ticks and yields, whatever else happens. */
  lemma BoundedWaiting(s: Sched, events: seq<Event>, i: nat)
    requires Inv(s) && i < MAX_TASKS && s.states[i] == Ready
    requires Interrupts(events) >= 15
    ensures Dispatched(s, events, i)
  {
    if !Dispatched(s, events, i) {
      WaitingRun(s, events, i);
      PatienceRunsOut(Run(s, events), TickEvent, i);
      PatienceRunsOut(s, TickEvent, i);
    }
  }

  // ---- Waiting for all tasks ----

  predicate Done(t: TaskState) {
    t == Zombie || t == Unused
  }

  /** Slots are handed out from the lowest one up and never given back: behind an unused slot all are unused. */
  ghost predicate Packed(s: Sched)
    requires |s.states| == MAX_TASKS
  {
    forall i, j {:trigger s.states[i], s.states[j]} ::
      1 <= i < j < MAX_TASKS && s.states[i] == Unused ==> s.states[j] == Unused
  }

  lemma PackedKept(s: Sched, e: Event)
    requires Inv(s) && Packed(s)
    ensures Packed(Apply(s, e))
  {
    ScanFinds(s, 1);
    hide ScanFrom;
  }

  /** Since boot the slots in use are the lowest ones. */
  lemma {:induction false} PackedSinceBoot(events: seq<Event>)
    ensures Inv(BOOT) && Packed(Run(BOOT, events))
  {
    BootInv();
    hide Inv, Apply;
    if events != [] {
      var front := events[..|events| - 1];
      PackedSinceBoot(front);
      PackedKept(Run(BOOT, front), events[|events| - 1]);
    }
  }

  /** After `n` events since boot main was running and saw slot `i` done. */
  ghost predicate SeenDone(events: seq<Event>, n: nat, i: nat)
    requires Inv(BOOT) && n <= |events| && i < MAX_TASKS
  {
    Run(BOOT, events[..n]).current == 0 && Done(Run(BOOT, events[..n]).states[i])
  }

  /** Main itself spawns nothing from event `from` on.  The other tasks may. */
  ghost predicate MainSpawnsNothing(events: seq<Event>, from: nat)
    requires Inv(BOOT)
  {
    forall k {:trigger events[k]} :: from <= k < |events| && events[k] == SpawnEvent ==> Run(BOOT, events[..k]).current != 0
  }

  /** Main runs, and no other slot holds a task that is not done. */
  ghost predicate OnlyMain(s: Sched)
    requires |s.states| == MAX_TASKS
  {
    s.current == 0 && forall i {:trigger s.states[i]} :: 1 <= i < MAX_TASKS ==> Done(s.states[i])
  }

  /** Slots 1 to `i` are zombies that were switched away from. */
  ghost predicate Buried(s: Sched, i: nat)
    requires |s.states| == MAX_TASKS && i < MAX_TASKS
  {
    !(1 <= s.current <= i) && forall j {:trigger s.states[j]} :: 1 <= j <= i ==> s.states[j] == Zombie
  }

  lemma ScanStep(s: Sched, e: Event, i: nat)
    requires Inv(s) && i < MAX_TASKS && (OnlyMain(s) || Buried(s, i)) && (s.current == 0 ==> e != SpawnEvent)
    ensures OnlyMain(Apply(s, e)) || Buried(Apply(s, e), i)
  {
    ScanFinds(s, 1);
    hide ScanFrom;
  }

  /** What a scan has seen of slots 1 to `i` stays so while it goes on. */
  lemma {:induction false} ScanStays(events: seq<Event>, n: nat, m: nat, i: nat)
    requires Inv(BOOT) && n <= m <= |events| && i < MAX_TASKS && MainSpawnsNothing(events, n)
    requires OnlyMain(Run(BOOT, events[..n])) || Buried(Run(BOOT, events[..n]), i)
    ensures OnlyMain(Run(BOOT, events[..m])) || Buried(Run(BOOT, events[..m]), i)
    decreases m
  {
    hide Inv, Apply, OnlyMain, Buried;
    if n < m {
      ScanStays(events, n, m - 1, i);
      RunNext(BOOT, events, m - 1);
      ScanStep(Run(BOOT, events[..m - 1]), events[m - 1], i);
    }
  }

  /** The next slot is seen done: it is a zombie too, or it is unused and so are all behind it. */
  lemma ScanGoesOn(s: Sched, i: nat)
    requires Inv(s) && Packed(s) && s.current == 0 && 1 <= i < MAX_TASKS && Done(s.states[i])
    requires OnlyMain(s) || Buried(s, i - 1)
    ensures OnlyMain(s) || Buried(s, i)
  {
  }

  /** Main looks at slots 1 to 3 one after the other with interrupts on, while other tasks run, exit and spawn in between.
      On every run since boot, when it has seen each slot done, all tasks are done. */
  lemma ScanIsSound(events: seq<Event>, n1: nat, n2: nat, n3: nat)
    requires Inv(BOOT) && n1 <= n2 <= n3 == |events|
    requires SeenDone(events, n1, 1) && SeenDone(events, n2, 2) && SeenDone(events, n3, 3)
    requires MainSpawnsNothing(events, n1)
    ensures OnlyMain(Run(BOOT, events))
  {
    hide Inv, Apply, Run, Packed;
    assert events[..n3] == events;
    PackedSinceBoot(events[..n1]);
    PackedSinceBoot(events[..n2]);
    PackedSinceBoot(events[..n3]);
    ScanGoesOn(Run(BOOT, events[..n1]), 1);
    ScanStays(events, n1, n2, 1);
    ScanGoesOn(Run(BOOT, events[..n2]), 2);
    ScanStays(events, n2, n3, 2);
    ScanGoesOn(Run(BOOT, events[..n3]), 3);
  }

  /** Once all are done, main alone runs on, as long as it spawns nothing. */
  lemma MainStaysAlone(s: Sched, e: Event)
    requires Inv(s) && OnlyMain(s) && e != SpawnEvent
    ensures OnlyMain(Apply(s, e))
  {
    ScanFinds(s, 1);
    hide ScanFrom;
  }
}
