/** Context switches on one processor: the two interrupt handlers, and the frame a new task starts from.  Memory and the
    stack pointer are counted in 32-bit words. */
module Kernels {
  import opened Scheduler

  const KERNEL_DS: nat := 0x18
  const KERNEL_CS: nat := 0x10
  const NEW_EFLAGS: nat := 0x202
  const STACK_WORDS: nat := 4096
  const FRAME_WORDS: nat := 13

  datatype Regs = Regs(
    edi: nat, esi: nat, ebp: nat, ebx: nat, edx: nat, ecx: nat, eax: nat,
    ds: nat, es: nat, eip: nat, cs: nat, eflags: nat)

  datatype Task = Task(esp: nat, state: TaskState, stackBase: nat, ticks: nat)

  /** All a task can see of itself: its registers, its stack pointer, and its stack. */
  datatype Context = Context(regs: Regs, esp: nat, stack: seq<nat>)

  /** What happened to the tasks: a new one was made, one was suspended, one was resumed. */
  datatype Move = Made(task: nat, made: Context) | Suspended(task: nat, was: Context) | Resumed(task: nat, now: Context)

  /** The contexts in which tasks were last left. */
  ghost function Left(log: seq<Move>): map<nat, Context> {
    if log == [] then map[]
    else
      var before := Left(log[..|log| - 1]);
      match log[|log| - 1]
      case Made(i, c) => before[i := c]
      case Suspended(i, c) => before[i := c]
      case Resumed(i, c) => before
  }

  /** Whenever a task was resumed, it was in the context it was last left in. */
  ghost predicate Faithful(log: seq<Move>) {
    forall n {:trigger log[n]} :: 0 <= n < |log| && log[n].Resumed? ==>
      var before := Left(log[..n]);
      log[n].task in before && before[log[n].task] == log[n].now
  }

  lemma FaithfulMore(log: seq<Move>, m: Move)
    requires Faithful(log) && (m.Resumed? ==> m.task in Left(log) && Left(log)[m.task] == m.now)
    ensures Faithful(log + [m])
    ensures Left(log + [m]) == if m.Resumed? then Left(log)
                               else Left(log)[m.task := if m.Made? then m.made else m.was]
  {
    var log' := log + [m];
    assert log'[..|log|] == log;
    forall n {:trigger log'[n]} | 0 <= n < |log'| && log'[n].Resumed?
      ensures log'[n].task in Left(log'[..n]) && Left(log'[..n])[log'[n].task] == log'[n].now
    {
      if n < |log| {
        assert log'[..n] == log[..n] && log[n] == log'[n];
      }
    }
  }

  /** The saved registers, from the lowest word up: ES, DS, EDI, ESI, EBP, the ignored stack pointer, EBX, EDX, ECX, EAX,
      EIP, CS, EFLAGS. */
  function Frame(m: seq<nat>, p: nat): Regs
    requires p + FRAME_WORDS <= |m|
  {
    Regs(m[p + 2], m[p + 3], m[p + 4], m[p + 6], m[p + 7], m[p + 8], m[p + 9], m[p + 1], m[p], m[p + 10], m[p + 11], m[p + 12])
  }

  /** What the processor and the handlers push, from the last word pushed to the first. */
  lemma FrameWords(m: seq<nat>, p: nat, r: Regs, ignored: nat)
    requires p + 13 <= |m|
    ensures m[p..p + 13] == [r.es, r.ds, r.edi, r.esi, r.ebp, ignored, r.ebx, r.edx, r.ecx, r.eax, r.eip, r.cs, r.eflags] ==>
              Frame(m, p) == r
  {
    var w := m[p..p + 13];
    assert forall i | 0 <= i < 13 :: w[i] == m[p + i];
  }

  ghost predicate Apart(tasks: seq<Task>, lo: seq<nat>, hi: seq<nat>, size: nat) {
    && |tasks| == |lo| == |hi|
    && (forall i {:trigger tasks[i]} :: 0 <= i < |tasks| && tasks[i].state != Unused ==> lo[i] <= hi[i] <= size)
    && (forall i, j {:trigger tasks[i], tasks[j]} ::
          0 <= i < j < |tasks| && tasks[i].state != Unused && tasks[j].state != Unused ==> hi[i] <= lo[j] || hi[j] <= lo[i])
  }

  lemma StackElsewhere(tasks: seq<Task>, lo: seq<nat>, hi: seq<nat>, size: nat, i: nat, j: nat)
    requires Apart(tasks, lo, hi, size) && i < |tasks| && j < |tasks| && i != j
    requires tasks[i].state != Unused && tasks[j].state != Unused
    ensures hi[i] <= lo[j] || hi[j] <= lo[i]
  {
  }

  /** Where a stack lies does not depend on the state of its task, as long as the task has one. */
  lemma ApartStill(tasks: seq<Task>, tasks': seq<Task>, lo: seq<nat>, hi: seq<nat>, size: nat)
    requires Apart(tasks, lo, hi, size) && |tasks'| == |tasks|
    requires forall i {:trigger tasks'[i]} :: 0 <= i < |tasks| && tasks'[i].state != Unused ==> tasks[i].state != Unused
    ensures Apart(tasks', lo, hi, size)
  {
  }

  /** On the stack of task `i` there is a frame at `p`, and it and the stack behind it are as the task was left. */
  ghost predicate ParkedIn(m: seq<nat>, p: nat, lo: nat, hi: nat, i: nat, left: map<nat, Context>) {
    && lo <= p && p + FRAME_WORDS <= hi <= |m|
    && i in left && left[i] == Context(Frame(m, p), p + FRAME_WORDS, m[p + FRAME_WORDS..hi])
  }

  /** All tasks but `but` are parked in the contexts they were left in. */
  ghost predicate AllParked(m: seq<nat>, tasks: seq<Task>, lo: seq<nat>, hi: seq<nat>, left: map<nat, Context>, but: nat) {
    && |tasks| == |lo| == |hi|
    && forall i {:trigger tasks[i]} :: 0 <= i < |tasks| && i != but && tasks[i].state != Unused ==>
         ParkedIn(m, tasks[i].esp, lo[i], hi[i], i, left)
  }

  /** Counters and states do not matter to parked tasks. */
  lemma ParkedStill(m: seq<nat>, tasks: seq<Task>, tasks': seq<Task>, lo: seq<nat>, hi: seq<nat>, left: map<nat, Context>, but: nat)
    requires AllParked(m, tasks, lo, hi, left, but) && |tasks'| == |tasks|
    requires forall i {:trigger tasks'[i]} :: 0 <= i < |tasks| && tasks'[i].state != Unused ==>
               tasks[i].state != Unused && tasks'[i].esp == tasks[i].esp
    ensures AllParked(m, tasks', lo, hi, left, but)
  {
    hide ParkedIn;
  }

  /** A parked task does not notice changes outside its stack, or to other tasks. */
  lemma StaysParked(m: seq<nat>, p: nat, lo: nat, hi: nat, i: nat, left: map<nat, Context>, m': seq<nat>,
                    left': map<nat, Context>)
    requires ParkedIn(m, p, lo, hi, i, left) && |m'| == |m| && forall a | lo <= a < hi :: m'[a] == m[a]
    requires i in left ==> i in left' && left'[i] == left[i]
    ensures ParkedIn(m', p, lo, hi, i, left')
  {
    assert m'[p + FRAME_WORDS..hi] == m[p + FRAME_WORDS..hi];
  }

  predicate InterruptsOn(eflags: nat) {
    eflags / 0x200 % 2 == 1
  }

  /** The registers of a new task: at the trampoline, interrupts on, its entry function in EBX. */
  function NewRegs(trampoline: nat, entry: nat): (r: Regs)
    ensures r.eip == trampoline && r.ebx == entry && InterruptsOn(r.eflags)
    ensures r.cs == 0x10 && r.ds == r.es == 0x18 && r.eflags == 0x202
    ensures r.edi == r.esi == r.ebp == r.edx == r.ecx == r.eax == 0
  {
    Regs(0, 0, 0, entry, 0, 0, 0, KERNEL_DS, KERNEL_DS, trampoline, KERNEL_CS, NEW_EFLAGS)
  }

  /** The contexts of all tasks: that of the current one is in the processor, the others' are in the frames on their
      stacks. */
  ghost function ContextsOf(m: seq<nat>, tasks: seq<Task>, lo: seq<nat>, hi: seq<nat>, left: map<nat, Context>,
                            current: nat, here: Context): map<nat, Context>
    requires AllParked(m, tasks, lo, hi, left, current)
  {
    map i: nat | i < |tasks| && tasks[i].state != Unused ::
      if i == current then here
      else Context(Frame(m, tasks[i].esp), tasks[i].esp + FRAME_WORDS, m[tasks[i].esp + FRAME_WORDS..hi[i]])
  }

  lemma ContextsLeft(m: seq<nat>, tasks: seq<Task>, lo: seq<nat>, hi: seq<nat>, left: map<nat, Context>, current: nat,
                     here: Context, i: nat)
    requires AllParked(m, tasks, lo, hi, left, current)
    ensures i in ContextsOf(m, tasks, lo, hi, left, current, here) <==> i < |tasks| && tasks[i].state != Unused
    ensures i < |tasks| && tasks[i].state != Unused ==>
              && (i != current ==> i in left)
              && ContextsOf(m, tasks, lo, hi, left, current, here)[i] == if i == current then here else left[i]
  {
    hide Frame;
  }

  /** What the tasks were left in is all there is to their contexts. */
  lemma ContextsSame(m: seq<nat>, tasks: seq<Task>, left: map<nat, Context>, current: nat, here: Context,
                     m': seq<nat>, tasks': seq<Task>, left': map<nat, Context>, current': nat, here': Context,
                     lo: seq<nat>, hi: seq<nat>)
    requires AllParked(m, tasks, lo, hi, left, current) && AllParked(m', tasks', lo, hi, left', current')
    requires forall i {:trigger tasks'[i]} :: 0 <= i < |tasks'| ==> (tasks[i].state == Unused <==> tasks'[i].state == Unused)
    requires left' == left[current := here] && current' in left' && left'[current'] == here'
    ensures ContextsOf(m', tasks', lo, hi, left', current', here') == ContextsOf(m, tasks, lo, hi, left, current, here)
  {
    hide AllParked, ContextsOf;
    var a, b := ContextsOf(m, tasks, lo, hi, left, current, here), ContextsOf(m', tasks', lo, hi, left', current', here');
    SameCount(m, tasks, lo, hi, left, current);
    SameCount(m', tasks', lo, hi, left', current');
    forall i: nat
      ensures i in a <==> i in b
      ensures i in a ==> a[i] == b[i]
    {
      ContextsLeft(m, tasks, lo, hi, left, current, here, i);
      ContextsLeft(m', tasks', lo, hi, left', current', here', i);
    }
  }

  lemma StackElsewhereSame(m: seq<nat>, m': seq<nat>, p: nat, hi: nat, stack: nat)
    requires |m| == |m'| && p <= hi <= |m| && (hi <= stack || stack + STACK_WORDS <= p)
    requires forall a | 0 <= a < |m| && !(stack <= a < stack + STACK_WORDS) :: m'[a] == m[a]
    ensures m'[p..hi] == m[p..hi]
  {
  }

  /** A new task joins the others. */
  lemma ContextsMore(m: seq<nat>, tasks: seq<Task>, left: map<nat, Context>, current: nat, here: Context,
                     m': seq<nat>, tasks': seq<Task>, slot: nat, made: Context,
                     lo: seq<nat>, hi: seq<nat>, lo': seq<nat>, hi': seq<nat>)
    requires AllParked(m, tasks, lo, hi, left, current) && AllParked(m', tasks', lo', hi', left[slot := made], current)
    requires slot < |tasks| == |tasks'| && tasks' == tasks[slot := tasks'[slot]] && tasks'[slot].state != Unused
    requires slot != current
    ensures ContextsOf(m', tasks', lo', hi', left[slot := made], current, here)
            == ContextsOf(m, tasks, lo, hi, left, current, here)[slot := made]
  {
    hide AllParked, ContextsOf;
    var a, b := ContextsOf(m, tasks, lo, hi, left, current, here),
                ContextsOf(m', tasks', lo', hi', left[slot := made], current, here);
    forall i: nat
      ensures i in a[slot := made] <==> i in b
      ensures i in b ==> a[slot := made][i] == b[i]
    {
      ContextsLeft(m, tasks, lo, hi, left, current, here, i);
      ContextsLeft(m', tasks', lo', hi', left[slot := made], current, here, i);
    }
  }

  /** A step changes the context of the task that takes it, and no other one. */
  lemma ContextsStepped(m: seq<nat>, m': seq<nat>, tasks: seq<Task>, lo: seq<nat>, hi: seq<nat>, left: map<nat, Context>,
                        current: nat, here: Context, here': Context)
    requires AllParked(m, tasks, lo, hi, left, current) && AllParked(m', tasks, lo, hi, left, current)
    requires current < |tasks| && tasks[current].state != Unused
    ensures ContextsOf(m', tasks, lo, hi, left, current, here')
            == ContextsOf(m, tasks, lo, hi, left, current, here)[current := here']
  {
    hide AllParked, ContextsOf;
    var a, b := ContextsOf(m, tasks, lo, hi, left, current, here), ContextsOf(m', tasks, lo, hi, left, current, here');
    forall i: nat
      ensures i in a[current := here'] <==> i in b
      ensures i in b ==> a[current := here'][i] == b[i]
    {
      ContextsLeft(m, tasks, lo, hi, left, current, here, i);
      ContextsLeft(m', tasks, lo, hi, left, current, here', i);
    }
  }

  lemma ContextsExit(m: seq<nat>, tasks: seq<Task>, tasks': seq<Task>, lo: seq<nat>, hi: seq<nat>, left: map<nat, Context>,
                     current: nat, here: Context)
    requires AllParked(m, tasks, lo, hi, left, current) && AllParked(m, tasks', lo, hi, left, current)
    requires forall i {:trigger tasks'[i]} :: 0 <= i < |tasks'| && i < |tasks| ==> (tasks[i].state == Unused <==> tasks'[i].state == Unused)
    ensures ContextsOf(m, tasks', lo, hi, left, current, here) == ContextsOf(m, tasks, lo, hi, left, current, here)
  {
    hide AllParked, ContextsOf;
    var a, b := ContextsOf(m, tasks, lo, hi, left, current, here), ContextsOf(m, tasks', lo, hi, left, current, here);
    SameCount(m, tasks, lo, hi, left, current);
    SameCount(m, tasks', lo, hi, left, current);
    forall i: nat
      ensures i in a <==> i in b
      ensures i in a ==> a[i] == b[i]
    {
      ContextsLeft(m, tasks, lo, hi, left, current, here, i);
      ContextsLeft(m, tasks', lo, hi, left, current, here, i);
    }
  }

  /** What a task's own instruction makes of its context: new registers, a moved stack pointer, one word written if it is
      on the stack.  Words the stack pointer moves down over are whatever is there. */
  predicate Stepped(c: Context, c': Context, regs: Regs, esp: nat, addr: nat, value: nat) {
    && c'.regs == regs && c'.esp == esp && c'.esp + |c'.stack| == c.esp + |c.stack|
    && forall a {:trigger c'.stack[a - c'.esp]} :: c'.esp <= a < c'.esp + |c'.stack| && (a == addr || c.esp <= a) ==>
         c'.stack[a - c'.esp] == if a == addr then value else c.stack[a - c.esp]
  }

  lemma SameCount(m: seq<nat>, tasks: seq<Task>, lo: seq<nat>, hi: seq<nat>, left: map<nat, Context>, but: nat)
    requires AllParked(m, tasks, lo, hi, left, but)
    ensures |tasks| == |lo| == |hi|
  {
  }

  /** The log of one pass through a handler. */
  lemma SwitchLogged(log: seq<Move>, c: nat, here: Context, c': nat, here': Context)
    requires Faithful(log + [Suspended(c, here), Resumed(c', here')])
    ensures var left := Left(log + [Suspended(c, here), Resumed(c', here')]);
      left == Left(log)[c := here] && c' in left && left[c'] == here'
  {
    var full := log + [Suspended(c, here), Resumed(c', here')];
    var half := log + [Suspended(c, here)];
    assert full[..|full| - 1] == half && half[..|half| - 1] == log;
    assert full[|full| - 1] == Resumed(c', here');
    assert half[|half| - 1] == Suspended(c, here);
  }

  ghost predicate StatesOf(t: seq<Task>, s: Sched) {
    |t| == |s.states| == MAX_TASKS && forall i {:trigger t[i]} :: 0 <= i < MAX_TASKS ==> t[i].state == s.states[i]
  }

  /** Interrupts give no slot away and take none. */
  lemma UsedStaysUsed(s: Sched)
    requires Inv(s)
    ensures forall i {:trigger s.states[i]} :: 0 <= i < MAX_TASKS ==>
              && (s.states[i] == Unused <==> Tick(s).states[i] == Unused)
              && (s.states[i] == Unused <==> Yield(s).states[i] == Unused)
  {
    ScanFinds(s, 1);
    hide ScanFrom;
  }

  class Kernel {
    const mem: array<nat>
    const tasks: array<Task>
    var r: Regs
    var esp: nat
    var current: nat
    var tickCount: nat
    var msTicks: nat
    var ntasks: nat
    /** Where new tasks begin. */
    const trampoline: nat
    /** The bounds of the stacks. */
    var lo: seq<nat>
    var hi: seq<nat>
    /** What happened so far. */
    ghost var log: seq<Move>

    /** Main is the only task, and runs. */
    constructor (mem: array<nat>, trampoline: nat, r: Regs, esp: nat, mainLo: nat, mainHi: nat)
      requires mainLo + FRAME_WORDS <= esp <= mainHi <= mem.Length
      ensures Valid() && Abs() == BOOT && log == [] && fresh(tasks)
      ensures this.mem == mem && this.r == r && this.esp == esp
    {
      this.mem := mem;
      this.trampoline := trampoline;
      tasks := new Task[MAX_TASKS](i => Task(0, if i == 0 then Running else Unused, 0, 0));
      this.r, this.esp := r, esp;
      current, tickCount, msTicks, ntasks := 0, 0, 0, 1;
      lo, hi, log := [mainLo, 0, 0, 0], [mainHi, 0, 0, 0], [];
    }

    ghost function Abs(): Sched
      requires tasks.Length == MAX_TASKS
      reads this, tasks
    {
      Sched([tasks[0].state, tasks[1].state, tasks[2].state, tasks[3].state], current, tickCount)
    }

    ghost function Here(): Context
      requires current < |hi| && esp <= hi[current] <= mem.Length
      reads this, mem
    {
      Context(r, esp, mem[esp..hi[current]])
    }

    /** The stacks of tasks lie in memory and do not overlap. */
    ghost predicate StacksApart()
      reads this, tasks
    {
      tasks.Length == MAX_TASKS && Apart(tasks[..], lo, hi, mem.Length)
    }

    ghost predicate Valid()
      reads this, tasks, mem
    {
      && tasks.Length == |lo| == |hi| == MAX_TASKS && StacksApart() && Inv(Abs()) && Faithful(log)
      && current < MAX_TASKS
      && lo[current] + FRAME_WORDS <= esp <= hi[current] <= mem.Length
      && AllParked(mem[..], tasks[..], lo, hi, Left(log), current)
    }

    /** The registers, stack pointer and stack of every task, wherever they are kept. */
    ghost function Contexts(): map<nat, Context>
      requires Valid()
      reads this, tasks, mem
    {
      ContextsOf(mem[..], tasks[..], lo, hi, Left(log), current, Here())
    }

    method Push(v: nat)
      requires 0 < esp <= mem.Length
      modifies this`esp, mem
      ensures esp == old(esp) - 1 && mem[esp] == v
      ensures forall a | 0 <= a < mem.Length && a != esp :: mem[a] == old(mem[a])
    {
      esp := esp - 1;
      mem[esp] := v;
    }

    method Pop() returns (v: nat)
      requires esp < mem.Length
      modifies this`esp
      ensures esp == old(esp) + 1 && v == mem[old(esp)]
    {
      v := mem[esp];
      esp := esp + 1;
    }

    /** The entry of an interrupt: the processor pushes three words, the handler the other ten, and the stack pointer goes
        to the task's record. */
    method SaveContext()
      requires tasks.Length == MAX_TASKS && current < MAX_TASKS && FRAME_WORDS <= esp <= mem.Length
      modifies this`esp, this`r, mem, tasks
      ensures esp == old(esp) - FRAME_WORDS && Frame(mem[..], esp) == old(r)
      ensures forall a | 0 <= a < mem.Length && !(esp <= a < old(esp)) :: mem[a] == old(mem[a])
      ensures tasks[..] == old(tasks[..])[current := old(tasks[current]).(esp := esp)]
    {
      Push(r.eflags);
      Push(r.cs);
      Push(r.eip);
      PushAll();
      Push(r.ds);
      Push(r.es);
      r := r.(eax := KERNEL_DS, ds := KERNEL_DS, es := KERNEL_DS);
      tasks[current] := tasks[current].(esp := esp);
    }

    /** The eight general registers. */
    method PushAll()
      requires 8 <= esp <= mem.Length
      modifies this`esp, mem
      ensures esp == old(esp) - 8
      ensures mem[esp] == r.edi && mem[esp + 1] == r.esi && mem[esp + 2] == r.ebp && mem[esp + 3] == old(esp)
      ensures mem[esp + 4] == r.ebx && mem[esp + 5] == r.edx && mem[esp + 6] == r.ecx && mem[esp + 7] == r.eax
      ensures forall a | 0 <= a < mem.Length && !(esp <= a < old(esp)) :: mem[a] == old(mem[a])
    {
      var snap := esp;
      Push(r.eax);
      Push(r.ecx);
      Push(r.edx);
      Push(r.ebx);
      Push(snap);
      Push(r.ebp);
      Push(r.esi);
      Push(r.edi);
    }

    /** The way out of an interrupt. */
    method RestoreContext()
      requires esp + FRAME_WORDS <= mem.Length
      modifies this`esp, this`r
      ensures esp == old(esp) + FRAME_WORDS && r == Frame(mem[..], old(esp))
    {
      var es := Pop();
      var ds := Pop();
      var edi := Pop();
      var esi := Pop();
      var ebp := Pop();
      var _ := Pop();
      var ebx := Pop();
      var edx := Pop();
      var ecx := Pop();
      var eax := Pop();
      var eip := Pop();
      var cs := Pop();
      var eflags := Pop();
      r := Regs(edi, esi, ebp, ebx, edx, ecx, eax, ds, es, eip, cs, eflags);
    }

    /** The scan loop: EDX ends up at the next ready slot, or back at the current one. */
    method ScanReady()
      requires tasks.Length == MAX_TASKS && current < MAX_TASKS
      modifies this`r
      ensures r.edx == Next(Abs())
    {
      hide ScanFrom;
      ghost var s := Abs();
      r := r.(ecx := current, edx := current, esi := MAX_TASKS);
      ghost var k := 0;
      while true
        invariant 0 <= k < MAX_TASKS && r.ecx == current && r.edx == Slot(s, k)
        invariant Next(s) == ScanFrom(s, k + 1)
        decreases MAX_TASKS - k
      {
        SlotNext(s, k);
        r := r.(edx := (r.edx + 1) % MAX_TASKS);
        k := k + 1;
        StateOf(r.edx);
        if r.edx == r.ecx {
          break;
        }
        if tasks[r.edx].state == Ready {
          break;
        }
      }
      assert Abs() == s;
    }

    lemma StateOf(i: nat)
      requires tasks.Length == MAX_TASKS
      ensures i < MAX_TASKS ==> tasks[i].state == Abs().states[i]
    {
    }

    /** Inside a handler: every task, the interrupted one included, has its frame on its stack. */
    ghost predicate InHandler()
      reads this, tasks, mem
    {
      && tasks.Length == |lo| == |hi| == MAX_TASKS && current < MAX_TASKS && StacksApart() && Faithful(log)
      && AllParked(mem[..], tasks[..], lo, hi, Left(log), MAX_TASKS)
    }

    /** The interrupt takes the processor from the current task.  Only words of its own stack are written. */
    method Enter()
      requires Valid()
      modifies this`esp, this`r, this`log, mem, tasks
      ensures InHandler() && Abs() == old(Abs()) && esp == tasks[current].esp
      ensures log == old(log) + [Suspended(current, old(Here()))]
      ensures forall a | 0 <= a < mem.Length && !(lo[current] <= a < old(esp)) :: mem[a] == old(mem[a])
    {
      hide Frame, Faithful, Left, ParkedIn, AllParked, Apart;
      StateOf(current);
      ghost var here, m, t, left := Here(), mem[..], tasks[..], Left(log);
      SaveContext();
      ApartStill(t, tasks[..], lo, hi, mem.Length);
      FaithfulMore(log, Suspended(current, here));
      log := log + [Suspended(current, here)];
      AllSaved(m, mem[..], t, tasks[..], lo, hi, left, current, here);
    }

    /** The processor goes to the current task. */
    method Leave()
      requires InHandler() && Inv(Abs()) && esp == tasks[current].esp
      modifies this`esp, this`r, this`log
      ensures Valid() && Abs() == old(Abs())
      ensures log == old(log) + [Resumed(current, Here())]
    {
      hide Frame, Faithful, Left, AllParked, Apart;
      StateOf(current);
      ParkedAt(mem[..], tasks[..], lo, hi, Left(log), current);
      RestoreContext();
      FaithfulMore(log, Resumed(current, Here()));
      log := log + [Resumed(current, Here())];
    }

    /** The bookkeeping of a switch. */
    method SwitchTo(t: nat)
      requires InHandler() && Inv(Abs()) && t == Next(Abs()) && t != current
      modifies this`esp, this`current, tasks
      ensures InHandler() && Abs() == Switch(old(Abs())) && esp == tasks[current].esp
    {
      hide Faithful, Left, Next, AllParked, Apart, Inv;
      ghost var s, was := Abs(), tasks[..];
      NextIsReady(s);
      StateOf(t);
      StateOf(current);
      if tasks[current].state == Running {
        tasks[current] := tasks[current].(state := Ready);
      }
      tasks[t] := tasks[t].(state := Running);
      ApartStill(was, tasks[..], lo, hi, mem.Length);
      ParkedStill(mem[..], was, tasks[..], lo, hi, Left(log), MAX_TASKS);
      current := t;
      esp := tasks[t].esp;
    }

    lemma StatesNow()
      requires tasks.Length == MAX_TASKS
      ensures StatesOf(tasks[..], Abs())
    {
    }

    /** A pass through a handler left every task in its context. */
    lemma Transparent(m: seq<nat>, t: seq<Task>, log0: seq<Move>, s: Sched, here: Context)
      requires Valid() && AllParked(m, t, lo, hi, Left(log0), s.current)
      requires log == log0 + [Suspended(s.current, here), Resumed(current, Here())]
      requires StatesOf(t, s)
      requires forall i {:trigger s.states[i]} :: 0 <= i < MAX_TASKS ==> (s.states[i] == Unused <==> Abs().states[i] == Unused)
      ensures Contexts() == ContextsOf(m, t, lo, hi, Left(log0), s.current, here)
    {
      hide Apart, AllParked, Faithful, Left, Inv, ContextsOf, Frame;
      SwitchLogged(log0, s.current, here, current, Here());
      StatesNow();
      forall i {:trigger tasks[..][i]} | 0 <= i < MAX_TASKS
        ensures t[i].state == Unused <==> tasks[..][i].state == Unused
      {
        assert s.states[i] == t[i].state && tasks[..][i].state == Abs().states[i];
      }
      ContextsSame(m, t, Left(log0), s.current, here, mem[..], tasks[..], Left(log), current, Here(), lo, hi);
    }

    /** The timer interrupt. */
    method Irq0Handler()
      requires Valid() && InterruptsOn(r.eflags)
      modifies this`esp, this`r, this`current, this`tickCount, this`msTicks, this`log, mem, tasks
      ensures Valid() && Abs() == Tick(old(Abs())) && Contexts() == old(Contexts())
      ensures log == old(log) + [Suspended(old(current), old(Here())), Resumed(current, Here())]
      ensures forall a | 0 <= a < mem.Length && !(lo[old(current)] <= a < old(esp)) :: mem[a] == old(mem[a])
    {
      hide Apart, AllParked, Faithful, Left, ScanFrom, Inv, ContextsOf;
      ghost var s0, here, m, t, log0 := Abs(), Here(), mem[..], tasks[..], log;
      StatesNow();
      StateOf(current);
      Enter();
      ghost var s := Abs();
      TickKeepsInv(s);
      CountTick();
      if tickCount >= QUANTUM {
        tickCount := 0;
        ScanReady();
        NextSame(s, Abs());
        if r.edx != current {
          SwitchTo(r.edx);
        }
      }
      Leave();
      UsedStaysUsed(s0);
      Transparent(m, t, log0, s0, here);
    }

    /** The counters of the timer interrupt. */
    method CountTick()
      requires InHandler() && current < MAX_TASKS
      modifies this`tickCount, this`msTicks, tasks
      ensures msTicks == old(msTicks) + 10 && tasks[current].ticks == old(tasks[current].ticks) + 1
      ensures InHandler() && Abs() == old(Abs()).(ticks := old(tickCount) + 1) && tickCount == old(tickCount) + 1
      ensures esp == tasks[current].esp <==> esp == old(tasks[current].esp)
    {
      hide AllParked, Faithful, Left, Apart;
      ghost var was := tasks[..];
      tickCount := tickCount + 1;
      tasks[current] := tasks[current].(ticks := tasks[current].ticks + 1);
      msTicks := msTicks + 10;
      ApartStill(was, tasks[..], lo, hi, mem.Length);
      ParkedStill(mem[..], was, tasks[..], lo, hi, Left(log), MAX_TASKS);
    }

    /** The frame of a new task, word by word from the top of its stack down. */
    method BuildFrame(top: nat, entry: nat) returns (sp: nat)
      requires FRAME_WORDS <= top <= mem.Length
      modifies mem
      ensures sp == top - FRAME_WORDS && Frame(mem[..], sp) == NewRegs(trampoline, entry)
      ensures forall a | 0 <= a < mem.Length && !(sp <= a < top) :: mem[a] == old(mem[a])
    {
      mem[top - 1], mem[top - 2], mem[top - 3] := NEW_EFLAGS, KERNEL_CS, trampoline;
      mem[top - 4], mem[top - 5], mem[top - 6], mem[top - 7] := 0, 0, 0, entry;
      mem[top - 8], mem[top - 9], mem[top - 10], mem[top - 11] := 0, 0, 0, 0;
      mem[top - 12], mem[top - 13] := KERNEL_DS, KERNEL_DS;
      sp := top - FRAME_WORDS;
    }

    /** The stack the allocator returned lies in memory, apart from all others. */
    predicate FreshStack(stack: nat)
      requires |lo| == |hi| == tasks.Length
      reads this, tasks
    {
      && stack + STACK_WORDS <= mem.Length
      && forall i {:trigger tasks[i]} :: 0 <= i < tasks.Length && tasks[i].state != Unused ==>
           hi[i] <= stack || stack + STACK_WORDS <= lo[i]
    }

    /** The first unused slot behind the main task's, or 0. */
    method FindUnused() returns (slot: nat)
      requires tasks.Length == MAX_TASKS
      ensures slot == FreeSlot(Abs().states)
    {
      slot := 0;
      var i := 1;
      while i < MAX_TASKS && slot == 0
        invariant 1 <= i <= MAX_TASKS && slot < MAX_TASKS
        invariant slot == 0 ==> forall j | 1 <= j < i :: Abs().states[j] != Unused
        invariant slot != 0 ==> Abs().states[slot] == Unused && forall j | 1 <= j < slot :: Abs().states[j] != Unused
      {
        StateOf(i);
        if tasks[i].state == Unused {
          slot := i;
        }
        i := i + 1;
      }
    }

    /** A new task; `stack` is what the allocator returned, 0 if it had nothing. */
    method SpawnTask(entry: nat, stack: nat) returns (result: int)
      requires Valid() && (stack != 0 ==> FreshStack(stack))
      modifies this`lo, this`hi, this`log, this`ntasks, mem, tasks
      ensures Valid()
      ensures result == -1 <==> stack == 0 || FreeSlot(old(Abs()).states) == 0
      ensures result == -1 ==> Abs() == old(Abs()) && log == old(log) && mem[..] == old(mem[..]) && Contexts() == old(Contexts())
      ensures result != -1 ==>
                && result == FreeSlot(old(Abs()).states) && Abs() == Spawn(old(Abs()))
                && log == old(log) + [Made(result, Context(NewRegs(trampoline, entry), stack + STACK_WORDS, []))]
                && Contexts() == old(Contexts())[result := Context(NewRegs(trampoline, entry), stack + STACK_WORDS, [])]
      ensures forall a | 0 <= a < mem.Length && !(stack <= a < stack + STACK_WORDS) :: mem[a] == old(mem[a])
    {
      hide Frame, Faithful, Left, AllParked, Apart, NewRegs, Inv, ContextsOf;
      var slot := FindUnused();
      if slot == 0 || stack == 0 {
        return -1;
      }
      Admit(slot, entry, stack);
      result := slot;
    }

    lemma ApartFrom(i: nat, stack: nat)
      requires |lo| == |hi| == tasks.Length && FreshStack(stack) && i < tasks.Length && tasks[i].state != Unused
      ensures hi[i] <= stack || stack + STACK_WORDS <= lo[i]
    {
    }

    /** The new task gets its frame and its slot. */
    method Admit(slot: nat, entry: nat, stack: nat)
      requires Valid() && stack != 0 && FreshStack(stack) && slot == FreeSlot(Abs().states) != 0
      modifies this`lo, this`hi, this`log, this`ntasks, mem, tasks
      ensures Valid() && Abs() == Spawn(old(Abs()))
      ensures log == old(log) + [Made(slot, Context(NewRegs(trampoline, entry), stack + STACK_WORDS, []))]
      ensures Contexts() == old(Contexts())[slot := Context(NewRegs(trampoline, entry), stack + STACK_WORDS, [])]
      ensures forall a | 0 <= a < mem.Length && !(stack <= a < stack + STACK_WORDS) :: mem[a] == old(mem[a])
    {
      hide Frame, Faithful, Left, AllParked, Apart, NewRegs, Inv, ContextsOf, FreeSlot, Spawn, InterruptsOn;
      ghost var s, m, t, left := Abs(), mem[..], tasks[..], Left(log);
      ghost var here, was := Context(NewRegs(trampoline, entry), stack + STACK_WORDS, []), Here();
      SpawnKeepsInv(s, slot);
      SpawnIs(s, slot);
      InvKnown(s);
      StateOf(slot);
      StateOf(current);
      ApartFrom(current, stack);
      var sp := BuildFrame(stack + STACK_WORDS, entry);
      StackElsewhereSame(m, mem[..], esp, hi[current], stack);
      tasks[slot] := Task(sp, Ready, stack, 0);
      lo, hi := lo[slot := stack], hi[slot := stack + STACK_WORDS];
      ntasks := ntasks + 1;
      NewParked(m, mem[..], t, tasks[..], old(lo), old(hi), left, current, slot, stack, here);
      assert Abs().states == s.states[slot := Ready];
      FaithfulMore(log, Made(slot, here));
      log := log + [Made(slot, here)];
      assert Here() == was;
      ContextsMore(m, t, left, current, was, mem[..], tasks[..], slot, here, old(lo), old(hi), lo, hi);
    }

    /** Any instruction of the current task: it may change its registers, move its stack pointer within its stack, and
        write a word that is on no other task's stack. */
    method TaskStep(newRegs: Regs, newEsp: nat, addr: nat, value: nat)
      requires Valid() && lo[current] + FRAME_WORDS <= newEsp <= hi[current] && addr < mem.Length
      requires forall i {:trigger tasks[i]} :: 0 <= i < MAX_TASKS && i != current && tasks[i].state != Unused ==>
                 !(lo[i] <= addr < hi[i])
      modifies this`r, this`esp, mem
      ensures Valid() && Abs() == old(Abs()) && log == old(log)
      ensures Contexts() == old(Contexts())[current := Here()] && Stepped(old(Here()), Here(), newRegs, newEsp, addr, value)
    {
      hide Frame, Faithful, Left, Apart, Inv, ContextsOf;
      ghost var m, here := mem[..], Here();
      r, esp, mem[addr] := newRegs, newEsp, value;
      WriteElsewhere(m, mem[..], tasks[..], lo, hi, Left(log), current, addr);
      StateOf(current);
      InvKnown(Abs());
      ContextsStepped(m, mem[..], tasks[..], lo, hi, Left(log), current, here, Here());
    }

    /** The entry function of the current task returned: the task is marked, and will yield for ever. */
    method ExitTask()
      requires Valid() && current != 0
      modifies tasks
      ensures Valid() && Abs() == Exit(old(Abs())) && log == old(log) && Contexts() == old(Contexts())
    {
      hide Frame, Faithful, Left, AllParked, Apart, Inv, ContextsOf;
      ghost var s, t := Abs(), tasks[..];
      StateOf(current);
      InvKnown(s);
      tasks[current] := tasks[current].(state := Zombie);
      ApartStill(t, tasks[..], lo, hi, mem.Length);
      ParkedStill(mem[..], t, tasks[..], lo, hi, Left(log), current);
      ExitKeepsInv(s);
      assert Abs() == Exit(s);
      ContextsExit(mem[..], t, tasks[..], lo, hi, Left(log), current, Here());
    }

    /** The yield interrupt. */
    method YieldHandler()
      requires Valid()
      modifies this`esp, this`r, this`current, this`tickCount, this`log, mem, tasks
      ensures Valid() && Abs() == Yield(old(Abs())) && Contexts() == old(Contexts())
      ensures log == old(log) + [Suspended(old(current), old(Here())), Resumed(current, Here())]
      ensures forall a | 0 <= a < mem.Length && !(lo[old(current)] <= a < old(esp)) :: mem[a] == old(mem[a])
    {
      hide Apart, AllParked, Faithful, Left, ScanFrom, Inv, ContextsOf;
      ghost var s0, here, m, t, log0 := Abs(), Here(), mem[..], tasks[..], log;
      StatesNow();
      StateOf(current);
      TickKeepsInv(Abs());
      Enter();
      ScanReady();
      if r.edx != current {
        SwitchTo(r.edx);
        tickCount := 0;
      }
      Leave();
      UsedStaysUsed(s0);
      Transparent(m, t, log0, s0, here);
    }
  }

  lemma ParkedAt(m: seq<nat>, tasks: seq<Task>, lo: seq<nat>, hi: seq<nat>, left: map<nat, Context>, i: nat)
    requires AllParked(m, tasks, lo, hi, left, |tasks|) && i < |tasks| && tasks[i].state != Unused
    ensures ParkedIn(m, tasks[i].esp, lo[i], hi[i], i, left) && AllParked(m, tasks, lo, hi, left, i)
  {
    hide ParkedIn;
  }

  /** A write outside the stacks of all parked tasks. */
  lemma WriteElsewhere(m: seq<nat>, m': seq<nat>, tasks: seq<Task>, lo: seq<nat>, hi: seq<nat>, left: map<nat, Context>,
                       but: nat, addr: nat)
    requires AllParked(m, tasks, lo, hi, left, but) && addr < |m| == |m'|
    requires forall a | 0 <= a < |m| && a != addr :: m'[a] == m[a]
    requires forall i {:trigger tasks[i]} :: 0 <= i < |tasks| && i != but && tasks[i].state != Unused ==> !(lo[i] <= addr < hi[i])
    ensures AllParked(m', tasks, lo, hi, left, but)
  {
    hide Frame;
    forall i | 0 <= i < |tasks| && i != but && tasks[i].state != Unused
      ensures ParkedIn(m', tasks[i].esp, lo[i], hi[i], i, left)
    {
      assert ParkedIn(m, tasks[i].esp, lo[i], hi[i], i, left);
      FrameSame(m, m', tasks[i].esp, hi[i]);
    }
  }

  lemma FrameSame(m: seq<nat>, m': seq<nat>, p: nat, hi: nat)
    requires |m| == |m'| && p + FRAME_WORDS <= hi <= |m| && forall a | p <= a < hi :: m'[a] == m[a]
    ensures Frame(m', p) == Frame(m, p) && m'[p + FRAME_WORDS..hi] == m[p + FRAME_WORDS..hi]
  {
  }

  /** A task with a new stack is parked there, and no other one notices. */
  lemma NewParked(m: seq<nat>, m': seq<nat>, tasks: seq<Task>, tasks': seq<Task>, lo: seq<nat>, hi: seq<nat>,
                  left: map<nat, Context>, current: nat, slot: nat, stack: nat, here: Context)
    requires AllParked(m, tasks, lo, hi, left, current) && Apart(tasks, lo, hi, |m|) && |m'| == |m|
    requires slot < |tasks| == |tasks'| && tasks[slot].state == Unused && slot != current
    requires tasks' == tasks[slot := tasks'[slot]] && tasks'[slot].esp == stack + STACK_WORDS - FRAME_WORDS
    requires stack + STACK_WORDS <= |m|
    requires forall i {:trigger tasks[i]} :: 0 <= i < |tasks| && tasks[i].state != Unused ==>
               hi[i] <= stack || stack + STACK_WORDS <= lo[i]
    requires forall a | 0 <= a < |m| && !(stack <= a < stack + STACK_WORDS) :: m'[a] == m[a]
    requires here == Context(Frame(m', tasks'[slot].esp), stack + STACK_WORDS, [])
    ensures Apart(tasks', lo[slot := stack], hi[slot := stack + STACK_WORDS], |m|)
    ensures AllParked(m', tasks', lo[slot := stack], hi[slot := stack + STACK_WORDS], left[slot := here], current)
  {
    hide Frame;
    forall i | 0 <= i < |tasks'| && i != current && tasks'[i].state != Unused
      ensures ParkedIn(m', tasks'[i].esp, lo[slot := stack][i], hi[slot := stack + STACK_WORDS][i], i, left[slot := here])
    {
      if i != slot {
        assert ParkedIn(m, tasks[i].esp, lo[i], hi[i], i, left);
        FrameSame(m, m', tasks[i].esp, hi[i]);
      }
    }
  }

  /** Once the current task's context was saved, all tasks are parked. */
  lemma AllSaved(m0: seq<nat>, m: seq<nat>, tasks0: seq<Task>, tasks: seq<Task>, lo: seq<nat>, hi: seq<nat>,
                 left: map<nat, Context>, current: nat, here: Context)
    requires AllParked(m0, tasks0, lo, hi, left, current) && Apart(tasks0, lo, hi, |m|) && |m| == |m0|
    requires current < |tasks0| == |tasks| && tasks0[current].state != Unused
    requires tasks == tasks0[current := tasks0[current].(esp := tasks[current].esp)]
    requires lo[current] <= tasks[current].esp && tasks[current].esp + FRAME_WORDS <= hi[current]
    requires here == Context(Frame(m, tasks[current].esp), tasks[current].esp + FRAME_WORDS,
                             m0[tasks[current].esp + FRAME_WORDS..hi[current]])
    requires forall a {:trigger m[a]} :: 0 <= a < |m| && !(tasks[current].esp <= a < tasks[current].esp + FRAME_WORDS) ==> m[a] == m0[a]
    ensures AllParked(m, tasks, lo, hi, left[current := here], |tasks|)
  {
    hide Frame, ParkedIn;
    forall i | 0 <= i < |tasks| && tasks[i].state != Unused
      ensures ParkedIn(m, tasks[i].esp, lo[i], hi[i], i, left[current := here])
    {
      if i == current {
        JustParked(m, m0, tasks[i].esp, lo[i], hi[i], i, here, left[current := here]);
      } else {
        StackElsewhere(tasks0, lo, hi, |m|, current, i);
        StaysParked(m0, tasks0[i].esp, lo[i], hi[i], i, left, m, left[current := here]);
      }
    }
  }

  /** A task whose context was just saved is parked in it. */
  lemma JustParked(m: seq<nat>, m0: seq<nat>, p: nat, lo: nat, hi: nat, i: nat, here: Context, left: map<nat, Context>)
    requires lo <= p && p + FRAME_WORDS <= hi <= |m| == |m0| && i in left && left[i] == here
    requires here == Context(Frame(m, p), p + FRAME_WORDS, m0[p + FRAME_WORDS..hi])
    requires forall a | p + FRAME_WORDS <= a < hi :: m[a] == m0[a]
    ensures ParkedIn(m, p, lo, hi, i, left)
  {
    assert m[p + FRAME_WORDS..hi] == m0[p + FRAME_WORDS..hi];
  }

  lemma NextIsReady(s: Sched)
    requires Inv(s)
    ensures Next(s) < MAX_TASKS && (Next(s) != s.current ==> s.states[Next(s)] == Ready)
  {
    ScanFinds(s, 1);
  }

  lemma InvKnown(s: Sched)
    requires Inv(s)
    ensures |s.states| == MAX_TASKS && s.current < MAX_TASKS && s.states[s.current] != Unused
  {
  }

  lemma SpawnIs(s: Sched, slot: nat)
    requires |s.states| == MAX_TASKS && slot == FreeSlot(s.states) != 0
    ensures Spawn(s) == s.(states := s.states[slot := Ready])
  {
  }

  lemma SpawnKeepsInv(s: Sched, slot: nat)
    requires Inv(s) && slot == FreeSlot(s.states) != 0
    ensures Inv(Spawn(s)) && slot != s.current && s.states[slot] == Unused
  {
    ApplyKeepsInv(s, SpawnEvent);
  }

  lemma ExitKeepsInv(s: Sched)
    requires Inv(s)
    ensures Inv(Exit(s))
  {
    ApplyKeepsInv(s, ExitEvent);
  }

  /** Scans do not look at the tick count. */
  lemma {:induction false} ScanSame(s: Sched, s': Sched, k: nat)
    requires |s.states| == MAX_TASKS && s.current < MAX_TASKS && 1 <= k <= MAX_TASKS
    requires s' == s.(ticks := s'.ticks)
    ensures ScanFrom(s', k) == ScanFrom(s, k)
    decreases MAX_TASKS - k
  {
    if k < MAX_TASKS {
      ScanSame(s, s', k + 1);
    }
  }

  lemma NextSame(s: Sched, s': Sched)
    requires |s.states| == MAX_TASKS && s.current < MAX_TASKS && s' == s.(ticks := s'.ticks)
    ensures Next(s') == Next(s)
  {
    ScanSame(s, s', 1);
  }

  lemma TickKeepsInv(s: Sched)
    requires Inv(s)
    ensures Inv(Tick(s)) && Inv(s.(ticks := 0)) && Inv(Yield(s))
  {
    ApplyKeepsInv(s, TickEvent);
    ApplyKeepsInv(s, YieldEvent);
  }

  /** The scan of the handlers, one place on. */
  lemma SlotNext(s: Sched, k: nat)
    requires |s.states| == MAX_TASKS && s.current < MAX_TASKS && k < MAX_TASKS
    ensures 0 <= Slot(s, k) < MAX_TASKS && (Slot(s, k) + 1) % MAX_TASKS == Slot(s, k + 1)
    ensures Slot(s, k + 1) == s.current <==> k + 1 == MAX_TASKS
    ensures ScanFrom(s, k + 1) == if k + 1 == MAX_TASKS then s.current
                                  else if s.states[Slot(s, k + 1)] == Ready then Slot(s, k + 1) else ScanFrom(s, k + 2)
  {
  }

  // ---- Runs ----

  /** The move leaves task `i` in context `c`. */
  predicate Leaves(m: Move, i: nat, c: Context) {
    m == Made(i, c) || m == Suspended(i, c)
  }

  lemma {:induction false} LeftKept(log: seq<Move>, i: nat, c: Context, m: nat)
    requires m < |log| && Leaves(log[m], i, c)
    requires forall k {:trigger log[k]} :: m < k < |log| ==> log[k].Resumed? || log[k].task != i
    ensures i in Left(log) && Left(log)[i] == c
  {
    if m < |log| - 1 {
      var front := log[..|log| - 1];
      assert front[m] == log[m];
      forall k {:trigger front[k]} | m < k < |front|
        ensures front[k].Resumed? || front[k].task != i
      {
        assert front[k] == log[k];
      }
      LeftKept(front, i, c, m);
    }
  }

  /** Preemption is transparent: a task is resumed in the registers, at the stack pointer and with the stack it was
      suspended with, whatever ran in between; a new task is first resumed in the frame it was made with. */
  lemma ResumedAsLeft(log: seq<Move>, m: nat, n: nat, i: nat, c: Context, c': Context)
    requires Faithful(log) && m < n < |log| && Leaves(log[m], i, c) && log[n] == Resumed(i, c')
    requires forall k {:trigger log[k]} :: m < k < n ==> log[k].Resumed? || log[k].task != i
    ensures c' == c
  {
    var before := log[..n];
    assert before[m] == log[m];
    forall k {:trigger before[k]} | m < k < |before|
      ensures before[k].Resumed? || before[k].task != i
    {
      assert before[k] == log[k];
    }
    LeftKept(before, i, c, m);
  }

  /** What may happen next on the processor. */
  datatype Action =
    | TickAction
    | YieldAction
    | ExitAction
    | SpawnAction(entry: nat, stack: nat)
    | StepAction(regs: Regs, esp: nat, addr: nat, value: nat)

  /** The action is one the current task or the hardware can take: interrupts come when they are on, the main task does
      not exit, the allocator returns memory of its own, and a task keeps to its own stack and to common memory. */
  predicate Possible(k: Kernel, a: Action)
    reads k, k.tasks
  {
    && k.tasks.Length == |k.lo| == |k.hi| == MAX_TASKS
    && match a
       case TickAction => InterruptsOn(k.r.eflags)
       case YieldAction => true
       case ExitAction => k.current != 0
       case SpawnAction(_, stack) => stack != 0 ==> k.FreshStack(stack)
       case StepAction(_, esp, addr, _) =>
         && k.current < MAX_TASKS && k.lo[k.current] + FRAME_WORDS <= esp <= k.hi[k.current] && addr < k.mem.Length
         && forall i {:trigger k.tasks[i]} :: 0 <= i < MAX_TASKS && i != k.current && k.tasks[i].state != Unused ==>
              !(k.lo[i] <= addr < k.hi[i])
  }

  /** All tasks at one moment: who runs, and every task's context. */
  datatype Moment = Moment(s: Sched, contexts: map<nat, Context>)

  ghost function Now(k: Kernel): Moment
    requires k.Valid()
    reads k, k.tasks, k.mem
  {
    Moment(k.Abs(), k.Contexts())
  }

  /** What an action is to the scheduler. */
  function Caused(s: Sched, a: Action): seq<Event>
    requires |s.states| == MAX_TASKS
  {
    match a
    case TickAction => [TickEvent]
    case YieldAction => [YieldEvent]
    case ExitAction => [ExitEvent]
    case SpawnAction(_, stack) => if stack == 0 || FreeSlot(s.states) == 0 then [] else [SpawnEvent]
    case StepAction(_, _, _, _) => []
  }

  /** What an action does, as a task sees it: an interrupt changes who runs and nobody's context; a new task begins at the
      trampoline; an instruction changes the context of the task that executes it. */
  ghost predicate Leads(trampoline: nat, now: Moment, a: Action, next: Moment) {
    && |now.s.states| == MAX_TASKS && now.s.current < MAX_TASKS
    && match a
       case TickAction => next == Moment(Tick(now.s), now.contexts)
       case YieldAction => next == Moment(Yield(now.s), now.contexts)
       case ExitAction => next == Moment(Exit(now.s), now.contexts)
       case SpawnAction(entry, stack) =>
         if stack == 0 || FreeSlot(now.s.states) == 0 then next == now
         else
           next == Moment(Spawn(now.s), now.contexts[FreeSlot(now.s.states) :=
                                          Context(NewRegs(trampoline, entry), stack + STACK_WORDS, [])])
       case StepAction(regs, esp, addr, value) =>
         && now.s.current in now.contexts && now.s.current in next.contexts
         && next == Moment(now.s, now.contexts[now.s.current := next.contexts[now.s.current]])
         && Stepped(now.contexts[now.s.current], next.contexts[now.s.current], regs, esp, addr, value)
  }

  lemma CurrentContext(k: Kernel)
    requires k.Valid()
    ensures k.current in k.Contexts() && k.Contexts()[k.current] == k.Here()
  {
    hide Frame, Faithful, Left, AllParked, Apart, ContextsOf, Inv;
    k.StateOf(k.current);
    InvKnown(k.Abs());
    SameCount(k.mem[..], k.tasks[..], k.lo, k.hi, Left(k.log), k.current);
    ContextsLeft(k.mem[..], k.tasks[..], k.lo, k.hi, Left(k.log), k.current, k.Here(), k.current);
  }

  /** One action on the kernel. */
  method Act(k: Kernel, a: Action)
    requires k.Valid() && Possible(k, a)
    modifies k, k.mem, k.tasks
    ensures k.Valid() && Leads(k.trampoline, old(Now(k)), a, Now(k)) && old(k.log) <= k.log
  {
    hide Inv, Faithful, Left, AllParked, Apart, ContextsOf, Tick, Yield, Exit, Spawn, Stepped, NewRegs;
    CurrentContext(k);
    InvKnown(k.Abs());
    match a
    case TickAction =>
      k.Irq0Handler();
    case YieldAction =>
      k.YieldHandler();
    case ExitAction =>
      k.ExitTask();
    case SpawnAction(entry, stack) =>
      var _ := k.SpawnTask(entry, stack);
    case StepAction(regs, esp, addr, value) =>
      k.TaskStep(regs, esp, addr, value);
  }

  /** The moments of a run, one for each action and one before. */
  ghost predicate Trace(trampoline: nat, moments: seq<Moment>, actions: seq<Action>) {
    && |moments| == |actions| + 1
    && forall j {:trigger actions[j]} :: 0 <= j < |actions| ==> Leads(trampoline, moments[j], actions[j], moments[j + 1])
  }

  lemma TraceMore(trampoline: nat, moments: seq<Moment>, actions: seq<Action>, next: Moment, a: Action)
    requires Trace(trampoline, moments, actions) && Leads(trampoline, moments[|actions|], a, next)
    ensures Trace(trampoline, moments + [next], actions + [a])
  {
    hide Leads;
    var moments', actions' := moments + [next], actions + [a];
    forall j {:trigger actions'[j]} | 0 <= j < |actions'|
      ensures Leads(trampoline, moments'[j], actions'[j], moments'[j + 1])
    {
      if j < |actions| {
        assert actions'[j] == actions[j];
      }
    }
  }

  /** Over any interleaving of timer ticks, yields, exits, spawns and task instructions the kernel does to the tasks what
      the actions say and nothing else.  It goes on as long as the next action is a possible one. */
  method Interleave(k: Kernel, actions: seq<Action>) returns (done: nat, ghost moments: seq<Moment>)
    requires k.Valid()
    modifies k, k.mem, k.tasks
    ensures k.Valid() && done <= |actions| && (done < |actions| ==> !Possible(k, actions[done]))
    ensures Trace(k.trampoline, moments, actions[..done]) && moments[0] == old(Now(k)) && moments[done] == Now(k)
    ensures old(k.log) <= k.log
  {
    hide Inv, Faithful, Left, AllParked, Apart, ContextsOf, Leads;
    done, moments := 0, [Now(k)];
    while done < |actions|
      invariant 0 <= done <= |actions| && k.Valid() && Trace(k.trampoline, moments, actions[..done])
      invariant moments[0] == old(Now(k)) && moments[done] == Now(k) && old(k.log) <= k.log
    {
      if !Possible(k, actions[done]) {
        break;
      }
      Act(k, actions[done]);
      TraceMore(k.trampoline, moments, actions[..done], Now(k), actions[done]);
      assert actions[..done] + [actions[done]] == actions[..done + 1];
      moments := moments + [Now(k)];
      done := done + 1;
    }
  }

  // ---- What a trace says ----

  /** The events of a trace, for the state machine of scheduling decisions. */
  ghost function EventsOf(s: Sched, actions: seq<Action>): seq<Event>
    requires Inv(s)
  {
    if actions == [] then []
    else
      var before := EventsOf(s, actions[..|actions| - 1]);
      before + Caused(Run(s, before), actions[|actions| - 1])
  }

  lemma LeadsByEvents(trampoline: nat, now: Moment, a: Action, next: Moment)
    requires Inv(now.s) && Leads(trampoline, now, a, next)
    ensures Caused(now.s, a) == [] ==> next.s == now.s
    ensures Caused(now.s, a) != [] ==> Caused(now.s, a) == [Caused(now.s, a)[0]] && next.s == Apply(now.s, Caused(now.s, a)[0])
  {
    hide Tick, Yield, Exit, Spawn, Stepped, NewRegs;
  }

  lemma RunOne(s: Sched, events: seq<Event>, e: Event)
    requires Inv(s)
    ensures Run(s, events + [e]) == Apply(Run(s, events), e)
  {
    assert (events + [e])[..|events|] == events;
  }

  lemma TraceFront(trampoline: nat, moments: seq<Moment>, actions: seq<Action>)
    requires Trace(trampoline, moments, actions) && actions != []
    ensures Trace(trampoline, moments[..|actions|], actions[..|actions| - 1])
    ensures Leads(trampoline, moments[|actions| - 1], actions[|actions| - 1], moments[|actions|])
  {
    hide Leads;
    var front := actions[..|actions| - 1];
    forall j {:trigger front[j]} | 0 <= j < |front|
      ensures Leads(trampoline, moments[..|actions|][j], front[j], moments[..|actions|][j + 1])
    {
      assert front[j] == actions[j];
    }
  }

  /** Along a trace the scheduler goes through exactly the events its actions cause, so that everything said of runs holds
      of the kernel. */
  lemma {:induction false} TraceSchedules(trampoline: nat, moments: seq<Moment>, actions: seq<Action>)
    requires Trace(trampoline, moments, actions) && Inv(moments[0].s)
    ensures moments[|actions|].s == Run(moments[0].s, EventsOf(moments[0].s, actions))
  {
    hide Inv, Leads, Caused, Apply;
    if actions != [] {
      var front := actions[..|actions| - 1];
      TraceFront(trampoline, moments, actions);
      TraceSchedules(trampoline, moments[..|actions|], front);
      var before := EventsOf(moments[0].s, front);
      var s, a := Run(moments[0].s, before), actions[|actions| - 1];
      InvKnown(s);
      LeadsByEvents(trampoline, moments[|actions| - 1], a, moments[|actions|]);
      if Caused(s, a) == [] {
        assert before + Caused(s, a) == before;
      } else {
        RunOne(moments[0].s, before, Caused(s, a)[0]);
      }
    }
  }

  /** Exactly the slots in use have a context. */
  ghost predicate InOrder(now: Moment) {
    Inv(now.s) && forall i: nat {:trigger i in now.contexts} :: i in now.contexts <==> i < MAX_TASKS && now.s.states[i] != Unused
  }

  lemma NowInOrder(k: Kernel)
    requires k.Valid()
    ensures InOrder(Now(k))
  {
    hide Frame, Faithful, Left, AllParked, Apart, ContextsOf, Inv;
    k.StatesNow();
    forall i: nat
      ensures i in k.Contexts() <==> i < MAX_TASKS && k.Abs().states[i] != Unused
    {
      ContextsLeft(k.mem[..], k.tasks[..], k.lo, k.hi, Left(k.log), k.current, k.Here(), i);
    }
  }

  /** An action that is not an instruction of task `i` leaves its context alone. */
  lemma LeadsLeavesAlone(trampoline: nat, now: Moment, a: Action, next: Moment, i: nat)
    requires InOrder(now) && Leads(trampoline, now, a, next) && i in now.contexts
    requires !(a.StepAction? && now.s.current == i)
    ensures InOrder(next) && i in next.contexts && next.contexts[i] == now.contexts[i]
  {
    LeadsKeepsOrder(trampoline, now, a, next);
    hide Tick, Yield, Exit, Spawn, Stepped, NewRegs;
  }

  lemma LeadsKeepsOrder(trampoline: nat, now: Moment, a: Action, next: Moment)
    requires InOrder(now) && Leads(trampoline, now, a, next)
    ensures InOrder(next)
  {
    hide Tick, Yield, Exit, Spawn, Stepped, NewRegs, Inv, InOrder;
    OrderKnown(now);
    UsedStaysUsed(now.s);
    UsedByTasks(now.s);
    TickKeepsInv(now.s);
    ExitKeepsInv(now.s);
    if a.SpawnAction? {
      if FreeSlot(now.s.states) != 0 && a.stack != 0 {
        SpawnKeepsInv(now.s, FreeSlot(now.s.states));
        InOrderWithOneMore(now, next, FreeSlot(now.s.states));
      }
    } else {
      assert next.contexts.Keys == now.contexts.Keys;
      StillInOrder(now, next);
    }
  }

  lemma OrderKnown(now: Moment)
    requires InOrder(now)
    ensures Inv(now.s)
  {
  }

  lemma StillInOrder(now: Moment, next: Moment)
    requires InOrder(now) && Inv(next.s) && next.contexts.Keys == now.contexts.Keys
    requires forall i {:trigger now.s.states[i]} :: 0 <= i < MAX_TASKS ==> (now.s.states[i] == Unused <==> next.s.states[i] == Unused)
    ensures InOrder(next)
  {
    hide Inv;
    InvKnown(now.s);
    InvKnown(next.s);
    assert forall i: nat :: i in next.contexts <==> i in now.contexts.Keys;
  }

  lemma InOrderWithOneMore(now: Moment, next: Moment, slot: nat)
    requires InOrder(now) && Inv(next.s) && next.contexts.Keys == now.contexts.Keys + {slot} && slot < MAX_TASKS
    requires forall i {:trigger now.s.states[i]} :: 0 <= i < MAX_TASKS ==>
               (next.s.states[i] == Unused <==> now.s.states[i] == Unused && i != slot)
    ensures InOrder(next)
  {
    hide Inv;
    InvKnown(now.s);
    InvKnown(next.s);
    assert forall i: nat :: i in next.contexts <==> i in now.contexts.Keys + {slot};
  }

  lemma UsedByTasks(s: Sched)
    requires Inv(s)
    ensures forall i {:trigger s.states[i]} :: 0 <= i < MAX_TASKS ==>
              && (s.states[i] == Unused <==> Exit(s).states[i] == Unused)
              && (Spawn(s).states[i] == Unused <==> s.states[i] == Unused && (FreeSlot(s.states) == 0 || i != FreeSlot(s.states)))
  {
  }

  /** Preemption is transparent: as long as a task executes no instruction itself, its registers, stack pointer and stack
      stay as they are, whatever ticks, yields, exits, spawns and other tasks' instructions come in between. */
  lemma {:induction false} UndisturbedBetween(trampoline: nat, moments: seq<Moment>, actions: seq<Action>, n: nat, i: nat)
    requires Trace(trampoline, moments, actions) && InOrder(moments[0]) && n <= |actions|
    requires i in moments[n].contexts
    requires forall j {:trigger actions[j]} :: n <= j < |actions| ==> !(actions[j].StepAction? && moments[j].s.current == i)
    ensures i in moments[|actions|].contexts && moments[|actions|].contexts[i] == moments[n].contexts[i]
    ensures InOrder(moments[|actions|])
  {
    hide Leads, InOrder;
    if actions != [] {
      var front := actions[..|actions| - 1];
      TraceFront(trampoline, moments, actions);
      assert actions[|actions| - 1].StepAction? ==> n == |actions| || moments[|actions| - 1].s.current != i;
      if n < |actions| {
        forall j {:trigger front[j]} | n <= j < |front|
          ensures !(front[j].StepAction? && moments[..|actions|][j].s.current == i)
        {
          assert front[j] == actions[j];
        }
        UndisturbedBetween(trampoline, moments[..|actions|], front, n, i);
        LeadsLeavesAlone(trampoline, moments[|actions| - 1], actions[|actions| - 1], moments[|actions|], i);
      } else {
        TraceInOrder(trampoline, moments, actions);
      }
    }
  }

  lemma {:induction false} TraceInOrder(trampoline: nat, moments: seq<Moment>, actions: seq<Action>)
    requires Trace(trampoline, moments, actions) && InOrder(moments[0])
    ensures InOrder(moments[|actions|])
  {
    hide Leads, InOrder;
    if actions != [] {
      TraceFront(trampoline, moments, actions);
      TraceInOrder(trampoline, moments[..|actions|], actions[..|actions| - 1]);
      LeadsKeepsOrder(trampoline, moments[|actions| - 1], actions[|actions| - 1], moments[|actions|]);
    }
  }
}
