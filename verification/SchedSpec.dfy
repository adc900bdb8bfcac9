/** The scheduler and the mailboxes as a transition system: what one tick, one system call and
    one new process do, and what every run of them keeps. */
module SchedSpec {
  import opened Pages

  const SWITCH_TICK: nat := 9

  datatype Registers = Registers(rdi: nat, rsi: nat, rdx: nat, rcx: nat, others: seq<nat>)

  datatype TaskState = Running | Idle | WaitingForDeath | Dead

  datatype Msg = Msg(sender: nat, receiver: nat, data: nat)

  datatype Task = Task(pid: nat, state: TaskState, regs: Registers, returnValue: int, mailbox: seq<Msg>)

  datatype System = System(tasks: seq<Task>, tick: nat, current: nat, lastPid: nat)

  datatype Event =
    | Tick(regs: Registers)            // the timer interrupts the current process
    | ForceYield
    | Push(regs: Registers, args: (nat, nat, nat, nat))
    | Exit(code: nat)
    | Send(receiver: nat, data: nat)
    | ReceiveSync                      // one turn of its loop
    | ReceiveOnce

  datatype Output = Nothing | Resume(regs: Registers) | Got(msg: Msg)

  // ---------- the search for the next process ----------

  /** next_pid: the index behind c, around the table. */
  function NextIndex(c: nat, n: nat): nat {
    if c + 1 == n then 0 else c + 1
  }

  predicate IsRunning(tasks: seq<Task>, i: nat) {
    i < |tasks| && tasks[i].state == Running
  }

  /** The first running process among the k indices behind c. */
  function NextRunning(tasks: seq<Task>, c: nat, k: nat): Option<nat>
    requires c < |tasks|
    decreases k
  {
    if k == 0 then None
    else
      var i := NextIndex(c, |tasks|);
      if IsRunning(tasks, i) then Some(i) else NextRunning(tasks, i, k - 1)
  }

  /** How many indices on from c, around the table, q is: from 1 to n. */
  function Distance(c: nat, q: nat, n: nat): int {
    if c < q then q - c else q - c + n
  }

  lemma {:induction false} NextRunningIs(tasks: seq<Task>, c: nat, k: nat)
    requires c < |tasks| && k <= |tasks|
    ensures var r := NextRunning(tasks, c, k);
      && (r.Some? ==> IsRunning(tasks, r.value) && 1 <= Distance(c, r.value, |tasks|) <= k)
      && forall q :: IsRunning(tasks, q) && Distance(c, q, |tasks|) <= k ==>
           r.Some? && Distance(c, r.value, |tasks|) <= Distance(c, q, |tasks|)
    decreases k
  {
    if k > 0 {
      var i := NextIndex(c, |tasks|);
      if !IsRunning(tasks, i) {
        NextRunningIs(tasks, i, k - 1);
      }
    }
  }

  /** i is running, and nobody is on the way from c to i. */
  ghost predicate FirstRunning(tasks: seq<Task>, c: nat, i: nat) {
    IsRunning(tasks, i) && forall q: nat :: IsRunning(tasks, q) ==> Distance(c, i, |tasks|) <= Distance(c, q, |tasks|)
  }

  /** The search ends if and only if some process is running; it then ends at the first one in
      cyclic order, the current process last. */
  lemma SearchIs(tasks: seq<Task>, c: nat)
    requires c < |tasks|
    ensures NextRunning(tasks, c, |tasks|).Some? <==> exists q: nat :: IsRunning(tasks, q)
    ensures forall i: nat :: NextRunning(tasks, c, |tasks|) == Some(i) <==> FirstRunning(tasks, c, i)
  {
    NextRunningIs(tasks, c, |tasks|);
    var r := NextRunning(tasks, c, |tasks|);
    forall i: nat
      ensures r == Some(i) <==> FirstRunning(tasks, c, i)
    {
      if FirstRunning(tasks, c, i) {
        assert Distance(c, i, |tasks|) == Distance(c, r.value, |tasks|);
      }
    }
  }

  // ---------- one step ----------

  /** sched_init: the kernel process alone. */
  function Boot(regs: Registers): System {
    System([Task(0, Running, regs, 0, [])], 0, 0, 1)
  }

  function WithArgs(regs: Registers, args: (nat, nat, nat, nat)): Registers {
    regs.(rdi := args.0, rsi := args.1, rdx := args.2, rcx := args.3)
  }

  predicate Switches(s: System, e: Event) {
    e.Tick? && s.tick + 1 >= SWITCH_TICK + 1
  }

  function Saved(s: System, regs: Registers): seq<Task>
    requires s.current < |s.tasks|
  {
    s.tasks[s.current := s.tasks[s.current].(regs := regs)]
  }

  function YieldStep(s: System, regs: Registers): Outcome<(System, Output)>
    requires s.current < |s.tasks|
  {
    if s.tick + 1 < SWITCH_TICK + 1 then Done((s.(tick := s.tick + 1), Resume(regs)))
    else
      var tasks := Saved(s, regs);
      match NextRunning(tasks, s.current, |tasks|)
      case None => Hung
      case Some(i) =>
        if i < |tasks| then Done((s.(tasks := tasks, tick := 0, current := i), Resume(tasks[i].regs))) else Hung
  }

  function PushStep(s: System, regs: Registers, args: (nat, nat, nat, nat)): System {
    s.(tasks := s.tasks + [Task(s.lastPid, Running, WithArgs(regs, args), 0, [])], lastPid := s.lastPid + 1)
  }

  /** What an int keeps of a 64-bit value: the one number in its range that differs from the
      value by a multiple of 2^32. */
  function AsInt(code: nat): (r: int)
    ensures -0x8000_0000 <= r < 0x8000_0000 && (code - r) % TWO_32 == 0
  {
    var low := code % TWO_32;
    if low < 0x8000_0000 then low else low - TWO_32
  }

  function ExitStep(s: System, code: nat): System
    requires s.current < |s.tasks|
  {
    s.(tasks := s.tasks[s.current := s.tasks[s.current].(returnValue := AsInt(code), state := WaitingForDeath)])
  }

  function Mailed(s: System, j: nat, mailbox: seq<Msg>): System
    requires j < |s.tasks|
  {
    s.(tasks := s.tasks[j := s.tasks[j].(mailbox := mailbox)])
  }

  /** A message to nobody, or to a process that has exited, stops the kernel. */
  function SendStep(s: System, receiver: nat, data: nat): Outcome<(System, Output)>
    requires s.current < |s.tasks|
  {
    if IsRunning(s.tasks, receiver) then
      Done((Mailed(s, receiver, s.tasks[receiver].mailbox + [Msg(s.tasks[s.current].pid, receiver, data)]), Nothing))
    else Halted
  }

  function ReceiveStep(s: System): (System, Output)
    requires s.current < |s.tasks| && s.tasks[s.current].mailbox != []
  {
    var m := s.tasks[s.current].mailbox;
    (Mailed(s, s.current, m[..|m| - 1]), Got(m[|m| - 1]))
  }

  function Step(s: System, e: Event): Outcome<(System, Output)>
    requires s.current < |s.tasks|
  {
    match e
    case Tick(regs) => YieldStep(s, regs)
    case ForceYield => Done((s.(tick := SWITCH_TICK), Nothing))
    case Push(regs, args) => Done((PushStep(s, regs, args), Nothing))
    case Exit(code) => Done((ExitStep(s, code), Nothing))
    case Send(receiver, data) => SendStep(s, receiver, data)
    case ReceiveSync =>
      if s.tasks[s.current].mailbox == [] then Done((s.(tick := SWITCH_TICK), Nothing)) else Done(ReceiveStep(s))
    case ReceiveOnce =>
      if s.tasks[s.current].mailbox == [] then Done((s, Nothing)) else Done(ReceiveStep(s))
  }

  /** Only a running process makes system calls. */
  predicate Enabled(s: System, e: Event) {
    e.Tick? || e.ForceYield? || e.Push? || IsRunning(s.tasks, s.current)
  }

  // ---------- what every step keeps ----------

  ghost predicate Numbered(tasks: seq<Task>) {
    forall i :: 0 <= i < |tasks| ==> tasks[i].pid == i
  }

  /** Every message in a mailbox is for its owner. */
  ghost predicate Addressed(tasks: seq<Task>) {
    forall i, k :: 0 <= i < |tasks| && 0 <= k < |tasks[i].mailbox| ==> tasks[i].mailbox[k].receiver == i
  }

  ghost predicate WellFormed(s: System) {
    && s.current < |s.tasks| && s.lastPid == |s.tasks| && s.tick <= SWITCH_TICK
    && Numbered(s.tasks) && Addressed(s.tasks)
  }

  /** Saving registers renumbers nothing and moves no message. */
  lemma SavedOrdered(s: System, regs: Registers)
    requires s.current < |s.tasks| && Numbered(s.tasks) && Addressed(s.tasks)
    ensures Numbered(Saved(s, regs)) && Addressed(Saved(s, regs))
  {
  }

  lemma DeliveryWellFormed(s: System, m: Msg)
    requires WellFormed(s) && m.receiver < |s.tasks|
    ensures WellFormed(Mailed(s, m.receiver, s.tasks[m.receiver].mailbox + [m]))
  {
  }

  lemma ReceiptWellFormed(s: System)
    requires WellFormed(s) && s.tasks[s.current].mailbox != []
    ensures WellFormed(ReceiveStep(s).0)
  {
  }

  lemma PushWellFormed(s: System, regs: Registers, args: (nat, nat, nat, nat))
    requires WellFormed(s)
    ensures WellFormed(PushStep(s, regs, args))
  {
  }

  lemma ExitWellFormed(s: System, code: nat)
    requires WellFormed(s)
    ensures WellFormed(ExitStep(s, code))
  {
  }

  lemma StepWellFormed(s: System, e: Event)
    requires WellFormed(s) && Enabled(s, e) && Step(s, e).Done?
    ensures WellFormed(Step(s, e).value.0)
    ensures |Step(s, e).value.0.tasks| == |s.tasks| + (if e.Push? then 1 else 0)
  {
  }

  /** A step hangs only in the timer, when it is time to switch and nobody is running; it stops
      the kernel only in a send to a process that is not running. */
  lemma StepFailsIff(s: System, e: Event)
    requires WellFormed(s)
    ensures Step(s, e).Hung? <==> Switches(s, e) && forall q: nat :: !IsRunning(s.tasks, q)
    ensures Step(s, e).Halted? <==> e.Send? && !IsRunning(s.tasks, e.receiver)
  {
    if Switches(s, e) {
      SearchIs(Saved(s, e.regs), s.current);
      assert forall q: nat :: IsRunning(Saved(s, e.regs), q) == IsRunning(s.tasks, q);
    }
  }
}
