/** What holds in every run of the scheduler and the mailboxes. */
module SchedRuns {
  import opened Pages
  import opened SchedSpec

  /** A run from boot: |events| steps, each with its output. */
  datatype Run = Run(states: seq<System>, events: seq<Event>, outputs: seq<Output>)

  ghost predicate StepAt(run: Run, i: nat)
    requires |run.states| == |run.events| + 1 && |run.outputs| == |run.events| && i < |run.events|
  {
    var s := run.states[i];
    && s.current < |s.tasks| && Enabled(s, run.events[i])
    && Step(s, run.events[i]) == Done((run.states[i + 1], run.outputs[i]))
  }

  ghost predicate IsRun(run: Run, boot: Registers) {
    && |run.states| == |run.events| + 1 && |run.outputs| == |run.events|
    && run.states[0] == Boot(boot)
    && forall i :: 0 <= i < |run.events| ==> StepAt(run, i)
  }

  /** Process i of the table is pid i, and the next pid is the length of the table, always. */
  lemma {:induction false} AlwaysWellFormed(run: Run, boot: Registers, n: nat)
    requires IsRun(run, boot) && n < |run.states|
    ensures WellFormed(run.states[n])
  {
    if n > 0 {
      AlwaysWellFormed(run, boot, n - 1);
      assert StepAt(run, n - 1);
      StepWellFormed(run.states[n - 1], run.events[n - 1]);
    }
  }

  // ---------- registers ----------

  /** The registers that process p had when it was last interrupted for good, or those it was
      pushed with: found by looking back through the run. */
  ghost function LastRegisters(run: Run, boot: Registers, n: nat, p: nat): Registers
    requires |run.states| == |run.events| + 1 && n < |run.states|
  {
    if n == 0 then boot
    else
      var s, e := run.states[n - 1], run.events[n - 1];
      if Switches(s, e) && s.current == p then e.regs
      else if e.Push? && |s.tasks| == p then WithArgs(e.regs, e.args)
      else LastRegisters(run, boot, n - 1, p)
  }

  lemma {:induction false} RegistersKept(run: Run, boot: Registers, n: nat, p: nat)
    requires IsRun(run, boot) && n < |run.states| && p < |run.states[n].tasks|
    ensures run.states[n].tasks[p].regs == LastRegisters(run, boot, n, p)
  {
    if n > 0 {
      assert StepAt(run, n - 1);
      AlwaysWellFormed(run, boot, n - 1);
      if p < |run.states[n - 1].tasks| { RegistersKept(run, boot, n - 1, p); }
    }
  }

  /** The process that a switch resumes is running, and goes on with exactly the registers it
      was last interrupted with, or started with. */
  lemma ResumedAsInterrupted(run: Run, boot: Registers, i: nat)
    requires IsRun(run, boot) && i < |run.events| && Switches(run.states[i], run.events[i])
    ensures run.states[i + 1].current < |run.states[i + 1].tasks|
    ensures run.outputs[i] == Resume(LastRegisters(run, boot, i + 1, run.states[i + 1].current))
    ensures IsRunning(run.states[i + 1].tasks, run.states[i + 1].current)
  {
    var s, e := run.states[i], run.events[i];
    assert StepAt(run, i);
    AlwaysWellFormed(run, boot, i);
    AlwaysWellFormed(run, boot, i + 1);
    NextRunningIs(Saved(s, e.regs), s.current, |s.tasks|);
    RegistersKept(run, boot, i + 1, run.states[i + 1].current);
  }

  /** Between two switches one process runs, and no registers that are kept change. */
  lemma {:induction false} OneRunsBetweenSwitches(run: Run, boot: Registers, i: nat, j: nat, p: nat)
    requires IsRun(run, boot) && i <= j < |run.states| && p < |run.states[i].tasks|
    requires forall k :: i <= k < j ==> !Switches(run.states[k], run.events[k])
    ensures run.states[j].current == run.states[i].current
    ensures p < |run.states[j].tasks| && run.states[j].tasks[p].regs == run.states[i].tasks[p].regs
    decreases j
  {
    if i < j {
      OneRunsBetweenSwitches(run, boot, i, j - 1, p);
      assert StepAt(run, j - 1);
    }
  }

  // ---------- exit is for good ----------

  lemma {:induction false} NeverRunsAgain(run: Run, boot: Registers, i: nat, j: nat, p: nat)
    requires IsRun(run, boot) && i <= j < |run.states| && p < |run.states[i].tasks|
    requires run.states[i].tasks[p].state == WaitingForDeath
    ensures p < |run.states[j].tasks| && run.states[j].tasks[p].state == WaitingForDeath
    ensures run.states[j].tasks[p].returnValue == run.states[i].tasks[p].returnValue
    decreases j
  {
    if i < j {
      NeverRunsAgain(run, boot, i, j - 1, p);
      assert StepAt(run, j - 1);
    }
  }

  /** A call of exit is for good: in every later state the process waits for its death, with the
      code as far as an int holds it. */
  lemma ExitIsFinal(run: Run, boot: Registers, i: nat, j: nat)
    requires IsRun(run, boot) && i < j < |run.states| && run.events[i].Exit?
    ensures var p := run.states[i].current;
      && p < |run.states[j].tasks| && run.states[j].tasks[p].state == WaitingForDeath
      && -0x8000_0000 <= run.states[j].tasks[p].returnValue < 0x8000_0000
      && (run.events[i].code - run.states[j].tasks[p].returnValue) % 0x1_0000_0000 == 0
  {
    assert StepAt(run, i);
    AlwaysWellFormed(run, boot, i);
    NeverRunsAgain(run, boot, i + 1, j, run.states[i].current);
  }

  /** It is never dispatched again, makes no call and is sent no message. */
  lemma ExitedIsGone(run: Run, boot: Registers, i: nat, j: nat)
    requires IsRun(run, boot) && i < j < |run.events| && run.events[i].Exit?
    ensures Switches(run.states[j], run.events[j]) ==> run.states[j + 1].current != run.states[i].current
    ensures run.events[j].Send? ==> run.events[j].receiver != run.states[i].current
  {
    ExitIsFinal(run, boot, i, j);
    ExitIsFinal(run, boot, i, j + 1);
    assert StepAt(run, j);
    if Switches(run.states[j], run.events[j]) { ResumedAsInterrupted(run, boot, j); }
  }

  // ---------- what a tick does ----------

  /** A tick that is no switch lets the process go on with the registers it was interrupted with,
      and counts. */
  lemma TickGoesOn(run: Run, boot: Registers, i: nat)
    requires IsRun(run, boot) && i < |run.events| && run.events[i].Tick? && run.states[i].tick < 9
    ensures run.outputs[i] == Resume(run.events[i].regs)
    ensures run.states[i + 1] == run.states[i].(tick := run.states[i].tick + 1)
  {
    assert StepAt(run, i);
  }

  /** A switch goes to the next running process: the first with a higher number, or else the first
      of all. */
  lemma SwitchGoesOn(run: Run, boot: Registers, i: nat, q: nat)
    requires IsRun(run, boot) && i < |run.events| && run.events[i].Tick? && run.states[i].tick == 9
    requires q < |run.states[i].tasks| && run.states[i].tasks[q].state == Running
    ensures run.states[i + 1].tick == 0
    ensures var c, n := run.states[i].current, run.states[i + 1].current;
      && (n > c ==> !(c < q < n))
      && (n <= c ==> !(c < q) && !(q < n))
  {
    var s, e := run.states[i], run.events[i];
    assert StepAt(run, i);
    AlwaysWellFormed(run, boot, i);
    NextRunningIs(Saved(s, e.regs), s.current, |s.tasks|);
    assert IsRunning(Saved(s, e.regs), q);
  }

  /** Event i calls for an early switch: a forced yield, or a receive that has to wait. */
  ghost predicate Forces(run: Run, i: nat)
    requires |run.outputs| == |run.events| && i < |run.events|
  {
    run.events[i].ForceYield? || (run.events[i].ReceiveSync? && !run.outputs[i].Got?)
  }

  lemma ForcedThenSwitch(run: Run, boot: Registers, i: nat)
    requires IsRun(run, boot) && i + 1 < |run.events| && Forces(run, i) && run.events[i + 1].Tick?
    ensures Switches(run.states[i + 1], run.events[i + 1])
  {
    assert StepAt(run, i);
  }

  /** The ticks among events i to j. */
  ghost function TicksIn(run: Run, i: nat, j: nat): nat
    requires i <= j <= |run.events|
  {
    if i == j then 0 else TicksIn(run, i, j - 1) + if run.events[j - 1].Tick? then 1 else 0
  }

  lemma {:induction false} TicksCounted(run: Run, boot: Registers, i: nat, j: nat)
    requires IsRun(run, boot) && i < j <= |run.events| && Switches(run.states[i], run.events[i])
    requires forall k :: i < k < j ==> !Switches(run.states[k], run.events[k]) && !Forces(run, k)
    ensures run.states[j].tick == TicksIn(run, i + 1, j)
    decreases j
  {
    assert StepAt(run, j - 1);
    if i + 1 < j { TicksCounted(run, boot, i, j - 1); }
  }

  /** Unless it is forced, the next switch comes with the tenth tick. */
  lemma TenTicksApart(run: Run, boot: Registers, i: nat, j: nat)
    requires IsRun(run, boot) && i < j < |run.events|
    requires Switches(run.states[i], run.events[i]) && Switches(run.states[j], run.events[j])
    requires forall k :: i < k < j ==> !Switches(run.states[k], run.events[k]) && !Forces(run, k)
    ensures TicksIn(run, i + 1, j + 1) == 10
  {
    TicksCounted(run, boot, i, j);
    AlwaysWellFormed(run, boot, j);
  }

  // ---------- new processes ----------

  /** A new process is numbered behind the others and runs with its arguments in the registers of
      a call, until it is first interrupted; the others are as they were. */
  lemma PushedProcess(run: Run, boot: Registers, i: nat)
    requires IsRun(run, boot) && i < |run.events| && run.events[i].Push?
    ensures var s, s', e := run.states[i], run.states[i + 1], run.events[i];
      && |s'.tasks| == |s.tasks| + 1 && s'.tasks[..|s.tasks|] == s.tasks
      && var t := s'.tasks[|s.tasks|];
         && t.pid == |s.tasks| && t.state == Running && t.mailbox == []
         && t.regs == Registers(e.args.0, e.args.1, e.args.2, e.args.3, e.regs.others)
  {
    assert StepAt(run, i);
    AlwaysWellFormed(run, boot, i);
  }

  // ---------- bounded waiting ----------

  ghost predicate Dispatched(run: Run, i: nat, q: nat)
    requires |run.states| == |run.events| + 1 && i < |run.events|
  {
    Switches(run.states[i], run.events[i]) && run.states[i + 1].current == q
  }

  ghost function Ticks(events: seq<Event>): nat {
    if events == [] then 0 else Ticks(events[..|events| - 1]) + if events[|events| - 1].Tick? then 1 else 0
  }

  /** How long q may still have to wait, counted in ticks. */
  ghost function Wait(s: System, q: nat): int {
    (SWITCH_TICK + 1) * (Distance(s.current, q, |s.tasks|) - 1) + (SWITCH_TICK + 1 - s.tick)
  }

  lemma WaitFalls(s: System, e: Event, s': System, out: Output, q: nat)
    requires WellFormed(s) && Enabled(s, e) && Step(s, e) == Done((s', out)) && !e.Push?
    requires IsRunning(s.tasks, q) && !(Switches(s, e) && s'.current == q)
    ensures Wait(s', q) <= Wait(s, q) - if e.Tick? then 1 else 0
  {
    if Switches(s, e) {
      NextRunningIs(Saved(s, e.regs), s.current, |s.tasks|);
      assert IsRunning(Saved(s, e.regs), q);
    }
  }

  /** Between two points of a run: q runs in every state, and no process is added. */
  ghost predicate Steady(run: Run, i: nat, j: nat, q: nat)
    requires |run.states| == |run.events| + 1 && i <= j < |run.states|
  {
    && (forall k :: i <= k <= j ==> IsRunning(run.states[k].tasks, q))
    && (forall k :: i <= k < j ==> !run.events[k].Push?)
  }

  ghost predicate NotDispatched(run: Run, i: nat, j: nat, q: nat)
    requires |run.states| == |run.events| + 1 && i <= j < |run.states|
  {
    forall k :: i <= k < j ==> !Dispatched(run, k, q)
  }

  lemma {:induction false} WaitFallsOverRun(run: Run, boot: Registers, i: nat, j: nat, q: nat)
    requires IsRun(run, boot) && i <= j < |run.states| && Steady(run, i, j, q) && NotDispatched(run, i, j, q)
    ensures Wait(run.states[j], q) + Ticks(run.events[i..j]) <= Wait(run.states[i], q)
    ensures |run.states[j].tasks| == |run.states[i].tasks|
    decreases j
  {
    if i < j {
      WaitFallsOverRun(run, boot, i, j - 1, q);
      assert StepAt(run, j - 1) && !Dispatched(run, j - 1, q);
      AlwaysWellFormed(run, boot, j - 1);
      StepWellFormed(run.states[j - 1], run.events[j - 1]);
      WaitFalls(run.states[j - 1], run.events[j - 1], run.states[j], run.outputs[j - 1], q);
      assert run.events[i..j][..j - i - 1] == run.events[i..j - 1];
    }
  }

  /** A process that stays running is dispatched before SWITCH_TICK + 1 ticks for each process
      of the table have passed, if none is added meanwhile. */
  lemma BoundedWaiting(run: Run, boot: Registers, i: nat, j: nat, q: nat)
    requires IsRun(run, boot) && i <= j < |run.states| && Steady(run, i, j, q)
    requires Ticks(run.events[i..j]) >= (SWITCH_TICK + 1) * |run.states[i].tasks|
    ensures exists k :: i <= k < j && Dispatched(run, k, q)
  {
    if NotDispatched(run, i, j, q) {
      WaitFallsOverRun(run, boot, i, j, q);
      AlwaysWellFormed(run, boot, i);
      AlwaysWellFormed(run, boot, j);
      assert false;
    }
  }

  ghost function SwitchCount(run: Run, i: nat, j: nat): nat
    requires |run.states| == |run.events| + 1 && i <= j < |run.states|
    decreases j
  {
    if i == j then 0
    else SwitchCount(run, i, j - 1) + if Switches(run.states[j - 1], run.events[j - 1]) then 1 else 0
  }

  lemma DistanceFalls(s: System, e: Event, s': System, out: Output, q: nat)
    requires WellFormed(s) && Step(s, e) == Done((s', out)) && !e.Push? && IsRunning(s.tasks, q)
    requires !(Switches(s, e) && s'.current == q)
    ensures Distance(s'.current, q, |s'.tasks|) <= Distance(s.current, q, |s.tasks|) - if Switches(s, e) then 1 else 0
  {
    if Switches(s, e) {
      NextRunningIs(Saved(s, e.regs), s.current, |s.tasks|);
      assert IsRunning(Saved(s, e.regs), q);
    }
  }

  lemma {:induction false} DistanceFallsOverRun(run: Run, boot: Registers, i: nat, j: nat, q: nat)
    requires IsRun(run, boot) && i <= j < |run.states| && Steady(run, i, j, q) && NotDispatched(run, i, j, q)
    ensures Distance(run.states[j].current, q, |run.states[j].tasks|) + SwitchCount(run, i, j)
         <= Distance(run.states[i].current, q, |run.states[i].tasks|)
    decreases j
  {
    if i < j {
      DistanceFallsOverRun(run, boot, i, j - 1, q);
      assert StepAt(run, j - 1) && !Dispatched(run, j - 1, q);
      AlwaysWellFormed(run, boot, j - 1);
      DistanceFalls(run.states[j - 1], run.events[j - 1], run.states[j], run.outputs[j - 1], q);
    }
  }

  /** Such a process is dispatched within as many switches as there are processes. */
  lemma DispatchedWithinOneRound(run: Run, boot: Registers, i: nat, j: nat, q: nat)
    requires IsRun(run, boot) && i <= j < |run.states| && Steady(run, i, j, q)
    requires SwitchCount(run, i, j) >= |run.states[i].tasks|
    ensures exists k :: i <= k < j && Dispatched(run, k, q)
  {
    if NotDispatched(run, i, j, q) {
      DistanceFallsOverRun(run, boot, i, j, q);
      AlwaysWellFormed(run, boot, i);
      AlwaysWellFormed(run, boot, j);
      assert false;
    }
  }

  // ---------- messages ----------

  /** The message that step i, a send, puts into a mailbox. */
  ghost function MessageOf(run: Run, i: nat): Msg
    requires |run.states| == |run.events| + 1 && i < |run.events| && run.events[i].Send?
  {
    Msg(run.states[i].current, run.events[i].receiver, run.events[i].data)
  }

  ghost predicate Takes(run: Run, i: nat, j: nat)
    requires |run.states| == |run.events| + 1 && i < |run.events|
  {
    (run.events[i].ReceiveSync? || run.events[i].ReceiveOnce?) && run.states[i].current == j
  }

  /** The sends to j that have not been received after n steps, the earliest first: found by
      looking back through the run. */
  ghost function Pending(run: Run, n: nat, j: nat): seq<nat>
    requires |run.states| == |run.events| + 1 && n < |run.states|
  {
    if n == 0 then []
    else
      var before := Pending(run, n - 1, j);
      if run.events[n - 1].Send? && run.events[n - 1].receiver == j then before + [n - 1]
      else if Takes(run, n - 1, j) && before != [] then before[..|before| - 1]
      else before
  }

  ghost predicate SendsTo(run: Run, i: nat, j: nat)
    requires |run.states| == |run.events| + 1
  {
    i < |run.events| && run.events[i].Send? && run.events[i].receiver == j
  }

  /** p lists sends to j among the first n steps, in order. */
  ghost predicate SendsInOrder(run: Run, p: seq<nat>, n: nat, j: nat)
    requires |run.states| == |run.events| + 1
  {
    && (forall k :: 0 <= k < |p| ==> p[k] < n && SendsTo(run, p[k], j))
    && (forall k, l :: 0 <= k < l < |p| ==> p[k] < p[l])
  }

  lemma {:induction false} PendingAreSends(run: Run, n: nat, j: nat)
    requires |run.states| == |run.events| + 1 && n < |run.states|
    ensures SendsInOrder(run, Pending(run, n, j), n, j)
  {
    if n > 0 {
      var before := Pending(run, n - 1, j);
      PendingAreSends(run, n - 1, j);
      assert SendsInOrder(run, before, n, j);
      if SendsTo(run, n - 1, j) { assert SendsInOrder(run, before + [n - 1], n, j); }
    }
  }

  ghost predicate HoldsMessages(run: Run, p: seq<nat>, mailbox: seq<Msg>)
    requires |run.states| == |run.events| + 1
  {
    && |p| == |mailbox|
    && forall k :: 0 <= k < |p| ==> p[k] < |run.events| && run.events[p[k]].Send? && mailbox[k] == MessageOf(run, p[k])
  }

  /** What a step does to the mailbox of j. */
  lemma MailboxStep(run: Run, boot: Registers, i: nat, j: nat)
    requires IsRun(run, boot) && i < |run.events| && j < |run.states[i + 1].tasks|
    ensures j >= |run.states[i].tasks| ==>
      run.states[i + 1].tasks[j].mailbox == [] && !Takes(run, i, j) && !SendsTo(run, i, j)
    ensures j < |run.states[i].tasks| ==>
      var m := run.states[i].tasks[j].mailbox;
      run.states[i + 1].tasks[j].mailbox ==
        if SendsTo(run, i, j) then m + [MessageOf(run, i)]
        else if Takes(run, i, j) && m != [] then m[..|m| - 1]
        else m
  {
    assert StepAt(run, i);
    AlwaysWellFormed(run, boot, i);
  }

  /** A mailbox holds the messages sent to its owner and not yet received, each with its true
      sender, in the order in which they were sent. */
  lemma {:induction false} MailboxHoldsPending(run: Run, boot: Registers, n: nat, j: nat)
    requires IsRun(run, boot) && n < |run.states| && j < |run.states[n].tasks|
    ensures HoldsMessages(run, Pending(run, n, j), run.states[n].tasks[j].mailbox)
  {
    if n > 0 {
      MailboxStep(run, boot, n - 1, j);
      if j < |run.states[n - 1].tasks| {
        MailboxHoldsPending(run, boot, n - 1, j);
      } else {
        NothingPending(run, boot, n - 1, j);
      }
    }
  }

  /** Nothing is pending for a process that does not exist. */
  lemma {:induction false} NothingPending(run: Run, boot: Registers, n: nat, j: nat)
    requires IsRun(run, boot) && n < |run.states| && j >= |run.states[n].tasks|
    ensures Pending(run, n, j) == []
  {
    if n > 0 {
      assert StepAt(run, n - 1);
      AlwaysWellFormed(run, boot, n - 1);
      StepWellFormed(run.states[n - 1], run.events[n - 1]);
      NothingPending(run, boot, n - 1, j);
    }
  }

  /** What a receive gets of a mailbox. */
  function TakenFrom(mailbox: seq<Msg>): Output {
    if mailbox == [] then Nothing else Got(mailbox[|mailbox| - 1])
  }

  lemma OutputOfReceive(run: Run, boot: Registers, i: nat, j: nat)
    requires IsRun(run, boot) && i < |run.events| && Takes(run, i, j)
    ensures j < |run.states[i].tasks| && run.outputs[i] == TakenFrom(run.states[i].tasks[j].mailbox)
  {
    assert StepAt(run, i);
    AlwaysWellFormed(run, boot, i);
  }

  /** The last of the pending messages p. */
  ghost predicate Latest(run: Run, p: seq<nat>, n: nat, j: nat, out: Output)
    requires |run.states| == |run.events| + 1
  {
    if p == [] then out == Nothing
    else
      var last := p[|p| - 1];
      SendsTo(run, last, j) && out == Got(MessageOf(run, last)) && forall k :: 0 <= k < |p| ==> p[k] <= last < n
  }

  lemma LastPending(run: Run, p: seq<nat>, n: nat, j: nat, mailbox: seq<Msg>)
    requires |run.states| == |run.events| + 1
    requires SendsInOrder(run, p, n, j) && HoldsMessages(run, p, mailbox)
    ensures Latest(run, p, n, j, TakenFrom(mailbox))
  {
  }

  /** A receive returns the pending message that was sent last. */
  lemma ReceivesLatest(run: Run, boot: Registers, i: nat, j: nat)
    requires IsRun(run, boot) && i < |run.events| && Takes(run, i, j)
    ensures Latest(run, Pending(run, i, j), i, j, run.outputs[i])
  {
    OutputOfReceive(run, boot, i, j);
    MailboxHoldsPending(run, boot, i, j);
    PendingAreSends(run, i, j);
    LastPending(run, Pending(run, i, j), i, j, run.states[i].tasks[j].mailbox);
  }

  /** The loop of a synchronous receive ends as soon as a message is pending.  As long as none is
      it takes nothing away and gives the rest of its time to the others: the next tick switches. */
  lemma ReceiveWaits(run: Run, boot: Registers, i: nat)
    requires IsRun(run, boot) && i < |run.events| && run.events[i].ReceiveSync?
    ensures run.outputs[i].Got? <==> Pending(run, i, run.states[i].current) != []
    ensures !run.outputs[i].Got? ==> run.states[i + 1].tasks == run.states[i].tasks
    ensures !run.outputs[i].Got? && i + 1 < |run.events| && run.events[i + 1].Tick? ==>
      Switches(run.states[i + 1], run.events[i + 1])
  {
    ReceivesLatest(run, boot, i, run.states[i].current);
    assert StepAt(run, i);
  }

  // ---------- conservation ----------

  ghost function Mailboxes(tasks: seq<Task>): multiset<Msg> {
    if tasks == [] then multiset{}
    else Mailboxes(tasks[..|tasks| - 1]) + multiset(tasks[|tasks| - 1].mailbox)
  }

  lemma AddToBoth<T>(x: multiset<T>, a: multiset<T>, y: multiset<T>, b: multiset<T>, t: multiset<T>)
    requires x + a == y + b
    ensures (x + t) + a == (y + t) + b
  {
    assert (x + t) + a == (x + a) + t;
    assert (y + t) + b == (y + b) + t;
  }

  lemma Cancel<T>(x: multiset<T>, y: multiset<T>, a: multiset<T>)
    requires x + a == y + a
    ensures x == y
  {
    forall e
      ensures x[e] == y[e]
    {
      assert (x + a)[e] == (y + a)[e];
    }
  }

  lemma {:induction false} MailboxesUpdate(tasks: seq<Task>, j: nat, task: Task)
    requires j < |tasks|
    ensures Mailboxes(tasks[j := task]) + multiset(tasks[j].mailbox) == Mailboxes(tasks) + multiset(task.mailbox)
    decreases |tasks|
  {
    var n, tasks' := |tasks| - 1, tasks[j := task];
    if j < n {
      MailboxesUpdate(tasks[..n], j, task);
      assert tasks'[..n] == tasks[..n][j := task] && tasks'[n] == tasks[n];
      AddToBoth(Mailboxes(tasks'[..n]), multiset(tasks[j].mailbox), Mailboxes(tasks[..n]), multiset(task.mailbox),
                multiset(tasks[n].mailbox));
    } else {
      assert tasks'[..n] == tasks[..n];
    }
  }

  lemma MailboxesAppend(tasks: seq<Task>, task: Task)
    ensures Mailboxes(tasks + [task]) == Mailboxes(tasks) + multiset(task.mailbox)
  {
  }

  ghost function SentAt(s: System, e: Event): multiset<Msg> {
    if e.Send? then multiset{Msg(s.current, e.receiver, e.data)} else multiset{}
  }

  ghost function ReceivedAt(out: Output): multiset<Msg> {
    if out.Got? then multiset{out.msg} else multiset{}
  }

  lemma MailKept(tasks: seq<Task>, j: nat, task: Task)
    requires j < |tasks| && task.mailbox == tasks[j].mailbox
    ensures Mailboxes(tasks[j := task]) == Mailboxes(tasks)
  {
    MailboxesUpdate(tasks, j, task);
    Cancel(Mailboxes(tasks[j := task]), Mailboxes(tasks), multiset(task.mailbox));
  }

  lemma MailAdded(tasks: seq<Task>, j: nat, task: Task, m: Msg)
    requires j < |tasks| && task.mailbox == tasks[j].mailbox + [m]
    ensures Mailboxes(tasks[j := task]) == Mailboxes(tasks) + multiset{m}
  {
    var oldMail := multiset(tasks[j].mailbox);
    MailboxesUpdate(tasks, j, task);
    assert multiset(task.mailbox) == oldMail + multiset{m};
    assert Mailboxes(tasks[j := task]) + oldMail == (Mailboxes(tasks) + multiset{m}) + oldMail;
    Cancel(Mailboxes(tasks[j := task]), Mailboxes(tasks) + multiset{m}, oldMail);
  }

  lemma TickConserves(s: System, regs: Registers)
    requires WellFormed(s)
    ensures Mailboxes(Saved(s, regs)) == Mailboxes(s.tasks)
  {
    MailKept(s.tasks, s.current, s.tasks[s.current].(regs := regs));
  }

  lemma PushConserves(s: System, regs: Registers, args: (nat, nat, nat, nat))
    ensures Mailboxes(PushStep(s, regs, args).tasks) == Mailboxes(s.tasks)
  {
  }

  lemma ExitConserves(s: System, code: nat)
    requires WellFormed(s)
    ensures Mailboxes(ExitStep(s, code).tasks) == Mailboxes(s.tasks)
  {
    MailKept(s.tasks, s.current, s.tasks[s.current].(returnValue := AsInt(code), state := WaitingForDeath));
  }

  lemma SendConserves(s: System, j: nat, m: Msg)
    requires j < |s.tasks|
    ensures Mailboxes(Mailed(s, j, s.tasks[j].mailbox + [m]).tasks) == Mailboxes(s.tasks) + multiset{m}
  {
    MailAdded(s.tasks, j, s.tasks[j].(mailbox := s.tasks[j].mailbox + [m]), m);
  }

  lemma ReceiveConserves(s: System)
    requires WellFormed(s) && s.tasks[s.current].mailbox != []
    ensures Mailboxes(s.tasks) == Mailboxes(ReceiveStep(s).0.tasks) + ReceivedAt(ReceiveStep(s).1)
  {
    var m := s.tasks[s.current].mailbox;
    var tasks' := ReceiveStep(s).0.tasks;
    assert m == m[..|m| - 1] + [m[|m| - 1]];
    MailAdded(tasks', s.current, s.tasks[s.current], m[|m| - 1]);
    assert tasks'[s.current := s.tasks[s.current]] == s.tasks;
  }

  lemma QuietConserves(s: System, e: Event, s': System, out: Output)
    requires WellFormed(s) && Step(s, e) == Done((s', out)) && !e.Send? && !e.ReceiveSync? && !e.ReceiveOnce?
    ensures Mailboxes(s'.tasks) == Mailboxes(s.tasks) && !out.Got?
  {
    match e
    case Tick(regs) => TickConserves(s, regs);
    case ForceYield =>
    case Push(regs, args) => PushConserves(s, regs, args);
    case Exit(code) => ExitConserves(s, code);
  }

  lemma DeliveryIs(s: System, receiver: nat, data: nat, s': System, out: Output, m: Msg)
    requires WellFormed(s) && Step(s, Send(receiver, data)) == Done((s', out)) && m == Msg(s.current, receiver, data)
    ensures receiver < |s.tasks| && s' == Mailed(s, receiver, s.tasks[receiver].mailbox + [m]) && !out.Got?
  {
  }

  lemma DeliveryConserves(s: System, receiver: nat, data: nat, s': System, out: Output)
    requires WellFormed(s) && Step(s, Send(receiver, data)) == Done((s', out))
    ensures Mailboxes(s'.tasks) == Mailboxes(s.tasks) + multiset{Msg(s.current, receiver, data)} && !out.Got?
  {
    var m := Msg(s.current, receiver, data);
    DeliveryIs(s, receiver, data, s', out, m);
    SendConserves(s, receiver, m);
  }

  lemma TakingConserves(s: System, e: Event, s': System, out: Output)
    requires WellFormed(s) && Step(s, e) == Done((s', out)) && (e.ReceiveSync? || e.ReceiveOnce?)
    ensures Mailboxes(s.tasks) == Mailboxes(s'.tasks) + ReceivedAt(out)
  {
    TakingIs(s, e, s', out);
    if s.tasks[s.current].mailbox != [] { ReceiveConserves(s); }
  }

  lemma TakingIs(s: System, e: Event, s': System, out: Output)
    requires WellFormed(s) && Step(s, e) == Done((s', out)) && (e.ReceiveSync? || e.ReceiveOnce?)
    ensures if s.tasks[s.current].mailbox != [] then (s', out) == ReceiveStep(s)
            else s'.tasks == s.tasks && out == Nothing
  {
  }

  lemma StepConserves(s: System, e: Event, s': System, out: Output)
    requires WellFormed(s) && Step(s, e) == Done((s', out))
    ensures Mailboxes(s.tasks) + SentAt(s, e) == Mailboxes(s'.tasks) + ReceivedAt(out)
  {
    match e
    case Send(receiver, data) => DeliveryConserves(s, receiver, data, s', out);
    case ReceiveSync => TakingConserves(s, e, s', out);
    case ReceiveOnce => TakingConserves(s, e, s', out);
    case _ => QuietConserves(s, e, s', out);
  }

  ghost function Sent(run: Run, n: nat): multiset<Msg>
    requires n <= |run.events| <= |run.states|
  {
    if n == 0 then multiset{} else Sent(run, n - 1) + SentAt(run.states[n - 1], run.events[n - 1])
  }

  ghost function Received(run: Run, n: nat): multiset<Msg>
    requires n <= |run.outputs|
  {
    if n == 0 then multiset{} else Received(run, n - 1) + ReceivedAt(run.outputs[n - 1])
  }

  lemma StepOfRunConserves(run: Run, boot: Registers, i: nat)
    requires IsRun(run, boot) && i < |run.events|
    ensures Mailboxes(run.states[i].tasks) + SentAt(run.states[i], run.events[i])
         == Mailboxes(run.states[i + 1].tasks) + ReceivedAt(run.outputs[i])
  {
    assert StepAt(run, i);
    AlwaysWellFormed(run, boot, i);
    StepConserves(run.states[i], run.events[i], run.states[i + 1], run.outputs[i]);
  }

  ghost predicate Balanced(sent: multiset<Msg>, received: multiset<Msg>, mail: multiset<Msg>) {
    sent == received + mail
  }

  lemma AddUp(sent: multiset<Msg>, received: multiset<Msg>, m: multiset<Msg>, m': multiset<Msg>, a: multiset<Msg>,
              b: multiset<Msg>, sent': multiset<Msg>, received': multiset<Msg>)
    requires Balanced(sent, received, m) && m + a == m' + b
    requires sent' == sent + a && received' == received + b
    ensures Balanced(sent', received', m')
  {
    assert sent' == received + (m + a);
    assert received' + m' == received + (m' + b);
  }

  lemma OneMoreEvent(run: Run, i: nat)
    requires i < |run.events| <= |run.states| && i < |run.outputs|
    ensures Sent(run, i + 1) == Sent(run, i) + SentAt(run.states[i], run.events[i])
    ensures Received(run, i + 1) == Received(run, i) + ReceivedAt(run.outputs[i])
  {
  }

  ghost predicate Conserved(run: Run, n: nat)
    requires n < |run.states| && n <= |run.events| <= |run.states| && n <= |run.outputs|
  {
    Balanced(Sent(run, n), Received(run, n), Mailboxes(run.states[n].tasks))
  }

  lemma StepBalanced(run: Run, boot: Registers, i: nat, n: nat)
    requires IsRun(run, boot) && n == i + 1 && n < |run.states| && Conserved(run, i)
    ensures Conserved(run, n)
  {
    StepOfRunConserves(run, boot, i);
    OneMoreEvent(run, i);
    AddUp(Sent(run, i), Received(run, i), Mailboxes(run.states[i].tasks), Mailboxes(run.states[i + 1].tasks),
          SentAt(run.states[i], run.events[i]), ReceivedAt(run.outputs[i]), Sent(run, i + 1), Received(run, i + 1));
  }

  lemma StartBalanced(run: Run, boot: Registers)
    requires IsRun(run, boot)
    ensures Conserved(run, 0)
  {
    BootHasNoMail(boot);
  }

  lemma {:induction false} RunBalanced(run: Run, boot: Registers, n: nat)
    requires IsRun(run, boot) && n < |run.states|
    ensures Conserved(run, n)
  {
    if n == 0 {
      StartBalanced(run, boot);
    } else {
      RunBalanced(run, boot, n - 1);
      StepBalanced(run, boot, n - 1, n);
    }
  }

  /** No message is lost, made up or received twice. */
  lemma MessagesConserved(run: Run, boot: Registers, n: nat)
    requires IsRun(run, boot) && n < |run.states|
    ensures Sent(run, n) == Received(run, n) + Mailboxes(run.states[n].tasks)
  {
    RunBalanced(run, boot, n);
  }

  lemma BootHasNoMail(boot: Registers)
    ensures Mailboxes(Boot(boot).tasks) == multiset{}
  {
    MailboxesAppend([], Task(0, Running, boot, 0, []));
  }
}
