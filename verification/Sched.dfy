/** sched.c and syscall.c: the process table, the timer and the system calls. */
module Sched {
  import opened Pages
  import opened SchedSpec
  import Vec

  class Process {
    var regs: Registers
    var pid: nat
    var state: TaskState
    var returnValue: int
    const mailbox: Vec.Vector<Msg>

    /** kcalloc, and what task_init or sched_init fill in. */
    constructor (regs: Registers)
      ensures Shows(Task(0, Running, regs, 0, []))
      ensures fresh(mailbox) && fresh(mailbox.data)
    {
      this.regs, pid, state, returnValue := regs, 0, Running, 0;
      mailbox := new Vec.Vector();
    }

    /** The process is the task t of the transition system. */
    ghost predicate Shows(t: Task)
      reads this, mailbox, mailbox.data
    {
      mailbox.Valid() && t == Task(pid, state, regs, returnValue, mailbox.Contents())
    }
  }

  /** The mailboxes of the processes, and the arrays they are in. */
  ghost function Mailboxes(s: seq<Process>): set<Vec.Vector<Msg>> {
    set i | 0 <= i < |s| :: s[i].mailbox
  }

  ghost function Arrays(s: seq<Process>): set<array<Msg>>
    reads Mailboxes(s)
  {
    set i | 0 <= i < |s| :: s[i].mailbox.data
  }

  /** Two processes that have no memory in common. */
  ghost predicate Apart(p: Process, q: Process)
    reads p.mailbox, q.mailbox
  {
    p != q && p.mailbox != q.mailbox && p.mailbox.data != q.mailbox.data
  }

  class Scheduler {
    var processes: seq<Process>
    var tick: nat
    var currentPid: nat
    var lastPid: nat
    ghost var tasks: seq<Task>      // what the processes are

    ghost predicate Distinct()
      reads this`processes, Mailboxes(processes)
    {
      forall i, j :: 0 <= i < j < |processes| ==> Apart(processes[i], processes[j])
    }

    ghost predicate AllShown()
      reads this`processes, this`tasks, processes, Mailboxes(processes), Arrays(processes)
    {
      |tasks| == |processes| && forall i :: 0 <= i < |processes| ==> processes[i].Shows(tasks[i])
    }

    ghost function View(): System
      reads this
    {
      System(tasks, tick, currentPid, lastPid)
    }

    ghost predicate Valid()
      reads this, processes, Mailboxes(processes), Arrays(processes)
    {
      Distinct() && AllShown() && WellFormed(View()) && |processes| < TWO_64
    }

    /** sched_init.  The registers of the kernel process are zero until it is first interrupted. */
    constructor (zero: Registers)
      ensures Valid() && View() == Boot(zero) && fresh(processes) && fresh(Mailboxes(processes))
      ensures fresh(Arrays(processes))
    {
      var kernel := new Process(zero);
      processes, tick, currentPid, lastPid := [kernel], 0, 0, 1;
      tasks := Boot(zero).tasks;
    }

    method NextPid() returns (pid: nat)
      requires |processes| > 0 && currentPid < |processes| < TWO_64
      modifies this`currentPid
      ensures pid == currentPid == NextIndex(old(currentPid), |processes|)
    {
      var c: int := currentPid;
      if currentPid + 1 == |processes| {
        c := TWO_64 - 1;
      }
      c := if c + 1 == TWO_64 then 0 else c + 1;
      currentPid := c;
      pid := c;
    }

    /** The search for the next running process.  A whole round without one never ends. */
    method Search() returns (found: bool)
      requires Distinct() && AllShown() && currentPid < |processes| < TWO_64
      modifies this`currentPid
      ensures Distinct() && AllShown()
      ensures match NextRunning(tasks, old(currentPid), |tasks|)
              case Some(i) => found && currentPid == i
              case None => !found
      ensures found ==> currentPid < |processes| && processes[currentPid].regs == tasks[currentPid].regs
    {
      var steps := 0;
      while steps < |processes|
        invariant 0 <= steps <= |processes| && currentPid < |processes|
        invariant NextRunning(tasks, currentPid, |processes| - steps)
                  == NextRunning(tasks, old(currentPid), |processes|)
      {
        var pid := NextPid();
        assert processes[pid].Shows(tasks[pid]);
        if processes[pid].state == Running {
          return true;
        }
        steps := steps + 1;
      }
      found := false;
    }

    /** arch_context_save */
    method Save(cpu: Registers)
      requires Distinct() && AllShown() && currentPid < |processes|
      modifies processes[currentPid], this`tasks
      ensures Distinct() && AllShown() && tasks == old(Saved(View(), cpu))
    {
      assert processes[currentPid].Shows(tasks[currentPid]);
      processes[currentPid].regs := cpu;
      tasks := Saved(View(), cpu);
    }

    /** yield_task: the timer.  cpu: the registers of the interrupted process, replaced by those
        of the process that goes on. */
    method YieldTask(cpu: Registers) returns (r: Outcome<Registers>)
      requires Valid()
      modifies this`tick, this`currentPid, this`tasks, processes[currentPid]
      ensures match old(Step(View(), Tick(cpu)))
              case Done(v) => Valid() && View() == v.0 && r.Done? && v.1 == Resume(r.value)
              case Hung => r == Hung
              case Halted => false
      ensures old(tick) < 9 ==> r == Done(cpu) && tick == old(tick) + 1 && tasks == old(tasks)
    {
      tick := tick + 1;
      if tick < SWITCH_TICK + 1 {
        return Done(cpu);
      }
      tick := 0;
      r := Switch(cpu);
    }

    /** The part of yield_task behind the counter. */
    method Switch(cpu: Registers) returns (r: Outcome<Registers>)
      requires Valid()
      modifies this`currentPid, this`tasks, processes[currentPid]
      ensures match NextRunning(old(Saved(View(), cpu)), old(currentPid), old(|tasks|))
              case Some(i) => Valid() && tasks == old(Saved(View(), cpu)) && currentPid == i && r == Done(tasks[i].regs)
              case None => r == Hung
    {
      SavedOrdered(View(), cpu);
      Save(cpu);
      var found := Search();
      if !found {
        return Hung;
      }
      r := Done(processes[currentPid].regs);
    }

    method ForceYield()
      requires Valid()
      modifies this`tick
      ensures Valid() && Done((View(), Nothing)) == old(Step(View(), Event.ForceYield))
    {
      tick := SWITCH_TICK;
    }

    /** sched_push_process5.  granted: whether the table can grow when it has to. */
    method PushProcess(p: Process, a1: nat, a2: nat, a3: nat, a4: nat, granted: bool) returns (r: Outcome<()>)
      requires Valid() && p.Shows(Task(p.pid, Running, p.regs, 0, []))
      requires forall i :: 0 <= i < |processes| ==> Apart(processes[i], p)
      requires |processes| + 1 < TWO_64
      modifies this`processes, this`lastPid, this`tasks, p
      ensures granted ==> r == Done(()) && Valid() && processes == old(processes) + [p]
      ensures granted ==> Done((View(), Nothing)) == old(Step(View(), Push(p.regs, (a1, a2, a3, a4))))
      ensures !granted ==> r == Halted
    {
      ghost var s, regs := View(), p.regs;
      PushWellFormed(s, regs, (a1, a2, a3, a4));
      p.pid := lastPid;
      lastPid := lastPid + 1;
      p.regs := p.regs.(rdi := a1, rsi := a2, rdx := a3, rcx := a4);
      if !granted {
        return Halted;
      }
      processes := processes + [p];
      tasks := PushStep(s, regs, (a1, a2, a3, a4)).tasks;
      assert p.Shows(tasks[|tasks| - 1]);
      r := Done(());
    }

    /** sched_get_by_pid */
    method GetByPid(pid: nat) returns (p: Process?)
      requires Valid()
      ensures p == if IsRunning(tasks, pid) then processes[pid] else null
    {
      p := null;
      if |processes| > pid {
        assert processes[pid].Shows(tasks[pid]);
        if processes[pid].state == Running {
          p := processes[pid];
        }
      }
    }

    // ---------- system calls of the current process ----------

    method Exit(code: nat)
      requires Valid()
      modifies processes[currentPid], this`tasks
      ensures Valid() && Done((View(), Nothing)) == old(Step(View(), Event.Exit(code)))
      ensures processes[currentPid].state == WaitingForDeath
    {
      var current := processes[currentPid];
      ExitWellFormed(View(), code);
      assert current.Shows(tasks[currentPid]);
      current.returnValue := AsInt(code);
      current.state := WaitingForDeath;
      tasks := ExitStep(View(), code).tasks;
    }

    /** syscall_ipcsend.  granted: whether the mailbox can grow when it has to. */
    method IpcSend(receiver: nat, data: nat, granted: bool) returns (r: Outcome<()>)
      requires Valid()
      modifies this`tasks, Mailboxes(processes), Arrays(processes)
      ensures match old(Step(View(), Send(receiver, data)))
              case Done(v) =>
                if granted || old(Spare(receiver)) then r == Done(()) && Valid() && (View(), Nothing) == v
                else r == Halted
              case _ => r == Halted
    {
      assert processes[currentPid].Shows(tasks[currentPid]);
      var sender := processes[currentPid].pid;
      var proc := GetByPid(receiver);
      if proc == null {
        return Halted;
      }
      var ok := Deliver(proc, Msg(sender, receiver, data), granted);
      r := if ok then Done(()) else Halted;
    }

    /** vec_push to the mailbox of the receiver */
    method Deliver(proc: Process, msg: Msg, granted: bool) returns (ok: bool)
      requires Valid() && msg.receiver < |processes| && proc == processes[msg.receiver]
      modifies this`tasks, proc.mailbox, proc.mailbox.data
      ensures ok <==> granted || old(Spare(msg.receiver))
      ensures ok ==> Valid() && View() == old(Mailed(View(), msg.receiver, tasks[msg.receiver].mailbox + [msg]))
    {
      DeliveryWellFormed(View(), msg);
      assert proc.Shows(tasks[msg.receiver]);
      ok := proc.mailbox.Push(msg, granted);
      if ok {
        tasks := Mailed(View(), msg.receiver, tasks[msg.receiver].mailbox + [msg]).tasks;
      }
    }

    /** The mailbox of process i need not grow for one more message. */
    ghost predicate Spare(i: nat)
      reads this`processes, Mailboxes(processes)
    {
      i < |processes| && processes[i].mailbox.length < processes[i].mailbox.capacity
    }

    /** vec_pop of the current process's mailbox */
    method Pop() returns (msg: Msg)
      requires Valid() && tasks[currentPid].mailbox != []
      modifies this`tasks, processes[currentPid].mailbox
      ensures Valid() && (View(), Got(msg)) == old(ReceiveStep(View()))
    {
      var proc := processes[currentPid];
      ReceiptWellFormed(View());
      assert proc.Shows(tasks[currentPid]);
      msg := proc.mailbox.Pop();
      tasks := ReceiveStep(View()).0.tasks;
    }

    /** One turn of the loop of syscall_ipcrcv_sync, which goes on until a message is there. */
    method IpcReceiveSync() returns (msg: Option<Msg>)
      requires Valid()
      modifies this`tick, this`tasks, processes[currentPid].mailbox
      ensures Valid()
      ensures Done((View(), if msg.Some? then Got(msg.value) else Nothing)) == old(Step(View(), ReceiveSync))
    {
      assert processes[currentPid].Shows(tasks[currentPid]);
      if processes[currentPid].mailbox.length == 0 {
        ForceYield();
        msg := None;
      } else {
        var m := Pop();
        msg := Some(m);
      }
    }

    method IpcReceiveOnce() returns (msg: Option<Msg>)
      requires Valid()
      modifies this`tasks, processes[currentPid].mailbox
      ensures Valid()
      ensures Done((View(), if msg.Some? then Got(msg.value) else Nothing)) == old(Step(View(), ReceiveOnce))
    {
      assert processes[currentPid].Shows(tasks[currentPid]);
      msg := None;
      if processes[currentPid].mailbox.length != 0 {
        var m := Pop();
        msg := Some(m);
      }
    }
  }
}
