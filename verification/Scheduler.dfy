/** The round-robin ring of processes (student-distrib/systemcalls.c). */
module Scheduler {
  import opened Bytes

  const RING := 7

  // ---- one call of the scheduler on the queue ----

  /** A process the scheduler may switch to: it has no child and is not the current one. */
  predicate Eligible(flags: seq<nat>, current: nat, pid: nat) {
    pid < |flags| && flags[pid] == 0 && pid != current
  }

  /** Position of the first eligible process, or the length of the queue. */
  function FirstEligible(q: seq<nat>, flags: seq<nat>, current: nat): (k: nat)
    ensures k <= |q| && (k < |q| ==> Eligible(flags, current, q[k]))
    ensures forall i :: 0 <= i < k ==> !Eligible(flags, current, q[i])
  {
    if q == [] || Eligible(flags, current, q[0]) then 0 else 1 + FirstEligible(q[1..], flags, current)
  }

  function Rotated(q: seq<nat>, k: nat): (r: seq<nat>)
    requires k <= |q|
    ensures |r| == |q|
  {
    q[k..] + q[..k]
  }

  /** The queue and the current process after one call. */
  function Scheduled(q: seq<nat>, flags: seq<nat>, current: nat): (seq<nat>, nat) {
    var k := FirstEligible(q, flags, current);
    if k == |q| then (q, current) else (Rotated(q, k + 1), q[k])
  }

  /** The current process after `n` calls with the same child flags. */
  function CurrentAfter(q: seq<nat>, flags: seq<nat>, current: nat, n: nat): nat
    decreases n
  {
    if n == 0 then current
    else
      var (q', current') := Scheduled(q, flags, current);
      CurrentAfter(q', flags, current', n - 1)
  }

  /** A call keeps the processes that are queued, each as often as it is, and changes the current process only to an
      eligible one; it keeps the current process exactly when none is eligible. */
  lemma SchedulingIsSafe(q: seq<nat>, flags: seq<nat>, current: nat)
    ensures var (q', current') := Scheduled(q, flags, current);
      && multiset(q') == multiset(q)
      && (current' == current
          <==> forall i :: 0 <= i < |q| && q[i] < |flags| && flags[q[i]] == 0 ==> q[i] == current)
      && (current' != current ==> current' in q && current' < |flags| && flags[current'] == 0)
  {
    var k := FirstEligible(q, flags, current);
    if k < |q| {
      assert q == q[..k + 1] + q[k + 1..];
    }
  }

  /** The first process in the queue that has no child and is not current becomes current and goes to the end of the
      queue, behind those that stood before it; if there is none, nothing changes. */
  lemma ScheduledIs(q: seq<nat>, flags: seq<nat>, current: nat, k: nat)
    requires k <= |q| && forall i :: 0 <= i < k && q[i] < |flags| && flags[q[i]] == 0 ==> q[i] == current
    requires k < |q| ==> q[k] < |flags| && flags[q[k]] == 0 && q[k] != current
    ensures Scheduled(q, flags, current) == if k == |q| then (q, current) else (q[k + 1..] + q[..k + 1], q[k])
  {
    FirstEligibleIs(q, flags, current, k);
  }

  /** No starvation: a queued process without a child that is not current becomes current within as many calls as its
      position in the queue, plus one. */
  lemma {:induction false} SchedulingIsFair(q: seq<nat>, flags: seq<nat>, current: nat, i: nat) returns (n: nat)
    requires i < |q| && q[i] < |flags| && flags[q[i]] == 0 && q[i] != current
    ensures 1 <= n <= i + 1 && CurrentAfter(q, flags, current, n) == q[i]
    decreases i
  {
    var k := FirstEligible(q, flags, current);
    var (q', current') := Scheduled(q, flags, current);
    if current' == q[i] {
      n := 1;
    } else {
      assert q'[i - k - 1] == q[i];
      n := SchedulingIsFair(q', flags, current', i - k - 1);
      n := n + 1;
    }
  }

  // ---- execute and halt on the ring ----

  /** The slot `halt` clears: one back from `next_available`, in 32-bit unsigned arithmetic. */
  function HaltSlot(nextAvailable: nat): nat {
    (nextAvailable + TWO_32 - 1) % TWO_32 % 7
  }

  /** That is the slot filled last exactly when `next_available` is not 0. */
  lemma HaltSlotIsLast(nextAvailable: nat)
    requires nextAvailable < RING
    ensures HaltSlot(nextAvailable) == (nextAvailable + 6) % 7 <==> nextAvailable != 0
  {
    HaltSlotIs(nextAvailable);
  }

  /** `execute` queues the new process twice and `halt` removes it once, so a process that has ended stays queued,
      behind those queued before. The next call switches to it exactly when none of those is eligible. */
  lemma EndedProcessIsScheduled(q: seq<nat>, flags: seq<nat>, current: nat, ended: nat)
    requires ended < |flags| && flags[ended] == 0 && ended != current && ended !in q
    ensures Scheduled(q + [ended], flags, current).1 == ended
      <==> forall i :: 0 <= i < |q| && q[i] < |flags| && flags[q[i]] == 0 ==> q[i] == current
  {
    var all := q + [ended];
    assert all[|q|] == ended && forall i :: 0 <= i < |q| ==> all[i] == q[i];
    if forall i :: 0 <= i < |q| ==> !Eligible(flags, current, q[i]) {
      FirstEligibleIs(all, flags, current, |q|);
    }
  }

  lemma HaltSlotIs(nextAvailable: nat)
    requires nextAvailable < RING
    ensures HaltSlot(nextAvailable) == if nextAvailable == 0 then 3 else nextAvailable - 1
  {
    if nextAvailable > 0 {
      assert (nextAvailable + TWO_32 - 1) % TWO_32 == nextAvailable - 1;
    }
  }

  // ---- the slots of the ring ----

  /** How far slot `s` lies behind the head of the ring. */
  function Behind(head: nat, s: nat): int {
    if s >= head then s - head else s + RING - head
  }

  /** A position up to twice around the ring, brought back onto it. */
  function Wrap(i: nat): nat {
    if i < RING then i else i - RING
  }

  /** The queue lies in consecutive slots from `head` up to `next`, and every other slot is empty. */
  predicate Holds(slots: seq<int>, head: nat, next: nat, q: seq<nat>) {
    && |slots| == RING && |q| <= RING && head < RING && next == Wrap(head + |q|)
    && forall s :: 0 <= s < RING ==> slots[s] == if Behind(head, s) < |q| then q[Behind(head, s)] else -1
  }

  lemma RequeueHolds(slots: seq<int>, head: nat, next: nat, q: seq<nat>)
    requires Holds(slots, head, next, q) && q != []
    ensures slots[head] == q[0] && next < RING
    ensures Holds(slots[head := -1][next := q[0]], (head + 1) % 7, (next + 1) % 7, Rotated(q, 1))
  {
    var r := Rotated(q, 1);
    assert forall i :: 0 <= i < |q| ==> r[i] == if i < |q| - 1 then q[i + 1] else q[0];
    hide Rotated;
  }

  lemma EnqueueHolds(slots: seq<int>, head: nat, next: nat, q: seq<nat>, pid: nat)
    requires Holds(slots, head, next, q) && |q| < RING
    ensures next < RING && Holds(slots[next := pid], head, (next + 1) % 7, q + [pid])
  {
  }

  lemma DequeueHolds(slots: seq<int>, head: nat, next: nat, q: seq<nat>)
    requires Holds(slots, head, next, q) && q != [] && next != 0
    ensures next <= RING && Holds(slots[next - 1 := -1], head, next - 1, q[..|q| - 1])
  {
  }

  /** When `next_available` is 0, `halt` leaves a ring that no queue accounts for. */
  lemma HaltAtZeroBreaks(slots: seq<int>, head: nat, q: seq<nat>, now: seq<nat>)
    requires Holds(slots, head, 0, q) && q != []
    ensures !Holds(slots[3 := -1], head, 3, now)
  {
    var slots' := slots[3 := -1];
    assert slots'[6] == slots[6] && slots'[0] == slots[0] && slots'[3] == -1;
  }

  /** The slots and `next_available` after `execute`. */
  function Executed(slots: seq<int>, next: nat, pid: nat): (seq<int>, nat)
    requires |slots| == RING && next < RING
  {
    var second := (next + 1) % 7;
    (slots[next := pid][second := pid], (second + 1) % 7)
  }

  /** The slots and `next_available` after `execute` of a process that then halts. */
  function Ended(slots: seq<int>, next: nat, pid: nat): (seq<int>, nat)
    requires |slots| == RING && next < RING
  {
    var (slots', next') := Executed(slots, next, pid);
    (slots'[HaltSlot(next') := -1], HaltSlot(next'))
  }

  /** `execute` queues the process twice exactly when there is room for two entries; otherwise no queue accounts for the
      ring. */
  lemma ExecuteNeedsRoom(slots: seq<int>, head: nat, next: nat, q: seq<nat>, pid: nat, now: seq<nat>)
    requires Holds(slots, head, next, q)
    ensures next < RING
    ensures var (slots', next') := Executed(slots, next, pid);
      Holds(slots', head, next', now) <==> |q| <= 5 && now == q + [pid, pid]
  {
    var (slots', next') := Executed(slots, next, pid);
    if |q| <= 5 {
      EnqueueHolds(slots, head, next, q, pid);
      EnqueueHolds(slots[next := pid], head, (next + 1) % 7, q + [pid], pid);
      assert q + [pid] + [pid] == q + [pid, pid];
      if Holds(slots', head, next', now) { SameQueue(slots', head, next', q + [pid, pid], now); }
    } else if Holds(slots', head, next', now) {
      AllFilled(slots', head, next', now);
    }
  }

  lemma AllFilled(slots: seq<int>, head: nat, next: nat, q: seq<nat>)
    requires Holds(slots, head, next, q) && forall s :: 0 <= s < RING ==> slots[s] >= 0
    ensures next == head
  {
    assert slots[if head == 0 then 6 else head - 1] >= 0;
  }

  /** A ring with one empty slot has its head right behind it. */
  lemma OneEmpty(slots: seq<int>, head: nat, next: nat, q: seq<nat>, empty: nat)
    requires Holds(slots, head, next, q) && empty < RING && slots[empty] == -1
    requires forall s :: 0 <= s < RING && s != empty ==> slots[s] >= 0
    ensures next == empty && head == (empty + 1) % 7
  {
    var last, before := (head + 6) % 7, (head + 5) % 7;
    assert Behind(head, last) == 6 && Behind(head, before) == 5 && Behind(head, empty) < 7;
    assert |q| < RING && slots[last] == -1;
    assert last == empty && slots[before] >= 0;
  }

  /** Running a process to its end never gives the old queue back. It leaves the process queued once more, exactly when
      there was room for two entries and these do not end at the last slot; otherwise no queue accounts for the ring. */
  lemma ExecuteThenHaltLeavesEntry(slots: seq<int>, head: nat, next: nat, q: seq<nat>, pid: nat, now: seq<nat>)
    requires Holds(slots, head, next, q)
    ensures next < RING
    ensures var (slots', next') := Ended(slots, next, pid);
      Holds(slots', head, next', now) <==> |q| <= 5 && (next + 2) % 7 != 0 && now == q + [pid]
  {
    SlotsAre(slots, head, next, q);
    hide Holds, Ended, HaltSlot;
    if |q| > 5 {
      FullRingIsLost(slots, head, next, q, pid, now);
    } else if (next + 2) % 7 != 0 {
      EntryIsLeft(slots, head, next, q, pid, now);
    } else {
      LastSlotIsLost(slots, head, q, pid, now);
    }
  }

  lemma FullRingIsLost(slots: seq<int>, head: nat, next: nat, q: seq<nat>, pid: nat, now: seq<nat>)
    requires Holds(slots, head, next, q) && |q| > 5 && next < RING
    ensures var (slots', next') := Ended(slots, next, pid); !Holds(slots', head, next', now)
  {
    FullRingGap(slots, head, next, q, pid);
    hide Holds, Ended, HaltSlot;
    var (slots', next') := Ended(slots, next, pid);
    if Holds(slots', head, next', now) { OneEmpty(slots', head, next', now, next'); }
  }

  lemma FullRingGap(slots: seq<int>, head: nat, next: nat, q: seq<nat>, pid: nat)
    requires Holds(slots, head, next, q) && |q| > 5 && next < RING
    ensures var (slots', next') := Ended(slots, next, pid);
      && |slots'| == RING && next' < RING && head != (next' + 1) % 7 && slots'[next'] == -1
      && forall s :: 0 <= s < RING && s != next' ==> slots'[s] >= 0
  {
    hide Holds, HaltSlot;
    FullRing(slots, head, next, q);
    HaltSlotIs((next + 2) % 7);
  }

  /** Six or seven entries fill every slot but at most the next one. */
  lemma FullRing(slots: seq<int>, head: nat, next: nat, q: seq<nat>)
    requires Holds(slots, head, next, q) && |q| > 5
    ensures |slots| == RING && head < RING && (next == head || next == (head + 6) % 7)
    ensures forall s :: 0 <= s < RING && s != next ==> slots[s] >= 0
  {
  }

  lemma EntryIsLeft(slots: seq<int>, head: nat, next: nat, q: seq<nat>, pid: nat, now: seq<nat>)
    requires Holds(slots, head, next, q) && |q| <= 5 && next < RING && (next + 2) % 7 != 0
    ensures var (slots', next') := Ended(slots, next, pid); Holds(slots', head, next', now) <==> now == q + [pid]
  {
    EntryKept(slots, head, next, q, pid);
    hide Holds, Ended, HaltSlot;
    var (slots', next') := Ended(slots, next, pid);
    if Holds(slots', head, next', now) { SameQueue(slots', head, next', q + [pid], now); }
  }

  lemma EntryKept(slots: seq<int>, head: nat, next: nat, q: seq<nat>, pid: nat)
    requires Holds(slots, head, next, q) && |q| <= 5 && next < RING && (next + 2) % 7 != 0
    ensures var (slots', next') := Ended(slots, next, pid); Holds(slots', head, next', q + [pid])
  {
    HaltSlotIs((next + 2) % 7);
    hide HaltSlot;
    EnqueueHolds(slots, head, next, q, pid);
    assert Ended(slots, next, pid).0 == slots[next := pid];
    hide Holds;
  }

  lemma LastSlotIsLost(slots: seq<int>, head: nat, q: seq<nat>, pid: nat, now: seq<nat>)
    requires Holds(slots, head, 5, q) && |q| <= 5
    ensures var (slots', next') := Ended(slots, 5, pid); !Holds(slots', head, next', now)
  {
    var (slots', next') := Ended(slots, 5, pid);
    HaltSlotIs(0);
    hide HaltSlot;
    assert slots'[5] == pid && slots'[3] == -1 && slots'[0] == slots[0] && next' == 3;
  }

  /** Three shells, one for each terminal, fill six slots; whatever is run next to its end, the ring is lost, although
      its entries would not end at the last slot. */
  lemma ThreeShellsFillTheRing(a: nat, b: nat, c: nat, pid: nat, now: seq<nat>)
    ensures var (s1, n1) := Executed(seq(RING, _ => -1), 0, a);
      var (s2, n2) := Executed(s1, n1, b);
      var (s3, n3) := Executed(s2, n2, c);
      var (s4, n4) := Ended(s3, n3, pid);
      Holds(s3, 0, n3, [a, a, b, b, c, c]) && (n3 + 2) % 7 != 0 && !Holds(s4, 0, n4, now)
  {
    hide HaltSlot;
    var (s1, n1) := Executed(seq(RING, _ => -1), 0, a);
    var (s2, n2) := Executed(s1, n1, b);
    var (s3, n3) := Executed(s2, n2, c);
    assert Holds(s3, 0, n3, [a, a, b, b, c, c]);
    ExecuteThenHaltLeavesEntry(s3, 0, n3, [a, a, b, b, c, c], pid, now);
  }

  /** A ring stands for one queue only. */
  lemma SameQueue(slots: seq<int>, head: nat, next: nat, q: seq<nat>, r: seq<nat>)
    requires Holds(slots, head, next, q) && Holds(slots, head, next, r)
    ensures q == r
  {
    assert (slots[head] >= 0 <==> q != []) && (slots[head] >= 0 <==> r != []);
    if |q| == |r| {
      forall i | 0 <= i < |q|
        ensures q[i] == r[i]
      {
        assert Behind(head, Wrap(head + i)) == i;
      }
    }
  }

  // ---- the ring in memory ----

  class TaskRing {
    const taskQueue: array<int>
    var nextAvailable: nat
    var nextTask: nat
    ghost var queue: seq<nat>

    ghost predicate Valid()
      reads this, taskQueue
    {
      Holds(taskQueue[..], nextTask, nextAvailable, queue)
    }

    constructor ()
      ensures Valid() && queue == [] && nextAvailable == 0 && fresh(taskQueue)
    {
      taskQueue := new int[RING](_ => -1);
      nextAvailable := 0;
      nextTask := 0;
      queue := [];
    }

    /** The number of slots that are not empty. */
    method CountTasks() returns (n: nat)
      requires Valid()
      ensures n == |queue|
    {
      n := 0;
      var i := 0;
      while i < RING
        invariant 0 <= i <= RING
        invariant n == Filled(nextTask, nextTask + |queue|, i) + Filled(0, nextTask + |queue| - RING, i)
      {
        if taskQueue[i] != -1 { n := n + 1; }
        i := i + 1;
      }
    }

    /** Slots of [from, to) below `i`. */
    static function Filled(from: int, to: int, i: int): nat {
      if Min(i, to) > from then Min(i, to) - from else 0
    }

    /** Moves the process at the head of the queue to its end. */
    method Requeue() returns (pid: nat)
      requires Valid() && queue != []
      modifies this, taskQueue
      ensures Valid() && queue == Rotated(old(queue), 1) && pid == old(queue)[0]
    {
      RequeueHolds(taskQueue[..], nextTask, nextAvailable, queue);
      hide Holds;
      pid := taskQueue[nextTask];
      taskQueue[nextTask] := -1;
      nextTask := (nextTask + 1) % 7;
      taskQueue[nextAvailable] := pid;
      nextAvailable := (nextAvailable + 1) % 7;
      queue := Rotated(queue, 1);
    }

    /** `scheduling`: requeues processes until one is eligible, at most once around; returns the one to switch to. The
        child flags are those in the process control blocks. */
    method Scheduling(flags: seq<nat>, current: nat) returns (next: Option<nat>)
      requires Valid() && forall p <- queue :: p < |flags|
      modifies this, taskQueue
      ensures Valid()
      ensures var (q, c) := Scheduled(old(queue), flags, current);
        queue == q && next == if c == current then None else Some(c)
    {
      var numTasks := CountTasks();
      var j := 0;
      ghost var was := queue;
      assert Rotated(was, 0) == was;
      while j < numTasks
        invariant 0 <= j <= numTasks == |was| && Valid() && queue == Rotated(was, j)
        invariant forall i :: 0 <= i < j ==> !Eligible(flags, current, was[i])
      {
        var pid := Requeue();
        RotateOnce(was, j);
        assert pid == was[j] && was[j] in was;
        if flags[pid] == 0 && pid != current {
          FirstEligibleIs(was, flags, current, j);
          return Some(pid);
        }
        j := j + 1;
      }
      assert Rotated(was, |was|) == was;
      FirstEligibleIs(was, flags, current, |was|);
      next := None;
    }

    /** Queues a process at the end, as the scheduler and `execute` do. */
    method Enqueue(pid: nat)
      requires taskQueue.Length == RING && nextAvailable < RING
      modifies this`nextAvailable, taskQueue
      ensures taskQueue[..] == old(taskQueue[..])[old(nextAvailable) := pid]
      ensures nextAvailable == (old(nextAvailable) + 1) % 7
    {
      taskQueue[nextAvailable] := pid;
      nextAvailable := (nextAvailable + 1) % 7;
    }

    /** What `execute` does: it queues the new process twice. That keeps the ring well formed exactly when it has room
        for two entries. */
    method ExecuteProcess(pid: nat)
      requires Valid()
      modifies this, taskQueue
      ensures taskQueue.Length == RING && nextTask == old(nextTask) && old(nextAvailable) < RING
      ensures (taskQueue[..], nextAvailable) == Executed(old(taskQueue[..]), old(nextAvailable), pid)
      ensures queue == old(queue) + [pid, pid]
      ensures Valid() <==> |old(queue)| <= 5
      ensures !Valid() ==> forall q :: !Holds(taskQueue[..], nextTask, nextAvailable, q)
    {
      hide Holds;
      ghost var slots, next, q := taskQueue[..], nextAvailable, queue;
      SlotsAre(slots, nextTask, next, q);
      forall now {:trigger Holds(Executed(slots, next, pid).0, nextTask, Executed(slots, next, pid).1, now)}
        ensures Holds(Executed(slots, next, pid).0, nextTask, Executed(slots, next, pid).1, now)
          <==> |q| <= 5 && now == q + [pid, pid]
      {
        ExecuteNeedsRoom(slots, nextTask, next, q, pid, now);
      }
      Enqueue(pid);
      Enqueue(pid);
      queue := queue + [pid, pid];
    }

    /** The slot `halt` computes from `nextAvailable` is cleared, and `nextAvailable` moves there. */
    method ClearSlot()
      requires taskQueue.Length == RING && nextAvailable < RING
      modifies this`nextAvailable, taskQueue
      ensures nextAvailable == HaltSlot(old(nextAvailable)) < RING
      ensures taskQueue[..] == old(taskQueue[..])[nextAvailable := -1]
    {
      HaltSlotIs(nextAvailable);
      hide HaltSlot;
      var haltingTask := HaltSlot(nextAvailable);
      taskQueue[haltingTask] := -1;
      nextAvailable := haltingTask;
    }

    /** What `halt` does. That takes the last process queued off the ring unless `nextAvailable` is 0; then the process
        stays, slot 3 is cleared instead, and no queue accounts for the ring. */
    method Dequeue()
      requires Valid() && queue != []
      modifies this, taskQueue
      ensures nextAvailable == HaltSlot(old(nextAvailable)) < RING && nextTask == old(nextTask)
      ensures taskQueue[..] == old(taskQueue[..])[nextAvailable := -1]
      ensures queue == old(queue)[..|old(queue)| - 1]
      ensures Valid() <==> old(nextAvailable) != 0
      ensures !Valid() ==>
        nextAvailable == 3 && taskQueue[6] == old(queue)[|old(queue)| - 1]
        && forall q :: !Holds(taskQueue[..], nextTask, nextAvailable, q)
    {
      ghost var slots, q := taskQueue[..], queue;
      HaltSlotIs(nextAvailable);
      if nextAvailable != 0 {
        DequeueHolds(slots, nextTask, nextAvailable, q);
      } else {
        ghost var cleared := slots[3 := -1];
        forall now {:trigger Holds(cleared, nextTask, 3, now)}
          ensures !Holds(cleared, nextTask, 3, now)
        {
          HaltAtZeroBreaks(slots, nextTask, q, now);
        }
      }
      hide HaltSlot;
      ClearSlot();
      queue := queue[..|queue| - 1];
    }

    /** A program that is run and ends leaves itself in the queue, if there is room for its two entries and these do not
        end at the last slot; otherwise the ring is no longer well formed, whatever queue it is read as. */
    method ExecuteThenHalt(pid: nat)
      requires Valid()
      modifies this, taskQueue
      ensures taskQueue.Length == RING && nextTask == old(nextTask) && old(nextAvailable) < RING
      ensures (taskQueue[..], nextAvailable) == Ended(old(taskQueue[..]), old(nextAvailable), pid)
      ensures Valid() <==> |old(queue)| <= 5 && (old(nextAvailable) + 2) % 7 != 0
      ensures Valid() ==> queue == old(queue) + [pid]
      ensures !Valid() ==> forall q :: !Holds(taskQueue[..], nextTask, nextAvailable, q)
    {
      hide Holds, HaltSlot;
      ghost var slots, next, q := taskQueue[..], nextAvailable, queue;
      SlotsAre(slots, nextTask, next, q);
      forall now {:trigger Holds(Ended(slots, next, pid).0, nextTask, Ended(slots, next, pid).1, now)}
        ensures Holds(Ended(slots, next, pid).0, nextTask, Ended(slots, next, pid).1, now)
          <==> |q| <= 5 && (next + 2) % 7 != 0 && now == q + [pid]
      {
        ExecuteThenHaltLeavesEntry(slots, nextTask, next, q, pid, now);
      }
      ExecuteProcess(pid);
      ClearSlot();
      queue := q + [pid];
    }

    /** A shell runs a program that ends, and the next call of the scheduler switches to that program. */
    static method RunShellCommand(shell: nat, program: nat, flags: seq<nat>) returns (next: Option<nat>)
      requires shell != program && shell < |flags| && program < |flags| && flags[program] == 0
      ensures next == Some(program)
    {
      var ring := new TaskRing();
      ring.ExecuteProcess(shell);
      ring.ExecuteThenHalt(program);
      assert ring.queue == [shell, shell] + [program];
      EndedProcessIsScheduled([shell, shell], flags, shell, program);
      next := ring.Scheduling(flags, shell);
    }
  }

  lemma SlotsAre(slots: seq<int>, head: nat, next: nat, q: seq<nat>)
    requires Holds(slots, head, next, q)
    ensures |slots| == RING && next < RING
  {
  }

  lemma RotateOnce(q: seq<nat>, k: nat)
    requires k < |q|
    ensures Rotated(Rotated(q, k), 1) == Rotated(q, k + 1) && Rotated(q, k)[0] == q[k]
  {
  }

  lemma FirstEligibleIs(q: seq<nat>, flags: seq<nat>, current: nat, k: nat)
    requires k <= |q| && (k < |q| ==> Eligible(flags, current, q[k]))
    requires forall i :: 0 <= i < k ==> !Eligible(flags, current, q[i])
    ensures FirstEligible(q, flags, current) == k
  {
  }
}
