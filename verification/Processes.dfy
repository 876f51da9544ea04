/** Process slots, parent chains and the running process (student-distrib/systemcalls.c): `execute` and `halt` as atomic
    steps on the table of process control blocks. */
module Processes {
  import opened Bytes

  const SLOTS := 7

  /** The parts of a process control block the table is about. Pointers to blocks are process numbers. */
  datatype Block = Block(processId: nat, parent: nat, childFlag: nat, child: int)

  // ---- where the blocks lie ----

  /** Address of the block of process `pid`: the stack top, masked down to 8 KB. */
  function BlockAddress(pid: nat): int {
    var stackTop := 0x800000 - 0x2000 * pid - 4;
    stackTop - stackTop % 0x2000
  }

  /** Block and kernel stack of a process occupy 8 KB of the kernel page, apart from every other process's. */
  lemma BlocksAreApart(p: nat, q: nat)
    requires p < SLOTS && q < SLOTS
    ensures 0x400000 <= BlockAddress(p) && BlockAddress(p) + 0x2000 <= 0x800000
    ensures BlockAddress(p) < 0x800000 - 0x2000 * p - 4 < BlockAddress(p) + 0x2000
    ensures p != q ==> BlockAddress(p) + 0x2000 <= BlockAddress(q) || BlockAddress(q) + 0x2000 <= BlockAddress(p)
  {
    BlockAddressIs(p);
    BlockAddressIs(q);
  }

  lemma BlockAddressIs(p: nat)
    requires p < SLOTS
    ensures BlockAddress(p) == 0x800000 - 0x2000 * (p + 1)
  {
  }

  // ---- the abstract table ----

  /** The live processes, the parents of those that are not shells, how many steps each is from its shell, the one that
      runs, the slots lost to an `execute` that failed, and whether the next process is to be a shell. */
  datatype Table = Table(live: set<nat>, up: map<nat, nat>, depth: map<nat, nat>, running: Option<nat>, lost: set<nat>,
                         shellPending: bool)

  ghost predicate HasChild(up: map<nat, nat>, p: nat) {
    exists q {:trigger up[q]} :: q in up && up[q] == p
  }

  ghost predicate Taken(t: Table, p: nat) {
    p in t.live || p in t.lost
  }

  /** Live slots and lost slots are slots, and none is both. */
  ghost predicate InSlots(t: Table) {
    && t.up.Keys <= t.live == t.depth.Keys
    && (forall p <- t.live :: p < SLOTS && p !in t.lost)
    && (forall p <- t.lost :: p < SLOTS)
  }

  /** Parents are live and one step nearer to the shell. */
  ghost predicate Rooted(t: Table)
    requires InSlots(t)
  {
    && (forall p {:trigger p in t.up} :: p in t.live && p !in t.up ==> t.depth[p] == 0)
    && (forall p {:trigger t.up[p]} :: p in t.up ==> t.up[p] in t.live && t.depth[p] == t.depth[t.up[p]] + 1)
  }

  /** No process has two children. */
  ghost predicate OneChild(up: map<nat, nat>) {
    forall p, q {:trigger up[p], up[q]} :: p in up && q in up && up[p] == up[q] ==> p == q
  }

  /** The running process is live and has no child. */
  ghost predicate AtWork(t: Table) {
    match t.running
    case Some(p) => p in t.live && !HasChild(t.up, p)
    case None => t.shellPending && t.live == {}
  }

  ghost predicate WellFormed(t: Table) {
    InSlots(t) && Rooted(t) && OneChild(t.up) && AtWork(t)
  }

  /** The process reached from `p` by following parents `n` times. */
  ghost function Ancestor(up: map<nat, nat>, p: nat, n: nat): nat
    decreases n
  {
    if n == 0 || p !in up then p else Ancestor(up, up[p], n - 1)
  }

  /** Parent chains have no cycles: following parents from a process at depth d passes, step by step, through live
      processes and ends at a shell, after exactly d steps. */
  lemma {:induction false} ChainsEndInShells(t: Table, p: nat, n: nat)
    requires WellFormed(t) && p in t.live && n <= t.depth[p]
    ensures var a := Ancestor(t.up, p, n);
      a in t.live && t.depth[a] == t.depth[p] - n && (a !in t.up <==> n == t.depth[p])
    decreases n
  {
    if n > 0 {
      ChainsEndInShells(t, t.up[p], n - 1);
    }
  }

  /** Two processes whose chains meet are on one chain: one of them is an ancestor of the other. */
  lemma ChainsAreDisjoint(t: Table, p: nat, q: nat, m: nat, n: nat)
    requires WellFormed(t) && p in t.live && q in t.live && m <= t.depth[p] && n <= t.depth[q]
    requires Ancestor(t.up, p, m) == Ancestor(t.up, q, n)
    ensures if m <= n then p == Ancestor(t.up, q, n - m) else q == Ancestor(t.up, p, m - n)
  {
    hide WellFormed, Ancestor;
    if m <= n {
      LongerChainPasses(t, p, q, m, n);
    } else {
      LongerChainPasses(t, q, p, n, m);
    }
  }

  lemma {:induction false} LongerChainPasses(t: Table, p: nat, q: nat, m: nat, n: nat)
    requires WellFormed(t) && p in t.live && q in t.live && m <= n && m <= t.depth[p] && n <= t.depth[q]
    requires Ancestor(t.up, p, m) == Ancestor(t.up, q, n)
    ensures p == Ancestor(t.up, q, n - m)
    decreases m
  {
    assert OneChild(t.up);
    hide WellFormed, OneChild, Ancestor;
    if m == 0 {
      AncestorNone(t.up, p);
    } else {
      AncestorLast(t, p, m);
      AncestorLast(t, q, n);
      OnlyChild(t.up, Ancestor(t.up, p, m - 1), Ancestor(t.up, q, n - 1));
      LongerChainPasses(t, p, q, m - 1, n - 1);
    }
  }

  lemma AncestorNone(up: map<nat, nat>, p: nat)
    ensures Ancestor(up, p, 0) == p
  {
  }

  lemma OnlyChild(up: map<nat, nat>, p: nat, q: nat)
    requires OneChild(up) && p in up && q in up && up[p] == up[q]
    ensures p == q
  {
  }

  lemma {:induction false} AncestorLast(t: Table, p: nat, n: nat)
    requires WellFormed(t) && p in t.live && 0 < n <= t.depth[p]
    ensures var a := Ancestor(t.up, p, n - 1);
      a in t.up && Ancestor(t.up, p, n) == t.up[a]
    decreases n
  {
    if n > 1 {
      AncestorLast(t, t.up[p], n - 1);
    }
  }

  /** The first slot from `i` on that is not taken. */
  ghost function FreeSlot(t: Table, i: nat): (r: nat)
    requires i <= SLOTS
    ensures i <= r <= SLOTS && (r < SLOTS ==> !Taken(t, r)) && forall p :: i <= p < r ==> Taken(t, p)
    decreases SLOTS - i
  {
    if i < SLOTS && Taken(t, i) then FreeSlot(t, i + 1) else i
  }

  datatype Call = Execute(loads: bool) | Halt | SwitchTo(pid: nat) | RequestShell

  /** The table once slot `p` has been given to a process. */
  ghost function Started(t: Table, p: nat): Table
    requires WellFormed(t)
  {
    if t.shellPending then
      t.(live := t.live + {p}, depth := t.depth[p := 0], running := Some(p), shellPending := false)
    else
      var parent := t.running.value;
      t.(live := t.live + {p}, up := t.up[p := parent], depth := t.depth[p := t.depth[parent] + 1], running := Some(p))
  }

  /** The table once the running process `p`, not a shell, has halted. */
  ghost function Ended(t: Table, p: nat): Table
    requires p in t.up
  {
    t.(live := t.live - {p}, up := t.up - {p}, depth := t.depth - {p}, running := Some(t.up[p]))
  }

  /** One call. A shell that halts never comes back, which changes nothing in the table. */
  ghost function Step(t: Table, call: Call): Table
    requires WellFormed(t)
  {
    match call
    case Execute(loads) =>
      var slot := FreeSlot(t, 0);
      if slot == SLOTS then t
      else if loads then Started(t, slot)
      else t.(lost := t.lost + {slot})
    case Halt => if t.running.Some? && t.running.value in t.up then Ended(t, t.running.value) else t
    case SwitchTo(pid) => if pid in t.live && !HasChild(t.up, pid) then t.(running := Some(pid)) else t
    case RequestShell => t.(shellPending := true)
  }

  /** With slot `p` the lowest one free, `execute` of a program that loads starts a process there and runs it: a shell
      without a parent if one was asked for, a child of the process that ran otherwise. Of one that does not load, it
      takes the slot away for good. */
  lemma ExecuteUses(t: Table, p: nat)
    requires WellFormed(t) && p < 7 && p !in t.live && p !in t.lost
    requires forall q: nat :: q < p ==> q in t.live || q in t.lost
    ensures Step(t, Execute(false)) == t.(lost := t.lost + {p})
    ensures var t' := Step(t, Execute(true));
      && t'.live == t.live + {p} && t'.running == Some(p) && t'.lost == t.lost && !t'.shellPending && p !in t.up
      && (if t.shellPending then t'.up == t.up else t.running.Some? && t'.up == t.up[p := t.running.value])
  {
    assert !Taken(t, p) && forall q: nat :: q < p ==> Taken(t, q);
    FreeSlotIs(t, 0, p);
    hide FreeSlot;
  }

  lemma FreeSlotIs(t: Table, i: nat, p: nat)
    requires i <= p < SLOTS && !Taken(t, p) && forall q: nat :: i <= q < p ==> Taken(t, q)
    ensures FreeSlot(t, i) == p
  {
  }

  /** When the keyboard has asked for a shell, the next process has no parent, whatever runs, and all others keep
      theirs. */
  lemma RequestedShellIsRoot(t: Table, p: nat)
    requires WellFormed(t) && p < 7 && p !in t.live && p !in t.lost
    requires forall q: nat :: q < p ==> q in t.live || q in t.lost
    requires WellFormed(Step(t, RequestShell))
    ensures var t' := Step(Step(t, RequestShell), Execute(true));
      t'.running == Some(p) && p in t'.live && p !in t'.up && t'.up == t.up
  {
    var t1 := Step(t, RequestShell);
    assert t1.live == t.live && t1.lost == t.lost && t1.up == t.up && t1.shellPending;
    hide Step, WellFormed;
    ExecuteUses(t1, p);
  }

  /** A program that halts leaves the table as it was before its `execute`; a shell that halts leaves it as it is. */
  lemma ExecuteThenHalt(t: Table)
    requires WellFormed(t) && FreeSlot(t, 0) < 7 && WellFormed(Step(t, Execute(true)))
    ensures Step(Step(t, Execute(true)), Halt) == if t.shellPending then Step(t, Execute(true)) else t
  {
    hide Step, WellFormed, Started, FreeSlot;
    StepExecute(t, true);
    StartedThenHalts(t, FreeSlot(t, 0));
  }

  lemma StartedThenHalts(t: Table, p: nat)
    requires WellFormed(t) && p == FreeSlot(t, 0) < SLOTS && WellFormed(Started(t, p))
    ensures Step(Started(t, p), Halt) == if t.shellPending then Started(t, p) else t
  {
    hide FreeSlot, OneChild, Rooted, HasChild;
    assert p !in t.live && p !in t.up && p !in t.depth;
    if !t.shellPending {
      var t' := Started(t, p);
      assert t'.up - {p} == t.up && t'.depth - {p} == t.depth && t'.live - {p} == t.live;
    }
  }

  lemma StepExecute(t: Table, loads: bool)
    requires WellFormed(t)
    ensures var slot := FreeSlot(t, 0);
      Step(t, Execute(loads)) ==
        if slot == SLOTS then t else if loads then Started(t, slot) else t.(lost := t.lost + {slot})
  {
  }

  lemma StartedIsWellFormed(t: Table, p: nat)
    requires WellFormed(t) && p < SLOTS && !Taken(t, p)
    ensures WellFormed(Started(t, p))
  {
  }

  lemma EndedIsWellFormed(t: Table, p: nat)
    requires WellFormed(t) && t.running == Some(p) && p in t.up
    ensures WellFormed(Ended(t, p))
  {
  }

  lemma StepKeepsWellFormed(t: Table, call: Call)
    requires WellFormed(t)
    ensures WellFormed(Step(t, call)) && t.lost <= Step(t, call).lost
  {
    match call {
      case Execute(_) =>
        if FreeSlot(t, 0) < SLOTS { StartedIsWellFormed(t, FreeSlot(t, 0)); }
      case Halt =>
        if t.running.Some? && t.running.value in t.up { EndedIsWellFormed(t, t.running.value); }
      case _ =>
    }
  }

  ghost function Run(t: Table, calls: seq<Call>): Table
    requires WellFormed(t)
    decreases |calls|
  {
    if calls == [] then t
    else
      StepKeepsWellFormed(t, calls[0]);
      Run(Step(t, calls[0]), calls[1..])
  }

  /** Over every run the table stays well formed, and a slot lost to a failed `execute` is never given to a process. */
  lemma {:induction false} RunKeepsWellFormed(t: Table, calls: seq<Call>)
    requires WellFormed(t)
    ensures WellFormed(Run(t, calls)) && t.lost <= Run(t, calls).lost
    ensures forall p <- t.lost :: p !in Run(t, calls).live
    decreases |calls|
  {
    if calls != [] {
      StepKeepsWellFormed(t, calls[0]);
      RunKeepsWellFormed(Step(t, calls[0]), calls[1..]);
    }
  }

  // ---- counting slots ----

  ghost function TakenSlots(t: Table): set<nat> {
    t.live + t.lost
  }

  /** How one call changes the number of slots taken: each `execute` that finds a slot takes one, whether or not the
      program loads; only the halt of a process that is not a shell gives one back. */
  ghost function Balance(t: Table, call: Call): int
    requires WellFormed(t)
  {
    match call
    case Execute(_) => if |TakenSlots(t)| < SLOTS then 1 else 0
    case Halt => if t.running.Some? && t.running.value in t.up then -1 else 0
    case _ => 0
  }

  lemma SlotsAreConserved(t: Table, call: Call)
    requires WellFormed(t)
    ensures |TakenSlots(Step(t, call))| == |TakenSlots(t)| + Balance(t, call)
    ensures FreeSlot(t, 0) == SLOTS <==> |TakenSlots(t)| == SLOTS
  {
    FullExactlyWhenAllTaken(t);
    match call {
      case Execute(loads) => ExecuteTakesOne(t, loads);
      case Halt => HaltGivesOneBack(t);
      case _ =>
        hide WellFormed, FreeSlot;
        assert TakenSlots(Step(t, call)) == TakenSlots(t);
    }
  }

  lemma ExecuteTakesOne(t: Table, loads: bool)
    requires WellFormed(t)
    ensures TakenSlots(Step(t, Execute(loads))) ==
      TakenSlots(t) + (if FreeSlot(t, 0) < SLOTS then {FreeSlot(t, 0)} else {})
    ensures FreeSlot(t, 0) < SLOTS ==> FreeSlot(t, 0) !in TakenSlots(t)
  {
  }

  lemma HaltGivesOneBack(t: Table)
    requires WellFormed(t)
    ensures |TakenSlots(Step(t, Halt))| == |TakenSlots(t)| + Balance(t, Halt)
  {
  }

  /** The seven slots. */
  const ALL_SLOTS: set<nat> := {0, 1, 2, 3, 4, 5, 6}

  lemma FullExactlyWhenAllTaken(t: Table)
    requires WellFormed(t)
    ensures FreeSlot(t, 0) == SLOTS <==> |TakenSlots(t)| == SLOTS
    ensures |TakenSlots(t)| <= SLOTS
  {
    TakenAreSlots(t);
    assert |ALL_SLOTS| == SLOTS;
    hide *;
    if FreeSlot(t, 0) == SLOTS {
    } else {
      SubsetSize(TakenSlots(t), ALL_SLOTS - {FreeSlot(t, 0)});
    }
  }

  lemma TakenAreSlots(t: Table)
    requires WellFormed(t)
    ensures TakenSlots(t) <= ALL_SLOTS
    ensures FreeSlot(t, 0) == SLOTS ==> TakenSlots(t) == ALL_SLOTS
    ensures FreeSlot(t, 0) < SLOTS ==> FreeSlot(t, 0) in ALL_SLOTS && TakenSlots(t) <= ALL_SLOTS - {FreeSlot(t, 0)}
  {
  }

  // ---- the bitmap ----

  /** The bit of slot `i`: 0x80 shifted right `i` times. */
  function Mask(i: nat): bv8
    requires i < SLOTS
  {
    if i == 0 then 0x80 else Mask(i - 1) >> 1
  }

  predicate Marked(open: bv8, i: nat)
    requires i < SLOTS
  {
    open & Mask(i) != 0
  }

  lemma Masks()
    ensures Mask(0) == 0x80 && Mask(1) == 0x40 && Mask(2) == 0x20 && Mask(3) == 0x10
    ensures Mask(4) == 0x08 && Mask(5) == 0x04 && Mask(6) == 0x02
  {
  }

  lemma MarkingMarks(open: bv8, i: nat, j: nat)
    requires i < SLOTS && j < SLOTS
    ensures Marked(open | Mask(i), j) <==> Marked(open, j) || j == i
  {
    Masks();
    hide Mask;
  }

  lemma TogglingUnmarks(open: bv8, i: nat, j: nat)
    requires i < SLOTS && j < SLOTS && Marked(open, i)
    ensures Marked(open ^ Mask(i), j) <==> Marked(open, j) && j != i
  {
    Masks();
    hide Mask;
  }

  /** The bitmap has exactly the bits of the slots that are taken. */
  ghost predicate MarksAre(open: bv8, t: Table) {
    forall p: nat :: p < SLOTS ==> (Marked(open, p) <==> Taken(t, p))
  }

  lemma MarkSlot(open: bv8, t: Table, i: nat)
    requires WellFormed(t) && MarksAre(open, t) && i < SLOTS
    ensures MarksAre(open | Mask(i), Started(t, i)) && MarksAre(open | Mask(i), t.(lost := t.lost + {i}))
  {
    hide WellFormed, MarksAre, Mask, Marked, Started, Taken;
    StartedTakes(t, i);
    MarkedAfter(open, t, Started(t, i), i);
    MarkedAfter(open, t, t.(lost := t.lost + {i}), i);
  }

  lemma MarkedAfter(open: bv8, t: Table, t': Table, i: nat)
    requires MarksAre(open, t) && i < SLOTS && forall p: nat :: Taken(t', p) <==> Taken(t, p) || p == i
    ensures MarksAre(open | Mask(i), t')
  {
    hide Marked, Mask, Taken;
    forall p: nat | p < SLOTS
      ensures Marked(open | Mask(i), p) <==> Taken(t', p)
    {
      MarkingMarks(open, i, p);
    }
  }

  lemma StartedTakes(t: Table, i: nat)
    requires WellFormed(t)
    ensures forall p: nat :: Taken(Started(t, i), p) <==> Taken(t, p) || p == i
    ensures forall p: nat :: Taken(t.(lost := t.lost + {i}), p) <==> Taken(t, p) || p == i
  {
  }

  lemma UnmarkSlot(open: bv8, t: Table, i: nat)
    requires MarksAre(open, t) && i < SLOTS && i in t.up && i in t.live && i !in t.lost
    ensures MarksAre(open ^ Mask(i), Ended(t, i))
  {
    hide Marked, Mask;
    assert forall p: nat :: Taken(Ended(t, i), p) <==> Taken(t, p) && p != i;
    hide Taken, Ended;
    forall p: nat | p < SLOTS
      ensures Marked(open ^ Mask(i), p) <==> Marked(open, p) && p != i
    {
      TogglingUnmarks(open, i, p);
    }
  }

  // ---- the table in memory ----

  datatype ExecuteResult = TooMany | Refused | Running(pid: nat)

  datatype HaltResult = Hangs | Resumed(parent: nat)

  /** The blocks record the live processes: a shell is its own parent, and a flag is set, and the child named, exactly
      where there is a child. */
  ghost predicate Match(bs: seq<Block>, live: set<nat>, up: map<nat, nat>) {
    && |bs| == SLOTS
    && (forall p {:trigger p in live} ::
          p in live ==> p < SLOTS && bs[p].processId == p && (p !in up ==> bs[p].parent == p))
    && (forall q {:trigger up[q]} :: q in up ==> q < SLOTS && bs[q].parent == up[q])
    && (forall q {:trigger up[q]} :: q in up ==> up[q] < SLOTS && bs[up[q]].childFlag == 1 && bs[up[q]].child == q)
    && (forall p: nat :: p < SLOTS && !HasChild(up, p) ==> bs[p].childFlag == 0)
  }

  /** What the block of a live process tells: its number, its parent (a shell its own), whether it has a child, and the
      child it was given last. */
  lemma BlocksTell(bs: seq<Block>, live: set<nat>, up: map<nat, nat>, p: nat)
    requires Match(bs, live, up) && p in live
    ensures |bs| == 7 && p < 7 && bs[p].processId == p && bs[p].parent == if p in up then up[p] else p
    ensures bs[p].childFlag == (if exists q :: q in up && up[q] == p then 1 else 0)
    ensures forall q :: q in up && up[q] == p ==> bs[p].child == q
  {
    if exists q :: q in up && up[q] == p {
      assert HasChild(up, p);
    }
  }

  lemma ShellMatches(bs: seq<Block>, live: set<nat>, up: map<nat, nat>, p: nat)
    requires Match(bs, live, up) && p < SLOTS && p !in live && up.Keys <= live
    requires forall q {:trigger up[q]} :: q in up ==> up[q] in live
    ensures Match(bs[p := bs[p].(processId := p, parent := p, childFlag := 0, child := -1)], live + {p}, up)
  {
  }

  function WithChild(bs: seq<Block>, p: nat, parent: nat): seq<Block>
    requires p < |bs| && parent < |bs|
  {
    var bs' := bs[p := bs[p].(processId := p, parent := parent)];
    bs'[parent := bs'[parent].(childFlag := 1, child := p)]
  }

  /** The child flag of a new process is left as it is: the last process in its slot had no child when it ended. */
  lemma ChildMatches(bs: seq<Block>, live: set<nat>, up: map<nat, nat>, p: nat, parent: nat)
    requires Match(bs, live, up) && p < SLOTS && p !in live && parent in live && !HasChild(up, parent)
    requires up.Keys <= live && forall q {:trigger up[q]} :: q in up ==> up[q] in live
    ensures Match(WithChild(bs, p, parent), live + {p}, up[p := parent])
  {
    ParentsStay(up, p, parent);
    hide HasChild;
  }

  lemma ParentsStay(up: map<nat, nat>, p: nat, parent: nat)
    requires p !in up
    ensures var up' := up[p := parent];
      HasChild(up', parent) && forall r: nat {:trigger HasChild(up', r)} :: HasChild(up, r) ==> HasChild(up', r)
  {
    var up' := up[p := parent];
    assert p in up' && up'[p] == parent && HasChild(up', parent);
    forall r: nat | HasChild(up, r)
      ensures HasChild(up', r)
    {
      var q :| q in up && up[q] == r;
      assert q in up' && up'[q] == r;
    }
  }

  lemma ResumeMatches(bs: seq<Block>, live: set<nat>, up: map<nat, nat>, p: nat)
    requires Match(bs, live, up) && p in up && p in live && up[p] in live
    requires forall q {:trigger up[q]} :: q in up && up[q] == up[p] ==> q == p
    ensures Match(bs[up[p] := bs[up[p]].(childFlag := 0)], live - {p}, up - {p})
  {
    var up' := up - {p};
    forall r: nat | HasChild(up, r) && r != up[p]
      ensures HasChild(up', r)
    {
      var q :| q in up && up[q] == r;
      assert q in up' && up'[q] == r;
    }
  }

  lemma StartedMatches(bs: seq<Block>, t: Table, p: nat)
    requires WellFormed(t) && Match(bs, t.live, t.up) && p < SLOTS && !Taken(t, p)
    ensures var t' := Started(t, p);
      && |bs| == SLOTS && t'.running == Some(p) && !t'.shellPending
      && (if t.shellPending then
            Match(bs[p := bs[p].(processId := p, parent := p, childFlag := 0, child := -1)], t'.live, t'.up)
          else
            && t.running.Some? && t.running.value < SLOTS
            && Match(WithChild(bs, p, t.running.value), t'.live, t'.up))
  {
    assert |bs| == SLOTS && (t.running.Some? ==> t.running.value < SLOTS);
    if t.shellPending {
      ShellMatches(bs, t.live, t.up, p);
    } else {
      ChildMatches(bs, t.live, t.up, p, t.running.value);
    }
    hide WellFormed, Match;
  }

  lemma EndedMatches(bs: seq<Block>, t: Table, p: nat)
    requires WellFormed(t) && Match(bs, t.live, t.up) && t.running == Some(p) && p in t.up
    ensures t.up[p] < SLOTS && Match(bs[t.up[p] := bs[t.up[p]].(childFlag := 0)], Ended(t, p).live, Ended(t, p).up)
  {
    ResumeMatches(bs, t.live, t.up, p);
  }

  lemma EndedFields(t: Table, p: nat)
    requires p in t.up
    ensures Ended(t, p).shellPending == t.shellPending && Ended(t, p).running == Some(t.up[p])
  {
  }

  lemma SwitchKeepsWellFormed(t: Table, pid: nat)
    requires WellFormed(t) && pid in t.live
    ensures WellFormed(t.(running := Some(pid))) <==> !HasChild(t.up, pid)
  {
    hide HasChild;
  }

  lemma MarksStay(open: bv8, t: Table, pid: nat)
    requires MarksAre(open, t)
    ensures MarksAre(open, t.(running := Some(pid)))
  {
    hide Mask, Marked;
  }

  class ProcessTable {
    var openProcesses: bv8
    var current: Option<nat>
    var processId: nat
    var initialShell: bool
    const blocks: array<Block>
    ghost var table: Table

    ghost predicate Valid()
      reads this, blocks
    {
      && WellFormed(table) && blocks.Length == SLOTS && Match(blocks[..], table.live, table.up)
      && MarksAre(openProcesses, table)
      && initialShell == table.shellPending && current == table.running
    }

    /** The state at boot; memory that no process has used yet holds no set flag. */
    constructor (memory: array<Block>)
      requires memory.Length == SLOTS && forall p :: 0 <= p < SLOTS ==> memory[p].childFlag == 0
      ensures Valid() && blocks == memory && table == Table({}, map[], map[], None, {}, true)
    {
      openProcesses := 0;
      current := None;
      processId := 0;
      initialShell := true;
      blocks := memory;
      table := Table({}, map[], map[], None, {}, true);
    }

    /** The search of the bitmap for a clear bit. */
    method FindSlot() returns (i: nat)
      requires Valid()
      ensures i == FreeSlot(table, 0) <= SLOTS
    {
      hide WellFormed, Match;
      var processMask: bv8 := 0x80;
      i := 0;
      while i < 7
        invariant i <= SLOTS && FreeSlot(table, i) == FreeSlot(table, 0) && (i < SLOTS ==> processMask == Mask(i))
      {
        assert Marked(openProcesses, i) <==> Taken(table, i);
        assert Marked(openProcesses, i) <==> processMask & openProcesses != 0;
        if processMask & openProcesses == 0 { return; }
        processMask := processMask >> 1;
        i := i + 1;
      }
    }

    /** `execute`; `loads` says whether the program is found, is an executable and can be loaded. */
    method Execute(loads: bool) returns (r: ExecuteResult)
      requires Valid()
      modifies this, blocks
      ensures Valid() && table == Step(old(table), Call.Execute(loads))
      ensures var slot := FreeSlot(old(table), 0);
        r == if slot == SLOTS then TooMany else if loads then Running(slot) else Refused
    {
      hide Step, WellFormed, Match, MarksAre, FreeSlot, Taken, Started, Mask, Marked, HasChild;
      var i := FindSlot();
      StepExecute(table, loads);
      if i == 7 { return TooMany; }
      MarkSlot(openProcesses, table, i);
      StepKeepsWellFormed(table, Call.Execute(loads));
      openProcesses := openProcesses | Mask(i);
      processId := i;
      if loads {
        FillBlock(i);
        r := Running(i);
      } else {
        table := table.(lost := table.lost + {i});
        r := Refused;
      }
    }

    /** Fills in the block of the new process in slot `i`, as a shell or as a child of the current process. */
    method FillBlock(i: nat)
      requires WellFormed(table) && blocks.Length == SLOTS && Match(blocks[..], table.live, table.up)
      requires i < SLOTS && !Taken(table, i) && MarksAre(openProcesses, Started(table, i))
      requires initialShell == table.shellPending && current == table.running
      modifies `current, `initialShell, `table, blocks
      ensures Valid() && table == Started(old(table), i)
    {
      hide WellFormed, Match, MarksAre, Mask, Marked, HasChild, Taken, Started;
      StartedIsWellFormed(table, i);
      StartedMatches(blocks[..], table, i);
      if initialShell {
        blocks[i] := blocks[i].(processId := i, parent := i, childFlag := 0, child := -1);
        initialShell := false;
      } else {
        var parent := current.value;
        blocks[i] := blocks[i].(processId := i, parent := parent);
        blocks[parent] := blocks[parent].(childFlag := 1, child := i);
      }
      current := Some(i);
      table := Started(table, i);
    }

    /** `halt` of the current process, whatever its status. */
    method Halt() returns (r: HaltResult)
      requires Valid() && current.Some?
      modifies this, blocks
      ensures Valid() && table == Step(old(table), Call.Halt)
      ensures var t := old(table);
        r == if t.running.value in t.up then Resumed(t.up[t.running.value]) else Hangs
    {
      var pid := current.value;
      var parent := blocks[pid].parent;
      if parent == pid { return Hangs; }
      assert blocks[pid].processId == pid && pid in table.up && parent == table.up[pid] && pid !in table.lost;
      UnmarkSlot(openProcesses, table, pid);
      Resume(pid, parent, openProcesses ^ Mask(blocks[pid].processId));
      r := Resumed(parent);
    }

    /** What is left of `halt`: the parent of process `pid` has no child any more and goes on. */
    method Resume(pid: nat, parent: nat, marks: bv8)
      requires Valid() && table.running == Some(pid) && pid in table.up && parent == table.up[pid]
      requires MarksAre(marks, Ended(table, pid))
      modifies this, blocks
      ensures Valid() && table == Ended(old(table), pid)
    {
      hide WellFormed, Match, MarksAre, Mask, Marked, HasChild, Taken, Ended;
      EndedIsWellFormed(table, pid);
      EndedMatches(blocks[..], table, pid);
      EndedFields(table, pid);
      openProcesses := marks;
      blocks[parent] := blocks[parent].(childFlag := 0);
      current := Some(parent);
      table := Ended(table, pid);
    }

    /** `context_switch` to a live process; -1 stands for no process. The table stays well formed exactly when that
        process has no child: a parent would run while its child does. */
    method ContextSwitch(newPid: int)
      requires Valid() && (newPid == -1 || (0 <= newPid && newPid in table.live))
      modifies this
      ensures newPid == -1 ==> Valid() && table == old(table)
      ensures newPid != -1 ==>
        && table == old(table).(running := Some(newPid)) && current == Some(newPid)
        && (Valid() <==> !HasChild(old(table).up, newPid))
        && (Valid() ==> table == Step(old(table), Call.SwitchTo(newPid)))
    {
      hide WellFormed, Match, MarksAre, HasChild;
      if newPid == -1 { return; }
      SwitchKeepsWellFormed(table, newPid);
      MarksStay(openProcesses, table, newPid);
      processId := newPid;
      current := Some(newPid);
      table := table.(running := Some(newPid));
    }

    /** The keyboard asks for a shell on another terminal. */
    method RequestShell()
      requires Valid()
      modifies this
      ensures Valid() && table == Step(old(table), Call.RequestShell)
    {
      hide Match;
      initialShell := true;
      table := table.(shellPending := true);
    }
  }
}
