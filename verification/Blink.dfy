/** The blink list over a static pool of nodes (fish/blink.S, fish/fish.c). */
module Blink {
  import opened Bytes

  const SLOTS := 2000
  const NULL := -1

  /** A C `unsigned short`. */
  type U16 = w: int | 0 <= w < 0x1_0000

  /** A node of the list; `next` is the slot of the next node, or NULL. */
  datatype Node = Node(location: U16, onChar: Byte, offChar: Byte, onLength: U16, offLength: U16,
                       countdown: U16, status: U16, next: int)

  const EMPTY := Node(0, 0, 0, 0, 0, 0, 0, NULL)

  /** The pool and the head of the list; `list` names the slots on the list in order. */
  datatype Blinks = Blinks(pool: seq<Node>, head: int, list: seq<nat>)

  /** The link to position `k` of the list. */
  function Link(list: seq<nat>, k: nat): int {
    if k < |list| then list[k] else NULL
  }

  predicate Inside(pool: seq<Node>, list: seq<nat>) {
    forall k :: 0 <= k < |list| ==> list[k] < |pool|
  }

  ghost predicate Linked(b: Blinks) {
    && |b.pool| == SLOTS && Inside(b.pool, b.list) && b.head == Link(b.list, 0)
    && forall k {:trigger b.pool[b.list[k]]} :: 0 <= k < |b.list| ==> b.pool[b.list[k]].next == Link(b.list, k + 1)
  }

  predicate Distinct(list: seq<nat>) {
    forall j, k :: 0 <= j < k < |list| ==> list[j] != list[k]
  }

  /** The slots of the list are those with a location; all others are clear. */
  ghost predicate Separate(pool: seq<Node>, list: seq<nat>) {
    && (forall i :: 0 <= i < |pool| ==> (i in list <==> pool[i].location != 0))
    && (forall i :: 0 <= i < |pool| && pool[i].location == 0 ==> pool[i] == EMPTY)
  }

  /** The list is acyclic and without duplicates, and takes up exactly the slots that are not free. */
  ghost predicate WellFormed(b: Blinks) {
    Linked(b) && Distinct(b.list) && Separate(b.pool, b.list)
  }

  // ---- one node ----

  /** A countdown after `decw`, and whether the processor then finds it above 0 as a signed word. */
  function Decremented(c: U16): U16 {
    if c == 0 then 0xFFFF else c - 1
  }

  predicate Positive(c: U16) {
    0 < c < 0x8000
  }

  predicate On(n: Node) {
    n.status % 2 == 1
  }

  /** What the tasklet does to a node at every tick. */
  function TickNode(n: Node): Node {
    if Positive(Decremented(n.countdown)) then n.(countdown := Decremented(n.countdown))
    else if On(n) then n.(countdown := n.offLength, status := n.status - 1)
    else n.(countdown := n.onLength, status := n.status + 1)
  }

  function TickedNode(n: Node, t: nat): Node {
    if t == 0 then n else TickNode(TickedNode(n, t - 1))
  }

  /** How many ticks a countdown set to `c` lasts. */
  function Lasting(c: U16): (r: nat)
    ensures r > 0
  {
    if 1 <= c <= 0x8000 then c else 1
  }

  /** A node as it is added. */
  function Started(n: Node): Node {
    n.(status := 1, countdown := n.onLength)
  }

  lemma NextInPeriod(t: nat, p: nat)
    requires p > 0
    ensures (t + 1) % p == if t % p + 1 == p then 0 else t % p + 1
  {
    var q, r := t / p, t % p;
    assert t == p * q + r;
    if r + 1 == p {
      assert t + 1 == p * (q + 1);
      ModIs(t + 1, p, q + 1, 0);
    } else {
      ModIs(t + 1, p, q, r + 1);
    }
  }

  /** From the tick it is added, a node is on for as long as its on-length lasts and off for as long as its off-length
      lasts, over and over, for every pair of lengths. */
  lemma {:induction false} BlinksInTurn(n: Node, t: nat)
    ensures var r := TickedNode(Started(n), t);
      var on := if 1 <= n.onLength <= 32768 then n.onLength else 1;
      var off := if 1 <= n.offLength <= 32768 then n.offLength else 1;
      var u := t % (on + off);
      && r.onLength == n.onLength && r.offLength == n.offLength
      && r.status == (if u < on then 1 else 0)
      && Lasting(r.countdown) == (if u < on then on - u else on + off - u)
  {
    var on, off := Lasting(n.onLength), Lasting(n.offLength);
    if t > 0 {
      BlinksInTurn(n, t - 1);
      NextInPeriod(t - 1, on + off);
    } else {
      ModIs(0, on + off, 0, 0);
    }
  }

  /** At tick `t` the node is on just when its lengths, taken as they stand, say so. */
  predicate Follows(n: Node, t: nat)
    requires n.onLength + n.offLength > 0
  {
    On(TickedNode(Started(n), t)) <==> t % (n.onLength + n.offLength) < n.onLength
  }

  lemma OnAt(n: Node, t: nat, q: nat, r: nat)
    requires r < Lasting(n.onLength) + Lasting(n.offLength) && t == (Lasting(n.onLength) + Lasting(n.offLength)) * q + r
    ensures On(TickedNode(Started(n), t)) <==> r < Lasting(n.onLength)
  {
    BlinksInTurn(n, t);
    ModIs(t, Lasting(n.onLength) + Lasting(n.offLength), q, r);
  }

  /** A node follows its lengths exactly when both are between 1 and 32768. */
  lemma LengthsAreFollowed(n: Node)
    requires n.onLength + n.offLength > 0
    ensures (forall t: nat :: Follows(n, t)) <==> 1 <= n.onLength <= 32768 && 1 <= n.offLength <= 32768
  {
    hide TickedNode;
    var p := n.onLength + n.offLength;
    if !(1 <= n.onLength <= 32768) {
      var t := if n.onLength == 0 then 0 else 1;
      OnAt(n, t, 0, t);
      ModIs(t, p, 0, t);
      assert !Follows(n, t);
    } else if n.offLength == 0 {
      OnAt(n, p, 0, p);
      ModIs(p, p, 1, 0);
      assert !Follows(n, p);
    } else if n.offLength > 32768 {
      OnAt(n, n.onLength + 1, 1, 0);
      ModIs(n.onLength + 1, p, 0, n.onLength + 1);
      assert !Follows(n, n.onLength + 1);
    } else {
      forall t: nat
        ensures Follows(n, t)
      {
        BlinksInTurn(n, t);
      }
    }
  }

  // ---- the list ----

  /** The first slot without a location, or |pool|. */
  function FirstFree(pool: seq<Node>): (k: nat)
    ensures k <= |pool|
    ensures forall i :: 0 <= i < k ==> pool[i].location != 0
    ensures k < |pool| ==> pool[k].location == 0
  {
    if pool == [] || pool[0].location == 0 then 0 else 1 + FirstFree(pool[1..])
  }

  lemma FirstFreeIs(pool: seq<Node>, k: nat)
    requires k <= |pool| && (forall i :: 0 <= i < k ==> pool[i].location != 0)
    requires k < |pool| ==> pool[k].location == 0
    ensures FirstFree(pool) == k
  {
  }

  /** The first position of the list whose node has the location, or |list|. */
  function Find(pool: seq<Node>, list: seq<nat>, location: nat): (k: nat)
    requires Inside(pool, list)
    ensures k <= |list|
    ensures forall i :: 0 <= i < k ==> pool[list[i]].location != location
    ensures k < |list| ==> pool[list[k]].location == location
    decreases |list|
  {
    if list == [] || pool[list[0]].location == location then 0 else 1 + Find(pool, list[1..], location)
  }

  lemma FindIs(pool: seq<Node>, list: seq<nat>, location: nat, k: nat)
    requires Inside(pool, list) && k <= |list|
    requires forall i :: 0 <= i < k ==> pool[list[i]].location != location
    requires k < |list| ==> pool[list[k]].location == location
    ensures Find(pool, list, location) == k
  {
  }

  datatype Event = Add(user: Node) | Remove(location: nat) | Sync(arg: U32) | Tick

  /** The list after a node is inserted at its front in slot `f`. */
  function Inserted(b: Blinks, user: Node, f: nat): Blinks
    requires f < |b.pool|
  {
    Blinks(b.pool[f := Started(user).(next := b.head)], f, [f] + b.list)
  }

  function Without(l: seq<nat>, k: nat): seq<nat>
    requires k < |l|
  {
    l[..k] + l[k + 1..]
  }

  /** The list without its node at position `k`, whose slot is cleared. */
  function Unlinked(b: Blinks, k: nat): Blinks
    requires k < |b.list| && Inside(b.pool, b.list)
  {
    var next, list := b.pool[b.list[k]].next, Without(b.list, k);
    if k == 0 then Blinks(b.pool[b.list[0] := EMPTY], next, list)
    else
      var p := b.list[k - 1];
      Blinks(b.pool[p := b.pool[p].(next := next)][b.list[k] := EMPTY], b.head, list)
  }

  /** What a node takes over from another when it is synchronised with it. */
  function Copied(to: Node, from: Node): Node {
    to.(onLength := from.onLength, offLength := from.offLength, countdown := from.countdown, status := from.status)
  }

  function Ticked(pool: seq<Node>): (r: seq<Node>)
    ensures |r| == |pool|
  {
    seq(|pool|, i requires 0 <= i < |pool| => if pool[i].location != 0 then TickNode(pool[i]) else pool[i])
  }

  /** The upper and the lower half of an argument of sync. */
  function From(arg: U32): U16 { arg / 0x1_0000 }
  function To(arg: U32): U16 { arg % 0x1_0000 }

  /** What an event does to the list, and what it returns. */
  function Step(b: Blinks, e: Event): (Blinks, int)
    requires |b.pool| == SLOTS && Inside(b.pool, b.list)
  {
    match e
    case Add(user) =>
      var f := FirstFree(b.pool);
      if user.location >= SLOTS || f == SLOTS then (b, -1) else (Inserted(b, user, f), 0)
    case Remove(location) =>
      var k := Find(b.pool, b.list, location % 0x1_0000);
      if k == |b.list| then (b, -1) else (Unlinked(b, k), 0)
    case Sync(arg) =>
      var j, k := Find(b.pool, b.list, From(arg)), Find(b.pool, b.list, To(arg));
      if j == |b.list| || k == |b.list| then (b, -1)
      else
        var to := b.list[k];
        (b.(pool := b.pool[to := Copied(b.pool[to], b.pool[b.list[j]])]), 0)
    case Tick => (b.(pool := Ticked(b.pool)), 0)
  }

  /** Adding keeps the list well formed exactly when the new node has a location: one at location 0 stands in the list
      but its slot counts as free. */
  lemma AddKeepsWellFormed(b: Blinks, user: Node)
    requires WellFormed(b) && Step(b, Add(user)).1 == 0
    ensures WellFormed(Step(b, Add(user)).0) <==> user.location != 0
    ensures var f := FirstFree(b.pool); f !in b.list && b.pool[f] == EMPTY
  {
    var f, b' := FirstFree(b.pool), Step(b, Add(user)).0;
    assert b'.list[0] == f && b'.list[1..] == b.list;
    if user.location != 0 {
      InsertKeeps(b, user, f);
    } else {
      assert f in b'.list && b'.pool[f].location == 0;
    }
  }

  lemma InsertKeeps(b: Blinks, user: Node, f: nat)
    requires WellFormed(b) && f < SLOTS && b.pool[f].location == 0 && user.location != 0
    ensures WellFormed(Inserted(b, user, f))
  {
  }

  lemma WithoutAt(l: seq<nat>, k: nat, i: nat)
    requires k < |l| && Distinct(l)
    ensures i in Without(l, k) <==> i in l && i != l[k]
  {
  }

  lemma WithoutDistinct(l: seq<nat>, k: nat)
    requires k < |l| && Distinct(l)
    ensures |Without(l, k)| == |l| - 1
    ensures Distinct(Without(l, k))
  {
  }

  lemma UnlinkedSlots(b: Blinks, k: nat)
    requires WellFormed(b) && k < |b.list|
    ensures var b', l := Unlinked(b, k), b.list;
      && b'.list == Without(l, k) && b'.head == (if k == 0 then Link(l, 1) else b.head) && |b'.pool| == SLOTS
      && (forall i :: 0 <= i < SLOTS ==>
            b'.pool[i] == if i == l[k] then EMPTY
                          else if k > 0 && i == l[k - 1] then b.pool[i].(next := Link(l, k + 1))
                          else b.pool[i])
  {
  }

  lemma UnlinkKeepsLinked(b: Blinks, k: nat)
    requires WellFormed(b) && k < |b.list|
    ensures Linked(Unlinked(b, k))
  {
  }

  lemma UnlinkKeepsSeparate(b: Blinks, k: nat)
    requires WellFormed(b) && k < |b.list|
    ensures var b' := Unlinked(b, k); Separate(b'.pool, b'.list)
  {
  }

  lemma UnlinkKeeps(b: Blinks, k: nat)
    requires WellFormed(b) && k < |b.list|
    ensures WellFormed(Unlinked(b, k))
  {
    UnlinkedSlots(b, k);
    UnlinkKeepsLinked(b, k);
    UnlinkKeepsSeparate(b, k);
    WithoutDistinct(b.list, k);
  }

  /** Events that only count down or copy lengths leave the shape as it is. */
  lemma SameShape(b: Blinks, pool: seq<Node>)
    requires WellFormed(b) && |pool| == SLOTS
    requires forall i :: 0 <= i < SLOTS ==> pool[i].location == b.pool[i].location && pool[i].next == b.pool[i].next
    requires forall i :: 0 <= i < SLOTS && pool[i].location == 0 ==> pool[i] == b.pool[i]
    ensures WellFormed(b.(pool := pool))
  {
  }

  lemma SyncKeepsShape(b: Blinks, arg: U32)
    requires WellFormed(b) && Step(b, Sync(arg)).1 == 0
    ensures WellFormed(Step(b, Sync(arg)).0)
  {
    var k := Find(b.pool, b.list, To(arg));
    assert b.list[k] in b.list;
    SameShape(b, Step(b, Sync(arg)).0.pool);
  }

  lemma TickKeepsShape(b: Blinks)
    requires WellFormed(b)
    ensures WellFormed(b.(pool := Ticked(b.pool)))
  {
  }

  lemma WellFormedFields(b: Blinks)
    requires WellFormed(b)
    ensures |b.pool| == SLOTS && Inside(b.pool, b.list)
  {
  }

  lemma WellFormedMembers(b: Blinks, i: nat)
    requires WellFormed(b) && i in b.list
    ensures i < SLOTS
  {
  }

  /** Every event keeps the list well formed, as long as no node is added at location 0. */
  lemma StepKeepsWellFormed(b: Blinks, e: Event)
    requires WellFormed(b) && (e.Add? ==> e.user.location != 0)
    ensures WellFormed(Step(b, e).0)
  {
    hide Unlinked, Inserted, Copied, TickNode, WellFormed, Ticked;
    WellFormedFields(b);
    match e
    case Add(user) =>
      if Step(b, e).1 == 0 { AddKeepsWellFormed(b, user); }
    case Remove(location) =>
      if Step(b, e).1 == 0 { UnlinkKeeps(b, Find(b.pool, b.list, location % 0x1_0000)); }
    case Sync(arg) =>
      if Step(b, e).1 == 0 { SyncKeepsShape(b, arg); }
    case Tick =>
      TickKeepsShape(b);
  }

  /** A second node at location 0 takes the slot of the first, and then links to itself. */
  lemma SecondAtZeroLoops(b: Blinks, user: Node, second: Node)
    requires WellFormed(b) && user.location == second.location == 0 && Step(b, Add(user)).1 == 0
    ensures var b' := Step(Step(b, Add(user)).0, Add(second)).0; b'.pool[b'.head].next == b'.head
  {
    FirstFreeIs(Step(b, Add(user)).0.pool, FirstFree(b.pool));
  }

  /** Adding fails, and then changes nothing, exactly for a location outside the screen and when every slot is on the
      list. */
  lemma AddSucceeds(b: Blinks, user: Node)
    requires WellFormed(b)
    ensures Step(b, Add(user)).1 == if user.location < 2000 && |b.list| < 2000 then 0 else -1
    ensures Step(b, Add(user)).1 != 0 ==> Step(b, Add(user)).0 == b
  {
    var f := FirstFree(b.pool);
    hide FirstFree;
    if f == SLOTS {
      forall i: nat | i < SLOTS
        ensures i in b.list
      {
        assert b.pool[i].location != 0;
      }
      NoSlotLeft(b.list);
    } else {
      SlotLeft(b.list, f);
    }
  }

  lemma NoSlotLeft(l: seq<nat>)
    requires Distinct(l) && forall i: nat :: i in l <==> i < SLOTS
    ensures |l| == SLOTS
  {
    DistinctCount(l);
    assert Elements(l) == Below(SLOTS);
  }

  lemma SlotLeft(l: seq<nat>, f: nat)
    requires Distinct(l) && (forall k :: 0 <= k < |l| ==> l[k] < SLOTS) && f < SLOTS && f !in l
    ensures |l| < SLOTS
  {
    DistinctCount(l);
    assert f in Below(SLOTS) && forall i <- l :: i in Below(SLOTS);
    SubsetSize(Elements(l), Below(SLOTS) - {f});
  }

  function Below(n: nat): (r: set<nat>)
    ensures |r| == n && forall i: nat :: i in r <==> i < n
  {
    if n == 0 then {} else Below(n - 1) + {n - 1}
  }

  function Elements(l: seq<nat>): set<nat> {
    set i | i in l
  }

  lemma {:induction false} DistinctCount(l: seq<nat>)
    requires Distinct(l)
    ensures |Elements(l)| == |l|
    decreases |l|
  {
    if l != [] {
      DistinctCount(l[1..]);
      assert forall k :: 0 <= k < |l| - 1 ==> l[1..][k] == l[k + 1];
      assert l[0] !in l[1..];
      assert Elements(l) == {l[0]} + Elements(l[1..]);
    }
  }

  lemma InsertThenUnlink(b: Blinks, user: Node, f: nat)
    requires f < |b.pool| && b.pool[f] == EMPTY && Inside(b.pool, b.list)
    ensures Unlinked(Inserted(b, user, f), 0) == b
  {
  }

  /** Adding a node and removing its location again restores the list and every slot of the pool. */
  lemma AddThenRemoveRestores(b: Blinks, user: Node)
    requires WellFormed(b) && Step(b, Add(user)).1 == 0
    ensures Step(Step(b, Add(user)).0, Remove(user.location)) == (b, 0)
  {
    var f, b' := FirstFree(b.pool), Step(b, Add(user)).0;
    AddKeepsWellFormed(b, user);
    InsertThenUnlink(b, user, f);
    RemovesFirst(b', user.location);
    hide *;
  }

  lemma RemovesFirst(b: Blinks, location: U16)
    requires |b.pool| == SLOTS && Inside(b.pool, b.list) && b.list != [] && b.pool[b.list[0]].location == location
    ensures Step(b, Remove(location)) == (Unlinked(b, 0), 0)
  {
  }

  // ---- events by location ----

  /** The first listed node at the location is the one at position `k`. */
  ghost predicate FirstAt(b: Blinks, location: nat, k: nat) {
    && Inside(b.pool, b.list) && k < |b.list| && b.pool[b.list[k]].location == location
    && forall i :: 0 <= i < k ==> b.pool[b.list[i]].location != location
  }

  /** A sync succeeds exactly when nodes are listed at the locations in both halves of its argument; if it fails, it
      changes nothing. */
  lemma SyncSucceeds(b: Blinks, from: U16, to: U16)
    requires WellFormed(b)
    ensures var (b', r) := Step(b, Sync(65536 * from + to));
      var found := (exists i :: 0 <= i < |b.list| && b.pool[b.list[i]].location == from)
                && (exists i :: 0 <= i < |b.list| && b.pool[b.list[i]].location == to);
      r == (if found then 0 else -1) && (!found ==> b' == b)
  {
    hide WellFormed, Find, From, To, Copied;
    WellFormedFields(b);
    Halves(from, to);
    FindsSome(b.pool, b.list, from);
    FindsSome(b.pool, b.list, to);
  }

  lemma FindsSome(pool: seq<Node>, list: seq<nat>, location: nat)
    requires Inside(pool, list)
    ensures Find(pool, list, location) < |list|
      <==> exists i :: 0 <= i < |list| && pool[list[i]].location == location
  {
    hide Find;
  }

  lemma Halves(from: U16, to: U16)
    ensures From(65536 * from + to) == from && To(65536 * from + to) == to
  {
    ModIs(65536 * from + to, 65536, from, to);
  }

  /** A sync copies from the first node at the location in the upper half to the first one at that in the lower half;
      no other slot changes, and nothing else of that node. */
  lemma SyncByLocation(b: Blinks, from: U16, to: U16, j: nat, k: nat)
    requires WellFormed(b) && FirstAt(b, from, j) && FirstAt(b, to, k)
    ensures var (b', r) := Step(b, Sync(65536 * from + to));
      && r == 0 && b'.head == b.head && b'.list == b.list && |b'.pool| == 2000 && |b.pool| == 2000
      && (forall i :: 0 <= i < 2000 && i != b.list[k] ==> b'.pool[i] == b.pool[i])
      && var node, source := b'.pool[b.list[k]], b.pool[b.list[j]];
      && node.onLength == source.onLength && node.offLength == source.offLength
      && node.countdown == source.countdown && node.status == source.status
      && node.location == to && node.next == b.pool[b.list[k]].next
      && node.onChar == b.pool[b.list[k]].onChar && node.offChar == b.pool[b.list[k]].offChar
  {
    hide *;
    Copying(b, from, to, j, k);
    CopiedFields(b.pool[b.list[k]], b.pool[b.list[j]]);
  }

  lemma Copying(b: Blinks, from: U16, to: U16, j: nat, k: nat)
    requires WellFormed(b) && FirstAt(b, from, j) && FirstAt(b, to, k)
    ensures |b.pool| == 2000 && Inside(b.pool, b.list) && j < |b.list| && k < |b.list|
    ensures b.list[j] < 2000 && b.list[k] < 2000 && b.pool[b.list[k]].location == to
    ensures Step(b, Sync(65536 * from + to))
      == (b.(pool := b.pool[b.list[k] := Copied(b.pool[b.list[k]], b.pool[b.list[j]])]), 0)
  {
    hide From, To, Find, Linked, Separate, Distinct;
    WellFormedFields(b);
    Halves(from, to);
    FindIs(b.pool, b.list, from, j);
    FindIs(b.pool, b.list, to, k);
  }

  lemma CopiedFields(to: Node, from: Node)
    ensures Copied(to, from)
      == Node(to.location, to.onChar, to.offChar, from.onLength, from.offLength, from.countdown, from.status, to.next)
  {
  }

  /** A removal fails exactly when no node is listed at the location, and then changes nothing. */
  lemma RemoveFails(b: Blinks, location: U16)
    requires WellFormed(b)
    ensures var (b', r) := Step(b, Remove(location));
      var found := exists i :: 0 <= i < |b.list| && b.pool[b.list[i]].location == location;
      r == (if found then 0 else -1) && (!found ==> b' == b)
  {
    hide WellFormed, Find, Unlinked;
    WellFormedFields(b);
    FindsSome(b.pool, b.list, location);
    assert location % 0x1_0000 == location;
  }

  /** A removal takes the first node at the location off the list and clears its slot; the others keep all but their
      links. */
  lemma RemoveByLocation(b: Blinks, location: U16, k: nat)
    requires WellFormed(b) && FirstAt(b, location, k)
    ensures var (b', r) := Step(b, Remove(location));
      && r == 0 && b'.list == b.list[..k] + b.list[k + 1..] && |b'.pool| == 2000 && |b.pool| == 2000
      && b'.pool[b.list[k]] == Node(0, 0, 0, 0, 0, 0, 0, -1)
      && forall i :: 0 <= i < 2000 && i != b.list[k] ==> b'.pool[i].(next := b.pool[i].next) == b.pool[i]
  {
    hide WellFormed, Unlinked, Find, FirstAt;
    FirstFound(b, location, k);
    UnlinkedSlots(b, k);
    hide Without;
    WithoutIs(b.list, k);
  }

  lemma FirstFound(b: Blinks, location: U16, k: nat)
    requires WellFormed(b) && FirstAt(b, location, k)
    ensures Inside(b.pool, b.list) && |b.pool| == SLOTS && k < |b.list|
    ensures Find(b.pool, b.list, location) == k && location % 0x1_0000 == location
  {
    FindIs(b.pool, b.list, location, k);
  }

  lemma WithoutIs(l: seq<nat>, k: nat)
    requires k < |l|
    ensures Without(l, k) == l[..k] + l[k + 1..]
  {
  }

  /** An added node goes to the front of the list, on, with its countdown at its on-length and all else as given; it
      takes the first slot without a location, and no other slot changes. */
  lemma AddedNode(b: Blinks, user: Node, f: nat)
    requires WellFormed(b) && user.location < 2000 && f < 2000 && b.pool[f].location == 0
    requires forall i :: 0 <= i < f ==> b.pool[i].location != 0
    ensures Step(b, Add(user)).1 == 0
    ensures var b' := Step(b, Add(user)).0;
      && b'.list == [f] + b.list && |b'.pool| == 2000
      && b'.pool[f] == Node(user.location, user.onChar, user.offChar, user.onLength, user.offLength,
                            user.onLength, 1, if b.list == [] then -1 else b.list[0])
      && forall i :: 0 <= i < 2000 && i != f ==> b'.pool[i] == b.pool[i]
  {
    FirstFreeIs(b.pool, f);
    hide FirstFree;
  }

  // ---- runs ----

  ghost predicate Located(es: seq<Event>) {
    forall e <- es :: e.Add? ==> e.user.location != 0
  }

  ghost function Run(b: Blinks, es: seq<Event>): (r: Blinks)
    requires WellFormed(b) && Located(es)
    decreases |es|
  {
    if es == [] then b
    else
      StepKeepsWellFormed(b, es[0]);
      Run(Step(b, es[0]).0, es[1..])
  }

  /** After any run the list is acyclic, free of duplicates and made of exactly the slots in use, and the slot the
      allocator offers next is not among them. */
  lemma {:induction false} RunKeepsWellFormed(b: Blinks, es: seq<Event>)
    requires WellFormed(b) && Located(es)
    ensures WellFormed(Run(b, es)) && FirstFree(Run(b, es).pool) !in Run(b, es).list
    decreases |es|
  {
    if es != [] {
      StepKeepsWellFormed(b, es[0]);
      RunKeepsWellFormed(Step(b, es[0]).0, es[1..]);
    }
  }

  /** The event neither removes the node in slot `i` nor synchronises it with another. */
  predicate Spares(b: Blinks, e: Event, i: nat)
    requires Inside(b.pool, b.list)
  {
    match e
    case Add(user) => true
    case Remove(location) => Link(b.list, Find(b.pool, b.list, location % 0x1_0000)) != i
    case Sync(arg) => Link(b.list, Find(b.pool, b.list, To(arg))) != i
    case Tick => true
  }

  ghost predicate SparedThroughout(b: Blinks, es: seq<Event>, i: nat)
    requires WellFormed(b) && Located(es)
    decreases |es|
  {
    es == [] ||
    (Spares(b, es[0], i) &&
     (StepKeepsWellFormed(b, es[0]); SparedThroughout(Step(b, es[0]).0, es[1..], i)))
  }

  function Ticks(es: seq<Event>): nat {
    if es == [] then 0 else (if es[0].Tick? then 1 else 0) + Ticks(es[1..])
  }

  /** Nodes that are the same but for their links. */
  predicate Alike(m: Node, n: Node) {
    m.(next := n.next) == n
  }

  lemma StepAges(b: Blinks, e: Event, i: nat)
    requires |b.pool| == SLOTS && Inside(b.pool, b.list)
    requires WellFormed(b) && i in b.list && Spares(b, e, i) && (e.Add? ==> e.user.location != 0)
    ensures i in Step(b, e).0.list && i < |Step(b, e).0.pool|
    ensures Alike(Step(b, e).0.pool[i], TickedNode(b.pool[i], Ticks([e])))
  {
    hide Unlinked, Without, TickNode, WellFormed, Find, FirstFree, TickedNode, Ticks, Copied, Started;
    InUse(b, i);
    OneTick(b.pool[i], e);
    match e {
      case Remove(location) => RemoveSpares(b, location, i);
      case Add(user) => FirstFreeIsFree(b.pool);
      case _ =>
    }
  }

  lemma InUse(b: Blinks, i: nat)
    requires WellFormed(b) && i in b.list
    ensures |b.pool| == SLOTS && i < SLOTS && b.pool[i].location != 0
  {
  }

  lemma OneTick(n: Node, e: Event)
    ensures TickedNode(n, Ticks([e])) == if e.Tick? then TickNode(n) else n
  {
    assert Ticks([]) == 0 && TickedNode(n, 0) == n;
    hide TickNode;
  }

  lemma FirstFreeIsFree(pool: seq<Node>)
    ensures var f := FirstFree(pool); f < |pool| ==> pool[f].location == 0
  {
  }

  lemma RemoveSpares(b: Blinks, location: nat, i: nat)
    requires |b.pool| == SLOTS && Inside(b.pool, b.list)
    requires WellFormed(b) && i in b.list && Spares(b, Remove(location), i)
    ensures var r := Step(b, Remove(location)).0; i in r.list && i < |r.pool| && Alike(r.pool[i], b.pool[i])
  {
    hide Unlinked, Without;
    var k := Find(b.pool, b.list, location % 0x1_0000);
    if k < |b.list| {
      UnlinkedSlots(b, k);
      WithoutAt(b.list, k, i);
    }
  }

  lemma {:induction false} AlikeTogether(m: Node, n: Node, t: nat)
    requires Alike(m, n)
    ensures Alike(TickedNode(m, t), TickedNode(n, t))
  {
    if t > 0 { AlikeTogether(m, n, t - 1); }
  }

  lemma {:induction false} TickedAfter(n: Node, s: nat, t: nat)
    ensures TickedNode(TickedNode(n, s), t) == TickedNode(n, s + t)
  {
    if t > 0 { TickedAfter(n, s, t - 1); }
  }

  /** Through any run that neither removes nor synchronises a node, whatever happens to the others, it only ages by the
      ticks of the run. */
  lemma {:induction false} NodeAges(b: Blinks, es: seq<Event>, i: nat)
    requires WellFormed(b) && Located(es) && i in b.list && SparedThroughout(b, es, i)
    ensures i in Run(b, es).list && i < |Run(b, es).pool|
    ensures Alike(Run(b, es).pool[i], TickedNode(b.pool[i], Ticks(es)))
    decreases |es|
  {
    hide Alike, TickedNode, TickNode, WellFormed;
    WellFormedFields(b);
    WellFormedMembers(b, i);
    if es == [] {
      AlikeAtFirst(b.pool[i]);
    } else {
      var b' := Step(b, es[0]).0;
      StepKeepsWellFormed(b, es[0]);
      StepAges(b, es[0], i);
      NodeAges(b', es[1..], i);
      FirstTick(es);
      AgesTogether(b.pool[i], b'.pool[i], Run(b, es).pool[i], Ticks([es[0]]), Ticks(es[1..]));
    }
  }

  lemma AlikeAtFirst(n: Node)
    ensures Alike(n, TickedNode(n, 0))
  {
  }

  lemma AgesTogether(n: Node, m: Node, r: Node, s: nat, t: nat)
    requires Alike(m, TickedNode(n, s)) && Alike(r, TickedNode(m, t))
    ensures Alike(r, TickedNode(n, s + t))
  {
    AlikeTogether(m, TickedNode(n, s), t);
    TickedAfter(n, s, t);
  }

  lemma FirstTick(es: seq<Event>)
    requires es != []
    ensures Ticks(es) == Ticks([es[0]]) + Ticks(es[1..])
  {
  }

  /** Whatever is done with the other nodes, the ticks since it was added alone decide whether a node is on. */
  lemma AddedNodeBlinks(b: Blinks, user: Node, es: seq<Event>)
    requires WellFormed(b) && user.location != 0 && Step(b, Add(user)).1 == 0 && Located(es)
    requires WellFormed(Step(b, Add(user)).0) && SparedThroughout(Step(b, Add(user)).0, es, FirstFree(b.pool))
    ensures var f, r := FirstFree(b.pool), Run(Step(b, Add(user)).0, es);
      var on := if 1 <= user.onLength <= 32768 then user.onLength else 1;
      var off := if 1 <= user.offLength <= 32768 then user.offLength else 1;
      f < |r.pool| && r.pool[f].status == if Ticks(es) % (on + off) < on then 1 else 0
  {
    hide WellFormed, SparedThroughout, Run, Step, TickedNode, Ticks, FirstFree, Located;
    WellFormedFields(b);
    AddedInFront(b, user);
    NodeAges(Step(b, Add(user)).0, es, FirstFree(b.pool));
    BlinksInTurn(user.(next := b.head), Ticks(es));
  }

  lemma AddedInFront(b: Blinks, user: Node)
    requires WellFormed(b) && Step(b, Add(user)).1 == 0
    ensures var f, b' := FirstFree(b.pool), Step(b, Add(user)).0;
      f in b'.list && f < |b'.pool| && b'.pool[f] == Started(user.(next := b.head))
  {
    hide FirstFree;
    assert Step(b, Add(user)).0.list[0] == FirstFree(b.pool);
  }

  /** Synchronising leaves the node in the upper half of its argument on its course, and from then on both blink
      together until one of them is removed or synchronised again. */
  lemma SynchronisedStayTogether(b: Blinks, from: U16, to: U16, j: nat, k: nat, es: seq<Event>)
    requires WellFormed(b) && Located(es) && FirstAt(b, from, j) && FirstAt(b, to, k)
    requires var b' := Step(b, Sync(65536 * from + to)).0;
      WellFormed(b') && SparedThroughout(b', es, b.list[j]) && SparedThroughout(b', es, b.list[k])
    ensures var source, copy, r := b.list[j], b.list[k], Run(Step(b, Sync(65536 * from + to)).0, es);
      && source < |r.pool| && copy < |r.pool|
      && Alike(r.pool[source], TickedNode(b.pool[source], Ticks(es)))
      && r.pool[source].status == r.pool[copy].status && r.pool[source].countdown == r.pool[copy].countdown
  {
    var b' := Step(b, Sync(65536 * from + to)).0;
    SyncByLocation(b, from, to, j, k);
    assert b.list[j] in b'.list && b.list[k] in b'.list;
    hide Step, SparedThroughout, Run, TickedNode, Ticks, Located;
    NodeAges(b', es, b.list[j]);
    NodeAges(b', es, b.list[k]);
    SourceKept(b, from, to, j, k);
    TickTogether(b'.pool[b.list[j]], b'.pool[b.list[k]], Ticks(es));
  }

  /** The source of a sync keeps its fields, also when it is its own target. */
  lemma SourceKept(b: Blinks, from: U16, to: U16, j: nat, k: nat)
    requires WellFormed(b) && FirstAt(b, from, j) && FirstAt(b, to, k)
    ensures var b' := Step(b, Sync(65536 * from + to)).0;
      |b'.pool| == SLOTS && b.list[j] < SLOTS && b'.pool[b.list[j]] == b.pool[b.list[j]]
  {
    hide Step;
    SyncByLocation(b, from, to, j, k);
  }

  lemma {:induction false} TickTogether(m: Node, n: Node, t: nat)
    requires m.onLength == n.onLength && m.offLength == n.offLength
    requires m.countdown == n.countdown && m.status == n.status
    ensures var m', n' := TickedNode(m, t), TickedNode(n, t);
      && m'.onLength == n'.onLength && m'.offLength == n'.offLength
      && m'.countdown == n'.countdown && m'.status == n'.status
  {
    if t > 0 { TickTogether(m, n, t - 1); }
  }

  // ---- the list in memory ----

  class BlinkList {
    const blinkArray: array<Node>
    var head: int
    ghost var list: seq<nat>

    ghost function Value(): Blinks
      reads this, blinkArray
    {
      Blinks(blinkArray[..], head, list)
    }

    ghost predicate Valid()
      reads this, blinkArray
    {
      WellFormed(Value())
    }

    constructor ()
      ensures Valid() && list == [] && fresh(blinkArray)
    {
      blinkArray := new Node[SLOTS](_ => EMPTY);
      head := NULL;
      list := [];
    }

    /** `mp1_malloc`: the first slot without a location. */
    method Malloc() returns (i: int)
      requires blinkArray.Length == SLOTS
      ensures var f := FirstFree(blinkArray[..]); i == if f == SLOTS then NULL else f
    {
      i := 0;
      while i < SLOTS
        invariant 0 <= i <= SLOTS && forall j :: 0 <= j < i ==> blinkArray[j].location != 0
      {
        if blinkArray[i].location == 0 {
          FirstFreeIs(blinkArray[..], i);
          return i;
        }
        i := i + 1;
      }
      FirstFreeIs(blinkArray[..], SLOTS);
      i := NULL;
    }

    /** `mp1_find_helper`: walks the list for the first node at a location. */
    method FindHelper(location: U16) returns (i: int)
      requires Valid()
      ensures i == Link(list, Find(blinkArray[..], list, location))
    {
      ghost var k := 0;
      i := head;
      while i != NULL
        invariant 0 <= k <= |list| && i == Link(list, k)
        invariant forall j :: 0 <= j < k ==> blinkArray[list[j]].location != location
        decreases |list| - k
      {
        assert blinkArray[..][list[k]] == blinkArray[list[k]];
        if blinkArray[i].location == location {
          break;
        }
        i := blinkArray[i].next;
        k := k + 1;
      }
      FindIs(blinkArray[..], list, location, k);
    }

    /** `mp1_ioctl_add`. */
    method AddNode(user: Node) returns (r: int)
      requires Valid()
      modifies this, blinkArray
      ensures (Value(), r) == Step(old(Value()), Add(user))
      ensures user.location != 0 ==> Valid()
    {
      ghost var b := Value();
      if user.location != 0 { StepKeepsWellFormed(b, Add(user)); }
      hide WellFormed, Separate, Distinct;
      if user.location >= SLOTS {
        return -1;
      }
      var node := user.(status := 1, countdown := user.onLength);
      var slot := Malloc();
      if slot == NULL {
        return -1;
      }
      blinkArray[slot] := node;
      blinkArray[slot] := blinkArray[slot].(next := head);
      head := slot;
      list := [slot] + list;
      assert blinkArray[..] == b.pool[slot := Started(user).(next := b.head)];
      r := 0;
    }

    /** `mp1_ioctl_remove`: finds the node, then walks the list again to the link that leads to it. */
    method RemoveNode(location: nat) returns (r: int)
      requires Valid()
      modifies this, blinkArray
      ensures (Value(), r) == Step(old(Value()), Remove(location)) && Valid()
    {
      ghost var b := Value();
      StepKeepsWellFormed(b, Remove(location));
      ghost var k := Find(b.pool, list, location % 0x1_0000);
      var slot := FindHelper(location % 0x1_0000);
      if slot == NULL {
        return -1;
      }
      var previous := FindPrevious(slot, k);
      var next := blinkArray[slot].next;
      if previous == NULL {
        head := next;
      } else {
        blinkArray[previous] := blinkArray[previous].(next := next);
      }
      blinkArray[slot] := EMPTY;
      list := Without(list, k);
      assert Value() == Unlinked(b, k);
      r := 0;
    }

    /** The node whose link leads to `slot`, or NULL when that is the head. */
    method FindPrevious(slot: nat, ghost k: nat) returns (previous: int)
      requires Valid() && k < |list| && list[k] == slot
      ensures previous == if k == 0 then NULL else list[k - 1]
    {
      ghost var j := 0;
      previous := NULL;
      var i := head;
      while i != slot
        invariant 0 <= j <= k && i == Link(list, j) && previous == if j == 0 then NULL else list[j - 1]
        decreases k - j
      {
        assert blinkArray[..][list[j]] == blinkArray[list[j]];
        previous := i;
        i := blinkArray[i].next;
        j := j + 1;
      }
    }

    /** `mp1_ioctl_sync`: the node at the location in the lower half takes over from the one in the upper half. */
    method Synchronise(arg: U32) returns (r: int)
      requires Valid()
      modifies blinkArray
      ensures (Value(), r) == Step(old(Value()), Sync(arg)) && Valid()
    {
      ghost var b := Value();
      StepKeepsWellFormed(b, Sync(arg));
      var from := FindHelper(From(arg));
      if from == NULL {
        return -1;
      }
      var to := FindHelper(To(arg));
      if to == NULL {
        return -1;
      }
      hide WellFormed, Find, Linked, Separate, Distinct, Link;
      var n := blinkArray[to];
      n := n.(onLength := blinkArray[from].onLength);
      n := n.(offLength := blinkArray[from].offLength);
      n := n.(countdown := blinkArray[from].countdown);
      n := n.(status := blinkArray[from].status);
      blinkArray[to] := n;
      assert blinkArray[..] == b.pool[to := Copied(b.pool[to], b.pool[from])];
      r := 0;
    }

    /** `mp1_rtc_tasklet`: walks the list and counts every node down, switching those that reach their time. */
    method Tasklet()
      requires Valid()
      modifies blinkArray
      ensures Value() == Step(old(Value()), Tick).0 && Valid()
    {
      ghost var b := Value();
      StepKeepsWellFormed(b, Tick);
      ghost var k := 0;
      var i := head;
      while i != NULL
        invariant 0 <= k <= |list| && i == Link(list, k)
        invariant forall j :: 0 <= j < SLOTS ==>
          blinkArray[j] == if j in list[..k] then TickNode(b.pool[j]) else b.pool[j]
        decreases |list| - k
      {
        assert list[..k + 1] == list[..k] + [list[k]] && list[k] !in list[..k];
        var n := blinkArray[i];
        n := n.(countdown := if n.countdown == 0 then 0xFFFF else n.countdown - 1);
        if !(0 < n.countdown < 0x8000) {
          if n.status % 2 == 1 {
            n := n.(countdown := n.offLength, status := n.status - 1);
          } else {
            n := n.(countdown := n.onLength, status := n.status + 1);
          }
        }
        blinkArray[i] := n;
        i := n.next;
        k := k + 1;
      }
      assert list[..k] == list;
      assert blinkArray[..] == Ticked(b.pool);
    }
  }
}
