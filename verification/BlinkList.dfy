/** The linked list of blinking characters in its static pool (fish/blink.S, fish/fish.c). Pointers are
    pool indices; a slot is free when its location is 0. */
module BlinkList {
  import opened Bytes
  import opened Blink

  const NULL := -1

  datatype Slot = Slot(node: Node, next: int)

  const ZEROED := Slot(Node(0, 0, 0, 0, 0, 0, 0), NULL)

  function At(slots: seq<nat>, k: nat): int {
    if k < |slots| then slots[k] else NULL
  }

  /** The pointers from head on run through these slots. */
  ghost predicate Follows(pool: seq<Slot>, head: int, slots: seq<nat>) {
    && head == At(slots, 0)
    && forall k :: 0 <= k < |slots| ==> slots[k] < |pool| && pool[slots[k]].next == At(slots, k + 1)
  }

  ghost predicate Distinct(slots: seq<nat>) {
    forall j, k :: 0 <= j < k < |slots| ==> slots[j] != slots[k]
  }

  ghost predicate InUse(pool: seq<Slot>, slots: seq<nat>) {
    forall i :: 0 <= i < |pool| ==> (pool[i].node.location != 0 <==> i in slots)
  }

  /** The list that starts at head ends, and holds exactly the slots in use, each once. */
  ghost predicate Lists(pool: seq<Slot>, head: int, slots: seq<nat>) {
    |pool| == POOL && Follows(pool, head, slots) && Distinct(slots) && InUse(pool, slots)
  }

  ghost function Nodes(pool: seq<Slot>, slots: seq<nat>): (r: seq<Node>)
    requires forall k :: 0 <= k < |slots| ==> slots[k] < |pool|
    ensures |r| == |slots|
  {
    seq(|slots|, k requires 0 <= k < |slots| => pool[slots[k]].node)
  }

  /** The list a head denotes is unique: it is found by following the pointers. */
  lemma {:induction false} ListIsUnique(pool: seq<Slot>, head: int, a: seq<nat>, b: seq<nat>, k: nat)
    requires Follows(pool, head, a) && Follows(pool, head, b) && k <= |a|
    ensures k <= |b| && a[..k] == b[..k] && At(a, k) == At(b, k)
  {
    if k > 0 {
      ListIsUnique(pool, head, a, b, k - 1);
      FollowsOn(pool, head, a, k - 1);
      FollowsOn(pool, head, b, k - 1);
      hide *;
      PrefixMore(a, b, k - 1);
    }
  }

  lemma FollowsOn(pool: seq<Slot>, head: int, slots: seq<nat>, k: nat)
    requires Follows(pool, head, slots)
    ensures k < |slots| <==> At(slots, k) != NULL
    ensures k < |slots| ==> slots[k] == At(slots, k) < |pool| && pool[slots[k]].next == At(slots, k + 1)
  {
  }

  lemma PrefixMore(a: seq<nat>, b: seq<nat>, k: nat)
    requires k < |a| && k < |b| && a[..k] == b[..k] && a[k] == b[k]
    ensures a[..k + 1] == b[..k + 1]
  {
    assert a[..k + 1] == a[..k] + [a[k]] && b[..k + 1] == b[..k] + [b[k]];
  }

  // ---- Allocation ----

  /** The first free slot, or POOL. */
  function FirstFree(pool: seq<Slot>): (i: nat)
    ensures i <= |pool| && (i < |pool| ==> pool[i].node.location == 0)
    ensures forall j :: 0 <= j < i ==> pool[j].node.location != 0
  {
    if pool == [] || pool[0].node.location == 0 then 0 else 1 + FirstFree(pool[1..])
  }

  lemma FreeIs(pool: seq<Slot>, i: nat)
    requires i <= |pool| && (i < |pool| ==> pool[i].node.location == 0)
    requires forall j :: 0 <= j < i ==> pool[j].node.location != 0
    ensures FirstFree(pool) == i
  {
  }

  /** What add does to the pool and the head, for any node that is allowed a location. */
  ghost function Linked(pool: seq<Slot>, head: int, node: Node): (seq<Slot>, int)
    requires FirstFree(pool) < |pool|
  {
    var i := FirstFree(pool);
    (pool[i := Slot(Fresh(node), head)], i)
  }

  /** After an add at location 0 the next add takes the same slot and links it to itself, so that no
      walk of the list ends. */
  lemma ZeroLocationLoops(pool: seq<Slot>, head: int, zero: Node, next: Node)
    requires FirstFree(pool) < |pool| && zero.location == 0
    ensures var (pool1, head1) := Linked(pool, head, zero);
      FirstFree(pool1) < |pool1|
      && var (pool2, head2) := Linked(pool1, head1, next);
      && head2 == head1 && pool2[head2].next == head2
  {
    FreeIs(Linked(pool, head, zero).0, FirstFree(pool));
  }

  ghost function Below(n: nat): (s: set<nat>)
    ensures |s| == n && forall i: nat :: i in s <==> i < n
  {
    if n == 0 then {} else Below(n - 1) + {n - 1}
  }

  ghost function SetOf(slots: seq<nat>): (s: set<nat>)
    ensures forall i :: i in s <==> i in slots
    ensures Distinct(slots) ==> |s| == |slots|
  {
    if slots == [] then {}
    else
      var n := |slots| - 1;
      assert slots == slots[..n] + [slots[n]];
      SetOf(slots[..n]) + {slots[n]}
  }

  /** The list never outgrows the pool, and the pool is full exactly when the list has POOL nodes. */
  lemma FullMeans(pool: seq<Slot>, head: int, slots: seq<nat>)
    requires Lists(pool, head, slots)
    ensures |slots| <= POOL && (FirstFree(pool) == POOL <==> |slots| == POOL)
  {
    hide Below, SetOf, FirstFree;
    var used, all := SetOf(slots), Below(|pool|);
    forall i | i in used ensures i in all {
      var k :| 0 <= k < |slots| && slots[k] == i;
    }
    assert all == used + (all - used);
    if FirstFree(pool) == POOL {
      forall i | i in all ensures i in used { assert pool[i].node.location != 0; }
    } else {
      assert FirstFree(pool) in all - used;
    }
  }

  // ---- Any sequence of adds, at location 0 or not ----

  /** What add does to the pool and the head; it refuses a location off the screen and a full pool. */
  ghost function Added(pool: seq<Slot>, head: int, node: Node): (r: (seq<Slot>, int))
    requires |pool| == POOL
    ensures |r.0| == POOL
  {
    if node.location >= LOCATIONS || FirstFree(pool) == POOL then (pool, head) else Linked(pool, head, node)
  }

  ghost function AddedAll(pool: seq<Slot>, head: int, nodes: seq<Node>): (r: (seq<Slot>, int))
    requires |pool| == POOL
    ensures |r.0| == POOL
  {
    if nodes == [] then (pool, head)
    else
      var (before, first) := AddedAll(pool, head, nodes[..|nodes| - 1]);
      Added(before, first, nodes[|nodes| - 1])
  }

  /** How many nodes have a location from 1 to 1999. */
  function Usable(nodes: seq<Node>): nat {
    if nodes == [] then 0
    else Usable(nodes[..|nodes| - 1]) + if 1 <= nodes[|nodes| - 1].location < LOCATIONS then 1 else 0
  }

  /** Each add at location 0 finds the pool full: the list and the usable adds before it number 2000. */
  ghost predicate RefusesZeros(start: nat, nodes: seq<Node>) {
    forall i :: 0 <= i < |nodes| && nodes[i].location == 0 ==> start + Usable(nodes[..i]) >= POOL
  }

  lemma RefusesOneMore(start: nat, nodes: seq<Node>, n: nat)
    requires n < |nodes|
    ensures RefusesZeros(start, nodes[..n + 1]) <==>
      RefusesZeros(start, nodes[..n]) && (nodes[n].location == 0 ==> start + Usable(nodes[..n]) >= POOL)
    ensures Usable(nodes[..n + 1]) == Usable(nodes[..n]) + if 1 <= nodes[n].location < LOCATIONS then 1 else 0
  {
    var more := nodes[..n + 1];
    assert more[..n] == nodes[..n] && more[n] == nodes[n];
    forall i | 0 <= i < n ensures more[..i] == nodes[..n][..i] && more[i] == nodes[..n][i] {
    }
  }

  lemma RefusesLast(start: nat, nodes: seq<Node>)
    requires nodes != []
    ensures var before, last := nodes[..|nodes| - 1], nodes[|nodes| - 1];
      && Usable(nodes) == Usable(before) + (if 1 <= last.location < LOCATIONS then 1 else 0)
      && (RefusesZeros(start, nodes)
          <==> RefusesZeros(start, before) && (last.location == 0 ==> start + Usable(before) >= POOL))
  {
    hide RefusesZeros;
    assert nodes[..|nodes|] == nodes;
    RefusesOneMore(start, nodes, |nodes| - 1);
  }

  lemma RefusesNothing(start: nat)
    ensures RefusesZeros(start, []) && Usable([]) == 0
  {
  }

  /** Where a path goes from its k-th slot: on, and at its end round in place. */
  function Onward(path: seq<nat>, k: nat): nat
    requires k < |path|
  {
    if k + 1 < |path| then path[k + 1] else path[k]
  }

  /** From head the pointers run, through slots in use, into a slot that points to itself. */
  ghost predicate RunsInto(pool: seq<Slot>, head: int, path: seq<nat>) {
    && path != [] && path[0] == head
    && (forall k :: 0 <= k < |path| ==> path[k] < |pool| && pool[path[k]].node.location != 0)
    && (forall k :: 0 <= k < |path| ==> pool[path[k]].next == Onward(path, k))
  }

  /** The head is the first free slot, or the walk from it does not end. */
  ghost predicate Broken(pool: seq<Slot>, head: int) {
    FirstFree(pool) == head < |pool| || exists path :: RunsInto(pool, head, path)
  }

  lemma LoopStep(pool: seq<Slot>, head: int, path: seq<nat>, k: nat)
    requires RunsInto(pool, head, path) && k < |path|
    ensures path[0] == head && path[k] < |pool|
    ensures pool[path[k]].next == if k + 1 < |path| then path[k + 1] else path[k]
  {
  }

  lemma {:induction false} LoopFollowed(pool: seq<Slot>, head: int, path: seq<nat>, slots: seq<nat>, k: nat)
    requires RunsInto(pool, head, path) && Follows(pool, head, slots) && k < |path|
    ensures k < |slots| && slots[k] == path[k]
  {
    LoopStep(pool, head, path, if k > 0 then k - 1 else 0);
    HeadFollows(pool, head, slots);
    hide RunsInto, Follows, At;
    if k > 0 {
      LoopFollowed(pool, head, path, slots, k - 1);
      FollowsOn(pool, head, slots, k - 1);
    }
    FollowsOn(pool, head, slots, k);
  }

  lemma HeadFollows(pool: seq<Slot>, head: int, slots: seq<nat>)
    requires Follows(pool, head, slots)
    ensures head == At(slots, 0)
  {
  }

  /** A broken pool holds no list. */
  lemma BrokenIsNoList(pool: seq<Slot>, head: int, slots: seq<nat>)
    requires Broken(pool, head)
    ensures !Lists(pool, head, slots)
  {
    if FirstFree(pool) == head < |pool| {
      HeadInUse(pool, head, slots);
    } else if Follows(pool, head, slots) {
      var path :| RunsInto(pool, head, path);
      LoopRepeats(pool, head, path, slots);
    }
  }

  lemma LoopRepeats(pool: seq<Slot>, head: int, path: seq<nat>, slots: seq<nat>)
    requires RunsInto(pool, head, path) && Follows(pool, head, slots)
    ensures path != [] && |path| < |slots| && slots[|path|] == slots[|path| - 1]
  {
    assert path != [];
    hide RunsInto, Follows, At;
    var k := |path| - 1;
    LoopFollowed(pool, head, path, slots, k);
    LoopStep(pool, head, path, k);
    FollowsOn(pool, head, slots, k);
    FollowsOn(pool, head, slots, k + 1);
  }

  /** Adds never mend it. */
  lemma BrokenStays(pool: seq<Slot>, head: int, node: Node)
    requires |pool| == POOL && Broken(pool, head)
    ensures Broken(Added(pool, head, node).0, Added(pool, head, node).1)
  {
    var i := FirstFree(pool);
    if node.location < LOCATIONS && i < POOL {
      var pool' := pool[i := Slot(Fresh(node), head)];
      if node.location == 0 {
        FreeIs(pool', i);
      } else if i == head {
        assert RunsInto(pool', i, [i]);
      } else {
        var path :| RunsInto(pool, head, path);
        LoopExtends(pool, head, path, i, Slot(Fresh(node), head));
      }
    }
  }

  lemma LoopExtends(pool: seq<Slot>, head: int, path: seq<nat>, i: nat, slot: Slot)
    requires RunsInto(pool, head, path) && i < |pool| && pool[i].node.location == 0
    requires slot.next == head && slot.node.location != 0
    ensures RunsInto(pool[i := slot], i, [i] + path)
  {
    var pool', path' := pool[i := slot], [i] + path;
    forall k | 0 <= k < |path'|
      ensures path'[k] < |pool'| && pool'[path'[k]].node.location != 0
      ensures pool'[path'[k]].next == Onward(path', k)
    {
      if k > 0 {
        assert path'[k] == path[k - 1] != i;
        assert pool[path[k - 1]].next == Onward(path, k - 1) == Onward(path', k);
      }
    }
  }

  /** An add to a pool in order: it stays so unless the add is at location 0 and is accepted. */
  lemma AddedOnce(pool: seq<Slot>, head: int, slots: seq<nat>, node: Node) returns (slots': seq<nat>)
    requires Lists(pool, head, slots)
    ensures |slots| <= POOL
    ensures var (pool', head') := Added(pool, head, node);
      if node.location == 0 && |slots| < POOL then Broken(pool', head')
      else
        Lists(pool', head', slots')
        && |slots'| == Min(POOL, |slots| + if 1 <= node.location < LOCATIONS then 1 else 0)
  {
    FullMeans(pool, head, slots);
    hide Lists, FirstFree;
    slots' := slots;
    var i := FirstFree(pool);
    if node.location < LOCATIONS && i < POOL {
      if node.location == 0 {
        FreeIs(pool[i := Slot(Fresh(node), head)], i);
      } else {
        ListsSized(pool, head, slots);
        AddLists(pool, head, slots, i, node);
        slots' := [i] + slots;
      }
    }
  }

  lemma ListsSized(pool: seq<Slot>, head: int, slots: seq<nat>)
    requires Lists(pool, head, slots)
    ensures |pool| == POOL
  {
  }

  lemma {:induction false} AddedMany(pool: seq<Slot>, head: int, slots: seq<nat>, nodes: seq<Node>)
      returns (slots': seq<nat>)
    requires Lists(pool, head, slots)
    ensures |slots| <= POOL
    ensures var (pool', head') := AddedAll(pool, head, nodes);
      if RefusesZeros(|slots|, nodes) then
        Lists(pool', head', slots') && |slots'| == Min(POOL, |slots| + Usable(nodes))
      else Broken(pool', head')
    decreases |nodes|
  {
    hide Lists, Broken, RefusesZeros, FirstFree, Added, AddedAll, Usable;
    FullMeans(pool, head, slots);
    ListsSized(pool, head, slots);
    if nodes == [] {
      AddedNothing(pool, head);
      RefusesNothing(|slots|);
      slots' := slots;
    } else {
      var n := |nodes| - 1;
      var before, last := nodes[..n], nodes[n];
      AddedLast(pool, head, nodes);
      RefusesLast(|slots|, nodes);
      slots' := AddedMany(pool, head, slots, before);
      var (pool1, head1) := AddedAll(pool, head, before);
      if RefusesZeros(|slots|, before) {
        slots' := AddedOnce(pool1, head1, slots', last);
      } else {
        BrokenStays(pool1, head1, last);
      }
    }
  }

  lemma AddedNothing(pool: seq<Slot>, head: int)
    requires |pool| == POOL
    ensures AddedAll(pool, head, []) == (pool, head)
  {
  }

  lemma AddedLast(pool: seq<Slot>, head: int, nodes: seq<Node>)
    requires |pool| == POOL && nodes != []
    ensures var (before, first) := AddedAll(pool, head, nodes[..|nodes| - 1]);
      AddedAll(pool, head, nodes) == Added(before, first, nodes[|nodes| - 1])
  {
  }

  /** After any adds to a list in order, the pool still holds a list exactly when each add at location 0
      found the pool full. */
  lemma AddsKeepOrder(pool: seq<Slot>, head: int, slots: seq<nat>, nodes: seq<Node>)
    requires Lists(pool, head, slots)
    ensures |pool| == POOL
    ensures (exists s :: Lists(AddedAll(pool, head, nodes).0, AddedAll(pool, head, nodes).1, s))
       <==> RefusesZeros(|slots|, nodes)
  {
    var slots' := AddedMany(pool, head, slots, nodes);
    hide Lists, Broken, RefusesZeros, AddedAll;
    ListsSized(pool, head, slots);
    var (pool', head') := AddedAll(pool, head, nodes);
    if !RefusesZeros(|slots|, nodes) {
      forall s ensures !Lists(pool', head', s) {
        BrokenIsNoList(pool', head', s);
      }
    }
  }

  class BlinkList {
    const pool: array<Slot>
    const vmem: array<byte>
    var head: int
    ghost var slots: seq<nat>

    ghost predicate Wired()
      reads this
    {
      pool.Length == POOL && vmem.Length == SCREEN
    }

    ghost predicate Valid()
      reads this, pool, vmem
    {
      Wired() && Lists(pool[..], head, slots) && Blink.Ok(Now())
    }

    ghost function Now(): Blinker
      reads this, pool, vmem
      requires Wired() && Follows(pool[..], head, slots)
    {
      Blinker(Nodes(pool[..], slots), vmem[..])
    }

    /** The zeroed pool and null head that the program starts with, drawing in the given video memory. */
    constructor (vmem: array<byte>)
      requires vmem.Length == SCREEN
      ensures Valid() && fresh(pool) && this.vmem == vmem && head == NULL && slots == [] && Now().list == []
      ensures vmem[..] == old(vmem[..])
    {
      pool := new Slot[POOL](_ => ZEROED);
      this.vmem := vmem;
      head, slots := NULL, [];
    }

    /** mp1_poke. */
    method DoPoke(location: nat, c: byte)
      requires Wired() && location < LOCATIONS
      modifies vmem
      ensures vmem[..] == Poke(old(vmem[..]), location, c)
    {
      vmem[2 * location] := c;
    }

    /** mp1_malloc: the first slot whose location is 0. */
    method Malloc() returns (i: int)
      requires Wired()
      ensures i == if FirstFree(pool[..]) == POOL then NULL else FirstFree(pool[..])
    {
      for k := 0 to POOL
        invariant forall j :: 0 <= j < k ==> pool[j].node.location != 0
      {
        if pool[k].node.location == 0 {
          FreeIs(pool[..], k);
          return k;
        }
      }
      FreeIs(pool[..], POOL);
      return NULL;
    }

    /** mp1_find_helper: the first node of the list at this location. */
    method FindHelper(location: word) returns (i: int, ghost k: nat)
      requires Valid()
      ensures k == IndexOf(Now().list, location) && i == At(slots, k)
      ensures i == NULL <==> NodeAt(Now().list, location).None?
      ensures i != NULL ==> 0 <= i < POOL && NodeAt(Now().list, location) == Some(pool[i].node)
    {
      hide InUse, Distinct, IndexOf, Blink.Ok;
      ghost var list := Now().list;
      k, i := 0, head;
      while i != NULL
        invariant k <= |slots| && i == At(slots, k)
        invariant forall j :: 0 <= j < k ==> list[j].location != location
        decreases |slots| - k
      {
        assert list[k] == pool[slots[k]].node;
        if pool[i].node.location == location {
          break;
        }
        k, i := k + 1, pool[i].next;
      }
      IndexIs(list, location, k);
    }

    /** mp1_ioctl_add, on any pool. It keeps a list in order if and only if it does not accept location 0. */
    method Add(user: Node) returns (r: int)
      requires Wired()
      modifies this, pool, vmem
      ensures (pool[..], head) == Added(old(pool[..]), old(head), user)
      ensures r == if user.location < LOCATIONS && FirstFree(old(pool[..])) < POOL then 0 else -1
      ensures vmem[..] == if r == 0 then Poke(old(vmem[..]), user.location, user.onChar) else old(vmem[..])
      ensures old(Valid()) ==>
        && r == (if Succeeds(old(Now()), Blink.Add(user)) then 0 else -1)
        && (Possible(old(Now()), Blink.Add(user)) ==> Valid() && Now() == Step(old(Now()), Blink.Add(user)))
        && ((forall s :: !Lists(pool[..], head, s)) <==> r == 0 && user.location == 0)
    {
      hide Follows, Distinct, InUse, FirstFree;
      ghost var ordered := Valid();
      if ordered { FullMeans(pool[..], head, slots); }
      if user.location >= LOCATIONS {
        assert ordered ==> Lists(pool[..], head, slots);
        return -1;
      }
      var temp := user.(status := 1, countdown := user.onLength);
      ghost var was, first := pool[..], head;
      var i := Link(temp);
      if i == NULL {
        assert ordered ==> Lists(pool[..], head, slots);
        return -1;
      }
      DoPoke(temp.location, temp.onChar);
      if ordered {
        if user.location != 0 {
          AddLists(was, first, slots, i, user);
          slots := [i] + slots;
          assert Lists(pool[..], head, slots);
        } else {
          forall s ensures !Lists(pool[..], head, s) { HeadInUse(pool[..], head, s); }
        }
      }
      r := 0;
    }

    /** Allocating a slot for a node and putting it at the front of the list. */
    method Link(temp: Node) returns (i: int)
      requires Wired()
      modifies this`head, pool
      ensures var free := FirstFree(old(pool[..]));
        if free == POOL then i == NULL && pool[..] == old(pool[..]) && head == old(head)
        else i == free == head && pool[..] == old(pool[..])[free := Slot(temp, old(head))]
    {
      i := Malloc();
      if i == NULL { return; }
      pool[i] := Slot(temp, pool[i].next);
      pool[i] := pool[i].(next := head);
      head := i;
    }

    /** mp1_ioctl_remove: takes the newest node at this location out of the list and frees its slot. */
    method Remove(location: word) returns (r: int)
      requires Valid()
      modifies this, pool
      ensures Valid() && Now() == Step(old(Now()), Blink.Remove(location))
      ensures r == if Succeeds(old(Now()), Blink.Remove(location)) then 0 else -1
    {
      hide Follows, Distinct, InUse, Unlinked, Nodes;
      var i, k := FindHelper(location);
      ListBounds(pool[..], head, slots);
      if i == NULL { return -1; }
      ghost var was, first := pool[..], head;
      var prev := FindPrev(i, k);
      Unlink(prev, i, k);
      RemoveLists(was, first, slots, k);
      slots := slots[..k] + slots[k + 1..];
      r := 0;
    }

    /** The walk to the pointer that points at node i; NULL stands for the list head's own pointer. */
    method FindPrev(i: int, ghost k: nat) returns (prev: int)
      requires Wired() && Lists(pool[..], head, slots) && k < |slots| && i == slots[k]
      ensures prev == if k == 0 then NULL else slots[k - 1]
    {
      hide InUse, Distinct;
      prev := NULL;
      ghost var j := 0;
      while (if prev == NULL then head else pool[prev].next) != i
        invariant j <= k && prev == (if j == 0 then NULL else slots[j - 1])
        invariant (if prev == NULL then head else pool[prev].next) == slots[j]
        decreases k - j
      {
        prev := if prev == NULL then head else pool[prev].next;
        j := j + 1;
      }
      if j < k { DistinctAt(slots, j, k); }
    }

    /** Taking node i out of the list, and freeing it. */
    method Unlink(prev: int, i: int, ghost k: nat)
      requires Wired() && Lists(pool[..], head, slots) && k < |slots| && i == slots[k]
      requires prev == if k == 0 then NULL else slots[k - 1]
      modifies this`head, pool
      ensures pool[..] == Unlinked(old(pool[..]), slots, k)
      ensures head == if k == 0 then At(slots, 1) else old(head)
    {
      hide InUse;
      assert k > 0 ==> slots[k - 1] != slots[k];
      if prev == NULL {
        head := pool[i].next;
      } else {
        pool[prev] := pool[prev].(next := pool[i].next);
      }
      pool[i] := ZEROED;
    }

    /** mp1_ioctl_sync: copies one node's lengths, countdown and status to another. */
    method Sync(from: word, to: word) returns (r: int)
      requires Valid()
      modifies pool, vmem
      ensures Valid() && Now() == Step(old(Now()), Blink.Sync(from, to))
      ensures r == if Succeeds(old(Now()), Blink.Sync(from, to)) then 0 else -1
    {
      var esi, j := FindHelper(from);
      if esi == NULL { return -1; }
      var edi, k := FindHelper(to);
      if edi == NULL { return -1; }
      ghost var was := pool[..];
      hide InUse;
      var source := pool[esi].node;
      var n := pool[edi].node.(onLength := source.onLength, offLength := source.offLength);
      n := n.(countdown := source.countdown, status := source.status);
      pool[edi] := pool[edi].(node := n);
      DoPoke(n.location, n.offChar); // cmovl after testb never moves the on character in
      SetLists(was, head, slots, k, n);
      assert Lists(pool[..], head, slots);
      r := 0;
    }

    /** mp1_rtc_tasklet: one tick for every node, in list order. */
    method RtcTasklet()
      requires Valid()
      modifies pool, vmem
      ensures Valid() && Now() == Step(old(Now()), Blink.Tick)
    {
      hide InUse, Distinct, TickList, TickScreen, TickNode, Nodes;
      ghost var b := Now();
      var ebx := head;
      ghost var k := 0;
      assert b.list[0..] == b.list == TickList(b.list)[..0] + b.list[0..];
      while ebx != NULL
        invariant k <= |slots| && ebx == At(slots, k)
        invariant Lists(pool[..], head, slots)
        invariant Nodes(pool[..], slots) == TickList(b.list)[..k] + b.list[k..]
        invariant TickScreen(b.list[k..], vmem[..]) == TickScreen(b.list, b.screen)
        decreases |slots| - k
      {
        ghost var was := pool[..];
        var n := pool[ebx].node;
        ListAt(was, head, slots, k);
        TickMore(b.list, k, vmem[..]);
        KeepsLocation(n);
        var next := TickNode(n);
        if Toggles(n) {
          DoPoke(n.location, Shown(next));
        }
        pool[ebx] := pool[ebx].(node := next);
        SetLists(was, head, slots, k, next);
        k, ebx := k + 1, pool[ebx].next;
      }
      assert k == |b.list| && b.list[k..] == [];
      assert TickList(b.list)[..k] + b.list[k..] == TickList(b.list);
      TickScreenDone(vmem[..]);
      assert Now().list == TickList(b.list);
      assert vmem[..] == TickScreen(b.list, b.screen);
      assert Now() == Step(b, Blink.Tick);
      assert Lists(pool[..], head, slots);
    }
  }

  lemma ListAt(pool: seq<Slot>, head: int, slots: seq<nat>, k: nat)
    requires Lists(pool, head, slots) && k < |slots|
    ensures slots[k] < |pool| && pool[slots[k]].next == At(slots, k + 1)
    ensures pool[slots[k]].node == Nodes(pool, slots)[k] && pool[slots[k]].node.location != 0
  {
    assert slots[k] in slots;
  }

  /** One node more of a list has had its tick. */
  lemma TickMore(list: seq<Node>, k: nat, screen: seq<byte>)
    requires k < |list| && |screen| == SCREEN && forall i :: 0 <= i < |list| ==> list[i].location < LOCATIONS
    ensures var n := list[k];
      && (TickList(list)[..k] + list[k..])[k] == n
      && (TickList(list)[..k] + list[k..])[k := TickNode(n)] == TickList(list)[..k + 1] + list[k + 1..]
      && TickScreen(list[k..], screen)
         == TickScreen(list[k + 1..], if Toggles(n) then Poke(screen, n.location, Shown(TickNode(n))) else screen)
  {
    hide TickList, TickNode;
    assert list[k..][0] == list[k] && list[k..][1..] == list[k + 1..];
  }

  lemma TickScreenDone(screen: seq<byte>)
    requires |screen| == SCREEN
    ensures TickScreen([], screen) == screen
  {
  }

  lemma HeadInUse(pool: seq<Slot>, head: int, slots: seq<nat>)
    requires 0 <= head < |pool| && pool[head].node.location == 0
    ensures !Lists(pool, head, slots)
  {
  }

  lemma AddFollows(pool: seq<Slot>, head: int, slots: seq<nat>, i: nat, slot: Slot)
    requires Follows(pool, head, slots) && i < |pool| && i !in slots && slot.next == head
    ensures Follows(pool[i := slot], i, [i] + slots)
  {
    var pool', slots' := pool[i := slot], [i] + slots;
    forall k | 0 <= k < |slots'|
      ensures slots'[k] < |pool'| && pool'[slots'[k]].next == At(slots', k + 1)
    {
      if k > 0 {
        assert slots'[k] == slots[k - 1] && slots[k - 1] in slots;
      }
    }
  }

  lemma AddNodes(pool: seq<Slot>, slots: seq<nat>, i: nat, slot: Slot)
    requires (forall k :: 0 <= k < |slots| ==> slots[k] < |pool|) && i < |pool| && i !in slots
    ensures forall k :: 0 <= k < |slots| + 1 ==> ([i] + slots)[k] < |pool|
    ensures Nodes(pool[i := slot], [i] + slots) == [slot.node] + Nodes(pool, slots)
  {
    var slots' := [i] + slots;
    forall k | 0 <= k < |slots'|
      ensures slots'[k] < |pool|
      ensures pool[i := slot][slots'[k]].node == ([slot.node] + Nodes(pool, slots))[k]
    {
      if k > 0 {
        assert slots'[k] == slots[k - 1] && slots[k - 1] in slots;
      }
    }
  }

  lemma AddInUse(pool: seq<Slot>, slots: seq<nat>, i: nat, slot: Slot)
    requires InUse(pool, slots) && i < |pool| && slot.node.location != 0
    ensures InUse(pool[i := slot], [i] + slots)
  {
    assert forall j :: j in [i] + slots <==> j == i || j in slots;
  }

  /** Linking a slot that was free in front of the list. */
  lemma AddLists(pool: seq<Slot>, head: int, slots: seq<nat>, i: nat, user: Node)
    requires Lists(pool, head, slots) && i < POOL && pool[i].node.location == 0 && user.location != 0
    ensures var pool' := pool[i := Slot(Fresh(user), head)];
      Lists(pool', i, [i] + slots) && Nodes(pool', [i] + slots) == [Fresh(user)] + Nodes(pool, slots)
  {
    assert i !in slots;
    AddFollows(pool, head, slots, i, Slot(Fresh(user), head));
    AddNodes(pool, slots, i, Slot(Fresh(user), head));
    AddInUse(pool, slots, i, Slot(Fresh(user), head));
  }

  /** Rewriting the node in one slot of the list. */
  lemma SetLists(pool: seq<Slot>, head: int, slots: seq<nat>, k: nat, node: Node)
    requires Lists(pool, head, slots) && k < |slots| && node.location != 0
    ensures var pool' := pool[slots[k] := pool[slots[k]].(node := node)];
      Lists(pool', head, slots) && Nodes(pool', slots) == Nodes(pool, slots)[k := node]
  {
    var i := slots[k];
    var pool' := pool[i := pool[i].(node := node)];
    assert pool[i].node.location != 0 by { assert i in slots; }
    forall j | 0 <= j < |slots|
      ensures pool'[slots[j]].next == At(slots, j + 1)
      ensures pool'[slots[j]].node == if j == k then node else pool[slots[j]].node
    {
      assert j < k ==> slots[j] != slots[k];
      assert k < j ==> slots[k] != slots[j];
    }
  }

  /** The pool after slot slots[k] has been taken out and zeroed. */
  ghost function Unlinked(pool: seq<Slot>, slots: seq<nat>, k: nat): seq<Slot>
    requires k < |slots| && forall j :: 0 <= j < |slots| ==> slots[j] < |pool|
  {
    var around := if k == 0 then pool else pool[slots[k - 1] := pool[slots[k - 1]].(next := At(slots, k + 1))];
    around[slots[k] := ZEROED]
  }

  lemma DistinctAt(slots: seq<nat>, a: nat, b: nat)
    requires Distinct(slots) && a < |slots| && b < |slots| && a != b
    ensures slots[a] != slots[b]
  {
    assert a < b || b < a;
  }

  /** What a slot that stays looks like. */
  lemma RemovedSlot(pool: seq<Slot>, slots: seq<nat>, k: nat, m: nat)
    requires k < |slots| && Distinct(slots) && m < |slots| && m != k
    requires forall j :: 0 <= j < |slots| ==> slots[j] < |pool|
    requires pool[slots[m]].next == At(slots, m + 1)
    ensures var slot := Unlinked(pool, slots, k)[slots[m]];
      slot.node == pool[slots[m]].node && slot.next == At(slots, if m + 1 == k then k + 1 else m + 1)
  {
    DistinctAt(slots, m, k);
    if k > 0 {
      DistinctAt(slots, k - 1, k);
      if m != k - 1 {
        DistinctAt(slots, m, k - 1);
      }
    }
  }

  /** The slots that stay, at their new places. */
  lemma RemovedAt(pool: seq<Slot>, head: int, slots: seq<nat>, k: nat, j: nat)
    requires Follows(pool, head, slots) && Distinct(slots) && k < |slots| && j + 1 < |slots|
    ensures var rest := slots[..k] + slots[k + 1..]; var pool' := Unlinked(pool, slots, k);
      && rest[j] < |pool'| && pool'[rest[j]].next == At(rest, j + 1)
      && pool'[rest[j]].node == (Nodes(pool, slots)[..k] + Nodes(pool, slots)[k + 1..])[j]
  {
    hide Distinct, Unlinked;
    var rest, m := slots[..k] + slots[k + 1..], if j < k then j else j + 1;
    assert rest[j] == slots[m] && pool[slots[m]].next == At(slots, m + 1);
    UnlinkedLength(pool, slots, k);
    RemovedSlot(pool, slots, k, m);
  }

  lemma RemoveLists(pool: seq<Slot>, head: int, slots: seq<nat>, k: nat)
    requires Lists(pool, head, slots) && k < |slots|
    ensures var rest := slots[..k] + slots[k + 1..]; var pool' := Unlinked(pool, slots, k);
      && Lists(pool', if k == 0 then At(slots, 1) else head, rest)
      && Nodes(pool', rest) == Nodes(pool, slots)[..k] + Nodes(pool, slots)[k + 1..]
  {
    hide Distinct, InUse, Unlinked;
    var rest, pool' := slots[..k] + slots[k + 1..], Unlinked(pool, slots, k);
    UnlinkedLength(pool, slots, k);
    forall j | 0 <= j < |rest|
      ensures rest[j] < |pool'| && pool'[rest[j]].next == At(rest, j + 1)
    {
      RemovedAt(pool, head, slots, k, j);
    }
    RemoveNodes(pool, head, slots, k);
    RemoveInUse(pool, slots, k);
  }

  lemma RemoveNodes(pool: seq<Slot>, head: int, slots: seq<nat>, k: nat)
    requires Follows(pool, head, slots) && Distinct(slots) && k < |slots|
    requires var rest := slots[..k] + slots[k + 1..];
      forall j :: 0 <= j < |rest| ==> rest[j] < |Unlinked(pool, slots, k)|
    ensures Nodes(Unlinked(pool, slots, k), slots[..k] + slots[k + 1..])
         == Nodes(pool, slots)[..k] + Nodes(pool, slots)[k + 1..]
  {
    hide Distinct, Unlinked;
    var rest, pool' := slots[..k] + slots[k + 1..], Unlinked(pool, slots, k);
    var want := Nodes(pool, slots)[..k] + Nodes(pool, slots)[k + 1..];
    forall j | 0 <= j < |rest| ensures Nodes(pool', rest)[j] == want[j] {
      RemovedAt(pool, head, slots, k, j);
    }
  }

  lemma UnlinkedLength(pool: seq<Slot>, slots: seq<nat>, k: nat)
    requires k < |slots| && forall j :: 0 <= j < |slots| ==> slots[j] < |pool|
    ensures |Unlinked(pool, slots, k)| == |pool|
  {
  }

  lemma ListBounds(pool: seq<Slot>, head: int, slots: seq<nat>)
    requires Lists(pool, head, slots)
    ensures forall j :: 0 <= j < |slots| ==> slots[j] < |pool|
  {
  }

  lemma RemoveInUse(pool: seq<Slot>, slots: seq<nat>, k: nat)
    requires k < |slots| && Distinct(slots) && InUse(pool, slots)
    requires forall j :: 0 <= j < |slots| ==> slots[j] < |pool|
    ensures var rest := slots[..k] + slots[k + 1..]; Distinct(rest) && InUse(Unlinked(pool, slots, k), rest)
  {
    var rest, pool' := slots[..k] + slots[k + 1..], Unlinked(pool, slots, k);
    assert forall j :: 0 <= j < |rest| ==> rest[j] == slots[if j < k then j else j + 1];
    forall i: nat | i < |pool| ensures i in rest <==> i in slots && i != slots[k] {
      if i in slots && i != slots[k] {
        var j :| 0 <= j < |slots| && slots[j] == i;
        assert rest[if j < k then j else j - 1] == i;
      }
      if i in rest {
        var j :| 0 <= j < |rest| && rest[j] == i;
        assert j < k ==> slots[j] != slots[k];
        assert k <= j ==> slots[k] != slots[j + 1];
      }
    }
  }

  /** Any sequence of adds, removes, syncs and ticks on the linked list, in which no add at location 0 is
      accepted, is the same sequence on the plain list. */
  method Drive(list: BlinkList, events: seq<Event>)
    requires list.Valid() && AllPossible(list.Now(), events)
    modifies list, list.pool, list.vmem
    ensures list.Valid() && list.Now() == Run(old(list.Now()), events)
  {
    hide Step, Follows, Distinct, InUse, Possible, Blink.Ok;
    ghost var b := list.Now();
    for n := 0 to |events|
      invariant list.Valid() && AllPossible(list.Now(), events[n..]) && Run(list.Now(), events[n..]) == Run(b, events)
    {
      assert events[n..][0] == events[n] && events[n..][1..] == events[n + 1..];
      match events[n]
      case Add(node) => var _ := list.Add(node);
      case Remove(location) => var _ := list.Remove(location);
      case Sync(from, to) => var _ := list.Sync(from, to);
      case Tick => list.RtcTasklet();
    }
  }
}
