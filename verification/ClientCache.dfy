/** The client's block cache: a map of used blocks, a list of free ones, and a harvester that keeps the list
    filled by evicting the least recently used clean blocks. */
module ClientCache {
  import opened Intervals

  const FREE_LIST_MIN_T: nat := 2035
  const FREE_LIST_MAX_T: nat := 2042
  const BUFFER_CACHE_CAPACITY: nat := 2048

  type LBA = nat

  datatype Status = Clean | Dirty

  datatype Block = Block(blockAdr: LBA, data: string, status: Status, accessTime: nat)

  type Used = map<LBA, Block>

  /** A free block carries nothing, so the free list is its length. */
  datatype State = State(used: Used, free: nat, lastAccess: nat)

  // ------------------------------------------------------------------ what the operations do

  /** `unordered_map::insert`: an entry that is there stays. */
  function Inserted(s: State, b: Block): State
    requires s.free > 0
  {
    State(if b.blockAdr in s.used then s.used else s.used[b.blockAdr := b.(accessTime := s.lastAccess)],
          s.free - 1, s.lastAccess + 1)
  }

  function Touched(s: State, a: LBA): State
    requires a in s.used
  {
    State(s.used[a := s.used[a].(accessTime := s.lastAccess)], s.free, s.lastAccess + 1)
  }

  function Marked(s: State, a: LBA, status: Status): State
    requires a in s.used
  {
    s.(used := s.used[a := s.used[a].(status := status)])
  }

  /** A look-up of `a`, field by field: the access counter moves on and the block found gets its old value as
      access time; no address, datum or status changes, and no other block. */
  ghost predicate OnlyStamps(s: State, a: LBA, s': State) {
    && s'.free == s.free && s'.lastAccess == s.lastAccess + 1 && s'.used.Keys == s.used.Keys
    && (forall x :: x in s.used && x in s'.used && x != a ==> s'.used[x] == s.used[x])
    && (a in s.used && a in s'.used ==>
          && s'.used[a].accessTime == s.lastAccess && s'.used[a].blockAdr == s.used[a].blockAdr
          && s'.used[a].data == s.used[a].data && s'.used[a].status == s.used[a].status)
  }

  /** An insert of `b`, field by field: a free block goes and the access counter moves on; the block is stored
      with its own datum and status unless its address is taken, and no other block changes. */
  ghost predicate OnlyStores(s: State, b: Block, s': State) {
    && s'.free + 1 == s.free && s'.lastAccess == s.lastAccess + 1
    && (forall x :: x in s'.used <==> x in s.used || x == b.blockAdr)
    && (forall x :: x in s.used && x in s'.used ==> s'.used[x] == s.used[x])
    && (b.blockAdr !in s.used && b.blockAdr in s'.used ==>
          s'.used[b.blockAdr] == Block(b.blockAdr, b.data, b.status, s.lastAccess))
  }

  lemma TouchOnlyStamps(s: State, a: LBA)
    requires a in s.used
    ensures OnlyStamps(s, a, Touched(s, a))
  {
  }

  lemma InsertOnlyStores(s: State, b: Block)
    requires s.free > 0
    ensures OnlyStores(s, b, Inserted(s, b))
  {
  }

  /** A block that is looked up is afterwards newer than every other block. */
  lemma StampedIsNewest(s: State, a: LBA, s': State)
    requires InOrder(s) && a in s.used && OnlyStamps(s, a, s')
    ensures InOrder(s')
    ensures a in s'.used && forall x :: x in s'.used && x != a ==> s'.used[x].accessTime < s'.used[a].accessTime
  {
    assert forall x :: x in s'.used ==> x in s.used;
  }

  lemma StoredKeepsOrder(s: State, b: Block, s': State)
    requires InOrder(s) && OnlyStores(s, b, s')
    ensures InOrder(s')
  {
    assert forall x :: x in s'.used && x != b.blockAdr ==> x in s.used;
  }

  function CleanIn(used: Used, among: set<LBA>): set<LBA> {
    set a | a in among && a in used && used[a].status == Clean
  }

  function Least(x: nat, y: nat): nat {
    if x < y then x else y
  }

  /** `chosen` are `k` of the blocks `among`, or all when there are fewer, and none of the others is older. */
  ghost predicate AreOldest(used: Used, among: set<LBA>, k: nat, chosen: set<LBA>) {
    && chosen <= among <= used.Keys
    && |chosen| == Least(k, |among|)
    && forall v, u :: v in chosen && u in among && u !in chosen ==> used[v].accessTime <= used[u].accessTime
  }

  /** What one round of the harvester may do; it is free only in the choice between equal access times. */
  ghost predicate Harvested(s: State, s': State) {
    if s.free < FREE_LIST_MIN_T then
      exists victims :: AreOldest(s.used, CleanIn(s.used, s.used.Keys), FREE_LIST_MAX_T - s.free, victims) &&
        s' == State(s.used - victims, s.free + |victims|, s.lastAccess)
    else
      s' == s
  }

  // ------------------------------------------------------------------ what every state keeps

  /** Every block is stored under its own address, and access times are distinct and in the past. */
  ghost predicate InOrder(s: State) {
    && (forall a :: a in s.used ==> s.used[a].blockAdr == a && s.used[a].accessTime < s.lastAccess)
    && (forall a, c :: a in s.used && c in s.used && a != c ==> s.used[a].accessTime != s.used[c].accessTime)
  }

  lemma OldestAreUnique(s: State, among: set<LBA>, k: nat, one: set<LBA>, two: set<LBA>)
    requires InOrder(s) && AreOldest(s.used, among, k, one) && AreOldest(s.used, among, k, two)
    ensures one == two
  {
    assert forall x, y :: x in one - two && y in two - one ==> s.used[x].accessTime == s.used[y].accessTime;
    assert forall x, y :: x in one - two ==> y !in two - one;
    assert one - two == {} || two - one == {};
    if one <= two {
      SmallerSet(one, two);
    }
    if two <= one {
      SmallerSet(two, one);
    }
  }

  /** The harvester has no choice at all: whatever order it looks at the blocks in, the next state is one. */
  lemma HarvestIsDetermined(s: State, one: State, two: State)
    requires InOrder(s) && Harvested(s, one) && Harvested(s, two)
    ensures one == two
  {
    if s.free < FREE_LIST_MIN_T {
      var k, clean := FREE_LIST_MAX_T - s.free, CleanIn(s.used, s.used.Keys);
      var v :| AreOldest(s.used, clean, k, v) && one == State(s.used - v, s.free + |v|, s.lastAccess);
      var w :| AreOldest(s.used, clean, k, w) && two == State(s.used - w, s.free + |w|, s.lastAccess);
      OldestAreUnique(s, clean, k, v, w);
    }
  }

  lemma WithoutCount(used: Used, gone: set<LBA>)
    requires gone <= used.Keys
    ensures |used - gone| + |gone| == |used|
  {
    assert used.Keys == (used.Keys - gone) + gone;
    assert (used - gone).Keys == used.Keys - gone;
  }

  lemma UpdateCount(used: Used, a: LBA, b: Block)
    ensures |used[a := b]| == if a in used then |used| else |used| + 1
  {
    assert used[a := b].Keys == used.Keys + {a};
  }

  /** Harvesting spares every dirty block, spares a clean one only if the evicted ones are all older, keeps
      the total, does not fill the list beyond its maximum, and reaches the maximum if enough is clean. */
  lemma HarvestTakesTheOldest(s: State, s': State)
    requires Harvested(s, s')
    ensures s'.used.Keys <= s.used.Keys && forall a :: a in s'.used ==> s'.used[a] == s.used[a]
    ensures forall a :: a in s.used && s.used[a].status == Dirty ==> a in s'.used
    ensures forall a, c :: a in s.used && a !in s'.used && c in s'.used && s.used[c].status == Clean ==>
              s.used[a].accessTime <= s.used[c].accessTime
    ensures s'.free + |s'.used| == s.free + |s.used| && s'.lastAccess == s.lastAccess
    ensures s.free >= 2035 ==> s' == s
    ensures var clean := set a | a in s.used && s.used[a].status == Clean;
            s.free < 2035 ==> s'.free == if s.free + |clean| < 2042 then s.free + |clean| else 2042
  {
    if s.free < FREE_LIST_MIN_T {
      var v :| AreOldest(s.used, CleanIn(s.used, s.used.Keys), FREE_LIST_MAX_T - s.free, v) &&
        s' == State(s.used - v, s.free + |v|, s.lastAccess);
      hide *;
      EvictedAreOldest(s.used, FREE_LIST_MAX_T - s.free, v);
      WithoutCount(s.used, v);
    }
  }

  lemma EvictedAreOldest(used: Used, k: nat, victims: set<LBA>)
    requires AreOldest(used, CleanIn(used, used.Keys), k, victims)
    ensures victims <= used.Keys
    ensures var clean := set a | a in used && used[a].status == Clean;
            |victims| == if |clean| < k then |clean| else k
    ensures forall a :: a in used && used[a].status == Dirty ==> a !in victims
    ensures forall a, c :: a in victims && c in used && c !in victims && used[c].status == Clean ==>
              used[a].accessTime <= used[c].accessTime
  {
    assert (set a | a in used && used[a].status == Clean) == CleanIn(used, used.Keys);
  }

  // ------------------------------------------------------------------ runs

  datatype Op = Insert(b: Block) | Touch(a: LBA) | Mark(a: LBA, status: Status) | Harvest

  ghost predicate Step(s: State, op: Op, s': State) {
    match op
    case Insert(b) => s.free > 0 && s' == Inserted(s, b)
    case Touch(a) => a in s.used && s' == Touched(s, a)
    case Mark(a, status) => a in s.used && s' == Marked(s, a, status)
    case Harvest => Harvested(s, s')
  }

  const EMPTY: State := State(map[], BUFFER_CACHE_CAPACITY, 0)

  ghost predicate IsRun(ops: seq<Op>, states: seq<State>) {
    && |states| == |ops| + 1 && states[0] == EMPTY
    && forall n :: 0 <= n < |ops| ==> Step(states[n], ops[n], states[n + 1])
  }

  /** An insert that finds its address taken consumes a free block and stores nothing. */
  predicate Leaks(s: State, op: Op) {
    op.Insert? && op.b.blockAdr in s.used
  }

  function LeakedBy(ops: seq<Op>, states: seq<State>, n: nat): nat
    requires n <= |ops| <= |states|
  {
    if n == 0 then 0 else LeakedBy(ops, states, n - 1) + if Leaks(states[n - 1], ops[n - 1]) then 1 else 0
  }

  /** A block stored under its own address with the next access time keeps the map in order. */
  lemma StampKeepsOrder(s: State, b: Block, free: nat)
    requires InOrder(s)
    ensures InOrder(State(s.used[b.blockAdr := b.(accessTime := s.lastAccess)], free, s.lastAccess + 1))
    ensures InOrder(State(s.used, free, s.lastAccess + 1))
  {
  }

  lemma HarvestKeepsOrder(s: State, s': State)
    requires InOrder(s) && Harvested(s, s')
    ensures InOrder(s') && s'.free + |s'.used| == s.free + |s.used|
  {
    HarvestTakesTheOldest(s, s');
    hide Harvested;
  }

  lemma StepKeepsOrder(s: State, op: Op, s': State)
    requires InOrder(s) && Step(s, op, s')
    ensures InOrder(s')
    ensures s'.free + |s'.used| + (if Leaks(s, op) then 1 else 0) == s.free + |s.used|
  {
    hide InOrder, Harvested;
    match op
    case Insert(b) => InsertKeepsOrder(s, b);
    case Touch(a) => TouchKeepsOrder(s, a);
    case Mark(a, status) => MarkKeepsOrder(s, a, status);
    case Harvest => HarvestKeepsOrder(s, s');
  }

  lemma InsertKeepsOrder(s: State, b: Block)
    requires InOrder(s) && s.free > 0
    ensures InOrder(Inserted(s, b))
    ensures var s' := Inserted(s, b);
            s'.free + |s'.used| + (if b.blockAdr in s.used then 1 else 0) == s.free + |s.used|
  {
    StampKeepsOrder(s, b, s.free - 1);
    hide InOrder;
    UpdateCount(s.used, b.blockAdr, b.(accessTime := s.lastAccess));
  }

  lemma TouchKeepsOrder(s: State, a: LBA)
    requires InOrder(s) && a in s.used
    ensures InOrder(Touched(s, a)) && |Touched(s, a).used| == |s.used|
  {
    assert s.used[a].blockAdr == a;
    StampKeepsOrder(s, s.used[a], s.free);
    hide InOrder;
    UpdateCount(s.used, a, s.used[a].(accessTime := s.lastAccess));
  }

  lemma MarkKeepsOrder(s: State, a: LBA, status: Status)
    requires InOrder(s) && a in s.used
    ensures InOrder(Marked(s, a, status)) && |Marked(s, a, status).used| == |s.used|
  {
    UpdateCount(s.used, a, s.used[a].(status := status));
  }

  lemma EmptyIsInOrder()
    ensures InOrder(EMPTY) && EMPTY.free + |EMPTY.used| == BUFFER_CACHE_CAPACITY
  {
  }

  /** All runs: blocks stay under their own addresses with distinct past access times, and the capacity is
      accounted for by the free blocks, the used blocks and one block for each insert of a present address. */
  lemma {:induction false} RunsKeepAccounts(ops: seq<Op>, states: seq<State>, n: nat)
    requires IsRun(ops, states) && n <= |ops|
    ensures InOrder(states[n])
    ensures states[n].free + |states[n].used| + LeakedBy(ops, states, n) == 2048
  {
    hide InOrder, Step, Leaks;
    if n == 0 {
      assert InOrder(EMPTY) by { EmptyIsInOrder(); }
    } else {
      RunsKeepAccounts(ops, states, n - 1);
      assert Step(states[n - 1], ops[n - 1], states[n - 1 + 1]);
      StepKeepsOrder(states[n - 1], ops[n - 1], states[n]);
    }
  }

  // ------------------------------------------------------------------ what becomes of one block

  /** One operation on the block at `a`: its datum and address stay as long as it is there, its status changes
      only by a mark, and its access time only by a look-up; it comes by an insert, as it was given, and goes only
      clean and by harvesting. */
  lemma StepChangesBlock(s: State, op: Op, s': State, a: LBA)
    requires Step(s, op, s')
    ensures s'.lastAccess == s.lastAccess + if op.Insert? || op.Touch? then 1 else 0
    ensures a in s.used && a in s'.used ==>
              && s'.used[a].blockAdr == s.used[a].blockAdr && s'.used[a].data == s.used[a].data
              && s'.used[a].status == (if op.Mark? && op.a == a then op.status else s.used[a].status)
              && s'.used[a].accessTime == (if op == Touch(a) then s.lastAccess else s.used[a].accessTime)
    ensures a !in s.used && a in s'.used ==>
              op.Insert? && op.b.blockAdr == a && s'.used[a] == Block(a, op.b.data, op.b.status, s.lastAccess)
    ensures op.Insert? && op.b.blockAdr == a ==> a in s'.used
    ensures a in s.used && a !in s'.used ==> op == Harvest && s.used[a].status == Clean
  {
    if op == Harvest {
      HarvestTakesTheOldest(s, s');
      hide Harvested;
    }
  }

  /** All runs: a dirty block stays, with its data, until it is marked clean. */
  lemma {:induction false} DirtyStays(ops: seq<Op>, states: seq<State>, a: LBA, m: nat, n: nat)
    requires IsRun(ops, states) && m <= n <= |ops|
    requires a in states[m].used && states[m].used[a].status == Dirty
    requires forall k :: m <= k < n ==> ops[k] != Mark(a, Clean)
    ensures a in states[n].used && states[n].used[a].status == Dirty
    ensures states[n].used[a].data == states[m].used[a].data
  {
    hide Step;
    if m < n {
      DirtyStays(ops, states, a, m, n - 1);
      assert Step(states[n - 1], ops[n - 1], states[n - 1 + 1]);
      StepChangesBlock(states[n - 1], ops[n - 1], states[n], a);
    }
  }

  /** The operation gives the block at `a` a status: an insert that stores it, or a mark. */
  ghost predicate SetsStatus(s: State, op: Op, a: LBA) {
    || (op.Mark? && op.a == a)
    || (op.Insert? && op.b.blockAdr == a && a !in s.used)
  }

  /** All runs: a block that is there has the status that the last mark or insert gave it; look-ups, other
      blocks' operations and harvesting do not change it. */
  lemma {:induction false} StatusIsLastSet(ops: seq<Op>, states: seq<State>, a: LBA, k: nat, n: nat)
    requires IsRun(ops, states) && k < n <= |ops| && SetsStatus(states[k], ops[k], a)
    requires forall j :: k < j < n ==> !SetsStatus(states[j], ops[j], a)
    requires a in states[n].used
    ensures states[n].used[a].status == if ops[k].Mark? then ops[k].status else ops[k].b.status
  {
    hide Step;
    assert Step(states[n - 1], ops[n - 1], states[n - 1 + 1]);
    StepChangesBlock(states[n - 1], ops[n - 1], states[n], a);
    if k + 1 < n {
      assert !SetsStatus(states[n - 1], ops[n - 1], a);
      StatusIsLastSet(ops, states, a, k, n - 1);
    }
  }

  // ------------------------------------------------------------------ the cache object

  class Cache {
    var used: Used
    var free: nat
    var lastAccess: nat

    function View(): State
      reads this
    {
      State(used, free, lastAccess)
    }

    constructor ()
      ensures View() == State(map[], 2048, 0)
    {
      used, free, lastAccess := map[], BUFFER_CACHE_CAPACITY, 0;
    }

    /** `insertSingleBlockIntoCache`; the failure is the error thrown when no block is free. */
    method InsertSingleBlock(b0: Block) returns (ok: bool)
      modifies this
      ensures ok <==> old(free) > 0
      ensures View() == if old(free) > 0 then Inserted(old(View()), b0) else old(View())
      ensures ok ==> OnlyStores(old(View()), b0, View())
    {
      if free > 0 {
        InsertOnlyStores(View(), b0);
      }
      var b := b0;
      if free == 0 {
        return false;
      }
      b := b.(accessTime := lastAccess);
      lastAccess := lastAccess + 1;
      free := free - 1;
      if b.blockAdr !in used {
        used := used[b.blockAdr := b];
      }
      return true;
    }

    /** `insertMultipleBlocksIntoCache`: all of them or none. */
    method InsertMultipleBlocks(blocks: seq<Block>) returns (ok: bool)
      modifies this
      ensures ok <==> old(free) >= |blocks|
      ensures View() == if old(free) >= |blocks| then InsertedAll(old(View()), blocks) else old(View())
      ensures ok ==> StoresAll(old(View()), blocks, View())
    {
      if free < |blocks| {
        return false;
      }
      ghost var was := View();
      InsertedToStart(was, blocks);
      hide InsertedAll, Inserted, StoresAll, OnlyStores, InsertedTo;
      for i := 0 to |blocks|
        invariant InsertedTo(was, blocks, i, View())
      {
        InsertedOneMore(was, blocks, i, View());
        var done := InsertSingleBlock(blocks[i]);
      }
      InsertedToEnd(was, blocks, View());
      return true;
    }

    /** `getBlockFromCache`: a look-up that counts as an access. */
    method GetBlock(a: LBA) returns (found: Option<Block>)
      modifies this
      ensures found.Some? <==> a in old(used)
      ensures found.Some? ==> View() == Touched(old(View()), a) && found.value == used[a]
      ensures found.Some? ==> OnlyStamps(old(View()), a, View())
      ensures found.None? ==> View() == old(View())
    {
      if a !in used {
        return None;
      }
      used := used[a := used[a].(accessTime := lastAccess)];
      lastAccess := lastAccess + 1;
      return Some(used[a]);
    }

    /** One round of the harvester: a priority queue of at most `k` clean blocks with the newest on top. */
    method HarvestOnce()
      requires InOrder(View())
      modifies this
      ensures Harvested(old(View()), View()) && InOrder(View())
    {
      ghost var was := View();
      if free < FREE_LIST_MIN_T {
        var k := FREE_LIST_MAX_T - free;
        var queue := CollectOldest(k);
        EvictAll(queue);
      }
      assert Harvested(was, View());
      StepKeepsOrder(was, Harvest, View());
    }

    /** The loop over the used blocks, in whatever order the map yields them. */
    method CollectOldest(k: nat) returns (queue: set<LBA>)
      requires InOrder(View()) && k > 0
      ensures AreOldest(used, CleanIn(used, used.Keys), k, queue)
    {
      queue := {};
      var todo := used.Keys;
      assert CleanIn(used, used.Keys - todo) == {};
      assert forall a :: a in used ==> used[a].blockAdr == a;
      assert AreOldest(used, {}, k, {});
      hide InOrder, CleanIn, AreOldest;
      while todo != {}
        invariant todo <= used.Keys
        invariant AreOldest(used, CleanIn(used, used.Keys - todo), k, queue)
        decreases todo
      {
        var it :| it in todo;
        ghost var seen := CleanIn(used, used.Keys - todo);
        assert todo == todo - {it} + {it};
        todo := todo - {it};
        CleanInStep(used, todo, it);
        if used[it].status == Clean {
          queue := Consider(it, k, queue, seen);
        }
      }
      assert used.Keys - todo == used.Keys;
    }

    /** A clean block comes up: it is pushed while there is room, and takes the top's place if it is older. */
    method Consider(it: LBA, k: nat, queue0: set<LBA>, ghost seen: set<LBA>) returns (queue: set<LBA>)
      requires it in used && used[it].blockAdr == it && it !in seen && k > 0 && AreOldest(used, seen, k, queue0)
      ensures AreOldest(used, seen + {it}, k, queue)
    {
      queue := queue0;
      var b := used[it];
      if |queue| >= k {
        var top := Top(queue);
        if b.accessTime < used[top].accessTime {
          ReplaceTop(used, seen, k, queue, top, it);
          queue := queue - {top};
          queue := queue + {b.blockAdr};
        } else {
          PassNewer(used, seen, k, queue, top, it);
        }
      } else {
        PushFirst(used, seen, k, queue, it);
        queue := queue + {b.blockAdr};
      }
    }

    /** The top of the priority queue: a block with the largest access time. */
    method Top(queue: set<LBA>) returns (top: LBA)
      requires queue != {} && queue <= used.Keys
      ensures top in queue && forall a :: a in queue ==> used[a].accessTime <= used[top].accessTime
    {
      SomeNewest(used, queue);
      top :| top in queue && forall a :: a in queue ==> used[a].accessTime <= used[top].accessTime;
    }

    /** The loop that empties the queue into the free list. */
    method EvictAll(victims: set<LBA>)
      requires victims <= used.Keys
      modifies this
      ensures View() == State(old(used) - victims, old(free) + |victims|, old(lastAccess))
    {
      var queue := victims;
      var j := |queue|;
      ghost var was := View();
      assert used == was.used - (victims - queue);
      assert queue <= used.Keys;
      for i := 0 to j
        invariant queue <= victims && i + |queue| == j
        invariant View() == State(was.used - (victims - queue), was.free + i, was.lastAccess)
      {
        var top := Top(queue);
        OneLess(was.used, victims, queue, top);
        used := used - {top};
        free := free + 1;
        queue := queue - {top};
      }
      assert victims - queue == victims;
    }
  }

  function InsertedAll(s: State, blocks: seq<Block>): (t: State)
    requires s.free >= |blocks|
    ensures t.free == s.free - |blocks|
  {
    if blocks == [] then s else Inserted(InsertedAll(s, blocks[..|blocks| - 1]), blocks[|blocks| - 1])
  }

  /** Many inserts, block by block: what was there stays; each new address holds the first of the blocks that has
      it, with its own datum and status and its place in the order of access. */
  ghost predicate StoresAll(s: State, blocks: seq<Block>, t: State) {
    && t.free + |blocks| == s.free && t.lastAccess == s.lastAccess + |blocks|
    && (forall x :: x in s.used ==> x in t.used && t.used[x] == s.used[x])
    && (forall x :: x in t.used && x !in s.used ==> exists i :: 0 <= i < |blocks| && blocks[i].blockAdr == x)
    && (forall i :: 0 <= i < |blocks| ==> blocks[i].blockAdr in t.used)
    && (forall i :: 0 <= i < |blocks| && IsNew(s, blocks, i) ==>
          t.used[blocks[i].blockAdr] ==
            Block(blocks[i].blockAdr, blocks[i].data, blocks[i].status, s.lastAccess + i))
  }

  /** The first `i` blocks are in. */
  ghost predicate InsertedTo(s: State, blocks: seq<Block>, i: nat, t: State)
    requires s.free >= |blocks|
  {
    i <= |blocks| && t == InsertedAll(s, blocks[..i]) && StoresAll(s, blocks[..i], t)
  }

  lemma InsertedToStart(s: State, blocks: seq<Block>)
    requires s.free >= |blocks|
    ensures InsertedTo(s, blocks, 0, s)
  {
  }

  lemma InsertedToEnd(s: State, blocks: seq<Block>, t: State)
    requires s.free >= |blocks| && InsertedTo(s, blocks, |blocks|, t)
    ensures t == InsertedAll(s, blocks) && StoresAll(s, blocks, t)
  {
    hide InsertedAll, StoresAll;
    assert blocks[..|blocks|] == blocks;
  }

  lemma InsertedOneMore(s: State, blocks: seq<Block>, i: nat, t: State)
    requires s.free >= |blocks| && i < |blocks| && InsertedTo(s, blocks, i, t)
    ensures t.free > 0 && InsertedTo(s, blocks, i + 1, Inserted(t, blocks[i]))
  {
    hide StoresAll, Inserted, InsertedAll;
    assert blocks[..i + 1] == blocks[..i] + [blocks[i]];
    InsertedNext(s, blocks[..i], blocks[i], t, blocks[..i + 1]);
  }

  lemma InsertedNext(s: State, blocks: seq<Block>, b: Block, t: State, all: seq<Block>)
    requires s.free >= |all| && all == blocks + [b] && t == InsertedAll(s, blocks) && StoresAll(s, blocks, t)
    ensures t.free > 0 && Inserted(t, b) == InsertedAll(s, all) && StoresAll(s, all, Inserted(t, b))
  {
    hide StoresAll, OnlyStores, Inserted, InsertedAll;
    InsertedAppend(s, blocks, b);
    InsertOnlyStores(t, b);
    StoresOneMore(s, blocks, t, b, Inserted(t, b));
  }

  lemma InsertedAppend(s: State, blocks: seq<Block>, b: Block)
    requires s.free > |blocks|
    ensures InsertedAll(s, blocks + [b]) == Inserted(InsertedAll(s, blocks), b)
  {
    assert (blocks + [b])[..|blocks|] == blocks;
  }

  ghost predicate IsNew(s: State, blocks: seq<Block>, i: nat)
    requires i < |blocks|
  {
    blocks[i].blockAdr !in s.used && forall j :: 0 <= j < i ==> blocks[j].blockAdr != blocks[i].blockAdr
  }

  lemma StoresOneMore(s: State, blocks: seq<Block>, t: State, b: Block, u: State)
    requires StoresAll(s, blocks, t) && OnlyStores(t, b, u)
    ensures StoresAll(s, blocks + [b], u)
  {
    var all := blocks + [b];
    assert all[|blocks|] == b;
    forall x | x in u.used && x !in s.used
      ensures exists i :: 0 <= i < |all| && all[i].blockAdr == x
    {
      if x in t.used {
        var i :| 0 <= i < |blocks| && blocks[i].blockAdr == x;
        assert all[i] == blocks[i];
      }
    }
    forall i | 0 <= i < |all| && IsNew(s, all, i)
      ensures all[i].blockAdr in u.used
      ensures u.used[all[i].blockAdr] == Block(all[i].blockAdr, all[i].data, all[i].status, s.lastAccess + i)
    {
      if i < |blocks| {
        assert all[i] == blocks[i] && forall j :: 0 <= j < i ==> all[j] == blocks[j];
        assert IsNew(s, blocks, i);
      } else {
        assert forall j :: 0 <= j < |blocks| ==> all[j] == blocks[j];
        assert b.blockAdr !in t.used;
      }
    }
  }

  lemma CleanInStep(used: Used, todo: set<LBA>, it: LBA)
    requires it in used && it !in todo
    ensures it !in CleanIn(used, used.Keys - (todo + {it}))
    ensures CleanIn(used, used.Keys - todo) ==
            CleanIn(used, used.Keys - (todo + {it})) + if used[it].status == Clean then {it} else {}
  {
  }

  lemma SomeNewest(used: Used, queue: set<LBA>)
    requires queue != {} && queue <= used.Keys
    ensures exists top :: top in queue && forall a :: a in queue ==> used[a].accessTime <= used[top].accessTime
  {
    var x :| x in queue;
    var rest := queue - {x};
    if rest == {} {
      assert queue == {x};
    } else {
      SomeNewest(used, rest);
      var t :| t in rest && forall a :: a in rest ==> used[a].accessTime <= used[t].accessTime;
      var top := if used[t].accessTime < used[x].accessTime then x else t;
      assert forall a :: a in queue ==> a == x || a in rest;
      assert top in queue && forall a :: a in queue ==> used[a].accessTime <= used[top].accessTime;
    }
  }

  lemma OneLess(used: Used, victims: set<LBA>, queue: set<LBA>, top: LBA)
    requires top in queue && queue <= victims
    ensures used - (victims - queue) - {top} == used - (victims - (queue - {top}))
    ensures |queue - {top}| == |queue| - 1
  {
  }

  lemma PushFirst(used: Used, seen: set<LBA>, k: nat, queue: set<LBA>, it: LBA)
    requires AreOldest(used, seen, k, queue) && it in used && it !in seen && |queue| < k
    ensures AreOldest(used, seen + {it}, k, queue + {it})
  {
    assert queue == seen by {
      if queue < seen { SmallerSet(queue, seen); }
    }
  }

  lemma ReplaceTop(used: Used, seen: set<LBA>, k: nat, queue: set<LBA>, top: LBA, it: LBA)
    requires AreOldest(used, seen, k, queue) && it in used && it !in seen && |queue| >= k
    requires top in queue && forall a :: a in queue ==> used[a].accessTime <= used[top].accessTime
    requires used[it].accessTime < used[top].accessTime
    ensures AreOldest(used, seen + {it}, k, queue - {top} + {it})
  {
  }

  lemma PassNewer(used: Used, seen: set<LBA>, k: nat, queue: set<LBA>, top: LBA, it: LBA)
    requires AreOldest(used, seen, k, queue) && it in used && it !in seen && |queue| >= k
    requires top in queue && forall a :: a in queue ==> used[a].accessTime <= used[top].accessTime
    requires used[it].accessTime >= used[top].accessTime
    ensures AreOldest(used, seen + {it}, k, queue)
  {
  }
}
