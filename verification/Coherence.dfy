/** The atomic coherence protocol of the snooping write-back caches, on values: what one access does to the
    caches and the memory, and what every access keeps. */
module Coherence {
  import opened Intervals

  type Addr = int

  /** The bytes of one block. */
  type Data = seq<int>

  /** The status bits and data of a valid block; a block that is not valid is not in its cache's map. */
  datatype Line = Line(readable: bool, writable: bool, dirty: bool, data: Data)

  type Lines = map<Addr, Line>

  /** Any number of caches on one bus in front of one memory. */
  datatype Machine = Machine(blkSize: nat, caches: seq<Lines>, memory: map<Addr, Data>)

  // ------------------------------------------------------------------ requests from the processor side

  /** A load, a store, or a swap that overwrites only if the bytes are as expected. */
  datatype Request =
    | Load(addr: Addr, off: nat, size: nat)
    | Store(addr: Addr, off: nat, bytes: Data)
    | Swap(addr: Addr, off: nat, bytes: Data, expected: Option<Data>)
  {
    function Size(): nat {
      if Load? then size else |bytes|
    }

    predicate NeedsExclusive() {
      !Load?
    }

    /** The request lies inside its block; swaps move at most eight bytes, conditional ones four or eight. */
    predicate Fits(blkSize: nat) {
      && off + Size() <= blkSize
      && (Swap? ==> |bytes| <= 8 && (expected.Some? ==> |bytes| in {4, 8} && |expected.value| == |bytes|))
    }
  }

  function Overwritten(d: Data, off: nat, bytes: Data): Data
    requires off + |bytes| <= |d|
  {
    d[..off] + bytes + d[off + |bytes|..]
  }

  predicate Overwrites(r: Request, d: Data)
    requires r.Fits(|d|)
  {
    r.Store? || (r.Swap? && (r.expected.None? || r.expected.value == d[r.off..r.off + |r.bytes|]))
  }

  /** The request on a flat block: what the block holds afterwards, and the bytes that come back. */
  function ApplyTo(r: Request, d: Data): (e: Data)
    requires r.Fits(|d|)
    ensures |e| == |d|
  {
    if Overwrites(r, d) then Overwritten(d, r.off, r.bytes) else d
  }

  function ResultOf(r: Request, d: Data): Data
    requires r.Fits(|d|)
  {
    if r.Store? then [] else d[r.off..r.off + r.Size()]
  }

  /** Whether the request writes, told from what it returned: a store does, and a swap that is unconditional or
      found the bytes it expects. */
  ghost predicate Writes(r: Request, result: Data) {
    r.Store? || (r.Swap? && (r.expected.None? || r.expected.value == result))
  }

  /** The request on block `d`, byte by byte: `e` is the block afterwards and `result` what comes back.  A
      load leaves the block and returns its bytes, a store puts its own bytes there, and a swap returns the old
      bytes and puts its own there exactly when it is unconditional or the old ones are the expected ones. */
  ghost predicate IsServed(r: Request, d: Data, e: Data, result: Data)
    requires r.Fits(|d|)
  {
    && |result| == (match r case Load(_, _, size) => size case Store(_, _, _) => 0 case Swap(_, _, bytes, _) => |bytes|)
    && (forall i :: 0 <= i < |result| ==> result[i] == d[r.off + i])
    && (if Writes(r, result) then HasBytes(e, d, r.off, r.bytes) else e == d)
  }

  /** Block `e` holds `bytes` from `off` on and the bytes of `d` everywhere else. */
  ghost predicate HasBytes(e: Data, d: Data, off: nat, bytes: Data)
    requires off + |bytes| <= |d|
  {
    && |e| == |d|
    && (forall i :: 0 <= i < |bytes| ==> e[off + i] == bytes[i])
    && (forall i :: 0 <= i < off || off + |bytes| <= i < |d| ==> e[i] == d[i])
  }

  /** The request on a cached block: its bytes, and dirty as well once something was written. */
  ghost predicate LineIsServed(r: Request, l: Line, after: Line, result: Data)
    requires r.Fits(|l.data|)
  {
    && IsServed(r, l.data, after.data, result)
    && after.readable == l.readable && after.writable == l.writable
    && (after.dirty <==> l.dirty || Writes(r, result))
  }

  lemma ServedByteForByte(r: Request, d: Data)
    requires r.Fits(|d|)
    ensures IsServed(r, d, ApplyTo(r, d), ResultOf(r, d))
  {
    assert r.Swap? ==> ResultOf(r, d) == d[r.off..r.off + |r.bytes|];
    assert Overwrites(r, d) <==> Writes(r, ResultOf(r, d));
    if Overwrites(r, d) {
      OverwrittenBytes(d, r.off, r.bytes);
    }
    hide Overwrites, Writes, Overwritten, HasBytes;
  }

  lemma OverwrittenBytes(d: Data, off: nat, bytes: Data)
    requires off + |bytes| <= |d|
    ensures HasBytes(Overwritten(d, off, bytes), d, off, bytes)
  {
  }

  // ------------------------------------------------------------------ one access

  datatype BusCmd = ReadShared | ReadExclusive | Upgrade

  predicate Hits(c: Lines, r: Request) {
    r.addr in c && if r.NeedsExclusive() then c[r.addr].writable else c[r.addr].readable
  }

  function CmdFor(c: Lines, r: Request): BusCmd {
    if r.addr in c then Upgrade else if r.NeedsExclusive() then ReadExclusive else ReadShared
  }

  /** What a snooped cache is left with: a read takes exclusivity away, the others invalidate. */
  function Snooped(c: Lines, a: Addr, cmd: BusCmd): Lines {
    if a !in c then c else if cmd == ReadShared then c[a := c[a].(writable := false)] else c - {a}
  }

  predicate OthersHave(m: Machine, src: nat, a: Addr) {
    exists k :: 0 <= k < |m.caches| && k != src && a in m.caches[k]
  }

  /** Another cache owns the block: it answers instead of the memory. */
  predicate IsOwner(m: Machine, src: nat, a: Addr, k: nat) {
    k < |m.caches| && k != src && a in m.caches[k] && m.caches[k][a].dirty
  }

  predicate OwnedElsewhere(m: Machine, src: nat, a: Addr) {
    exists k :: 0 <= k < |m.caches| && IsOwner(m, src, a, k)
  }

  ghost function Supplied(m: Machine, src: nat, a: Addr): Data
    requires a in m.memory
  {
    if OwnedElsewhere(m, src, a) then
      var k :| 0 <= k < |m.caches| && IsOwner(m, src, a, k);
      m.caches[k][a].data
    else
      m.memory[a]
  }

  /** The requester's block once the response has been filled in. */
  ghost function Filled(m: Machine, src: nat, a: Addr, cmd: BusCmd): Line
    requires src < |m.caches| && a in m.memory && (cmd == Upgrade ==> a in m.caches[src])
  {
    var shared := cmd == ReadShared && OthersHave(m, src, a);
    var owned := !shared && OwnedElsewhere(m, src, a);
    if cmd == Upgrade then
      m.caches[src][a].(readable := true, writable := true, dirty := m.caches[src][a].dirty || owned)
    else
      Line(true, !shared, owned, Supplied(m, src, a))
  }

  /** The block after the processor's request has been satisfied in it. */
  function Satisfied(l: Line, r: Request): Line
    requires r.Fits(|l.data|)
  {
    l.(dirty := l.dirty || Overwrites(r, l.data), data := ApplyTo(r, l.data))
  }

  lemma SatisfiedIsServed(l: Line, r: Request)
    requires r.Fits(|l.data|)
    ensures LineIsServed(r, l, Satisfied(l, r), ResultOf(r, l.data))
  {
    ServedByteForByte(r, l.data);
  }

  /** The requester's cache after making room: the victim is gone. */
  function Evicted(c: Lines, victim: Option<Addr>): Lines {
    if victim.Some? then c - {victim.value} else c
  }

  function WrittenBack(memory: map<Addr, Data>, c: Lines, victim: Option<Addr>): map<Addr, Data> {
    if victim.Some? && victim.value in c && c[victim.value].dirty
    then memory[victim.value := c[victim.value].data]
    else memory
  }

  /** A request the machine can be given: an existing cache and address, bytes inside the block, and a
      victim that is some other block of that cache. */
  predicate CanAccess(m: Machine, src: nat, r: Request, victim: Option<Addr>) {
    && src < |m.caches| && r.addr in m.memory && r.Fits(m.blkSize)
    && (victim.Some? ==> victim.value != r.addr && victim.value in m.caches[src])
  }

  /** The machine once cache `src` has fetched (or upgraded) block `a`; the victim made room for it. */
  ghost function Fetched(m: Machine, src: nat, a: Addr, cmd: BusCmd, victim: Option<Addr>): Machine
    requires src < |m.caches| && a in m.memory && (cmd == Upgrade ==> a in m.caches[src])
  {
    var others := seq(|m.caches|, k requires 0 <= k < |m.caches| => Snooped(m.caches[k], a, cmd));
    Machine(m.blkSize,
            others[src := Evicted(m.caches[src], victim)[a := Filled(m, src, a, cmd)]],
            WrittenBack(m.memory, m.caches[src], victim))
  }

  /** The machine after the request has been satisfied from the block in cache `src`. */
  ghost function SatisfiedAt(m: Machine, src: nat, r: Request): Machine
    requires src < |m.caches| && r.addr in m.caches[src] && r.Fits(|m.caches[src][r.addr].data|)
  {
    m.(caches := m.caches[src := m.caches[src][r.addr := Satisfied(m.caches[src][r.addr], r)]])
  }

  /** The machine in which the request can be satisfied: as it is on a hit, with the block fetched on a
      miss.  `victim` is only used when a new block comes in. */
  ghost function Ready(m: Machine, src: nat, r: Request, victim: Option<Addr>): (n: Machine)
    requires CanAccess(m, src, r, victim) && WellSized(m)
    ensures src < |n.caches| && r.addr in n.caches[src] && |n.caches[src][r.addr].data| == m.blkSize
  {
    var a, c := r.addr, m.caches[src];
    if Hits(c, r) then m
    else
      SuppliedIsSized(m, src, a);
      Fetched(m, src, a, CmdFor(c, r), if a in c then None else victim)
  }

  /** The machine after one access by cache `src`, and the bytes that go back to the processor. */
  ghost function Accessed(m: Machine, src: nat, r: Request, victim: Option<Addr>): Machine
    requires CanAccess(m, src, r, victim) && WellSized(m)
  {
    SatisfiedAt(Ready(m, src, r, victim), src, r)
  }

  ghost function AccessResult(m: Machine, src: nat, r: Request, victim: Option<Addr>): Data
    requires CanAccess(m, src, r, victim) && WellSized(m)
  {
    ResultOf(r, Ready(m, src, r, victim).caches[src][r.addr].data)
  }

  ghost predicate WellSized(m: Machine) {
    && (forall a :: a in m.memory ==> |m.memory[a]| == m.blkSize)
    && (forall k, a :: 0 <= k < |m.caches| && a in m.caches[k] ==> |m.caches[k][a].data| == m.blkSize)
  }

  lemma SuppliedIsSized(m: Machine, src: nat, a: Addr)
    requires WellSized(m) && a in m.memory
    ensures |Supplied(m, src, a)| == m.blkSize
  {
  }

  // ------------------------------------------------------------------ coherence

  /** The caches and the memory together stand for the flat memory `flat`. */
  ghost predicate Coherent(m: Machine, flat: map<Addr, Data>) {
    && WellSized(m)
    && m.memory.Keys == flat.Keys
    && CopiesAgree(m, flat)
    && ExclusiveIsAlone(m)
    && OneOwner(m)
    && MemoryIsCurrent(m, flat)
  }

  /** Every copy is readable and equal to the flat block. */
  ghost predicate CopiesAgree(m: Machine, flat: map<Addr, Data>) {
    forall k, a :: 0 <= k < |m.caches| && a in m.caches[k] ==>
      a in flat && m.caches[k][a].readable && m.caches[k][a].data == flat[a]
  }

  /** A writable copy is the only copy. */
  ghost predicate ExclusiveIsAlone(m: Machine) {
    forall j, k, a :: 0 <= j < |m.caches| && 0 <= k < |m.caches| && j != k && a in m.caches[j] && a in m.caches[k] ==>
      !m.caches[j][a].writable
  }

  /** At most one copy is dirty. */
  ghost predicate OneOwner(m: Machine) {
    forall j, k, a :: 0 <= j < |m.caches| && 0 <= k < |m.caches| && j != k && a in m.caches[j] && a in m.caches[k] ==>
      !(m.caches[j][a].dirty && m.caches[k][a].dirty)
  }

  predicate Unowned(m: Machine, a: Addr) {
    forall k :: 0 <= k < |m.caches| && a in m.caches[k] ==> !m.caches[k][a].dirty
  }

  /** Where no copy is dirty, the memory holds the flat block. */
  ghost predicate MemoryIsCurrent(m: Machine, flat: map<Addr, Data>) {
    forall a :: a in m.memory && a in flat && Unowned(m, a) ==> m.memory[a] == flat[a]
  }

  lemma SuppliedIsFlat(m: Machine, flat: map<Addr, Data>, src: nat, a: Addr)
    requires Coherent(m, flat) && a in m.memory && src < |m.caches| && a !in m.caches[src]
    ensures Supplied(m, src, a) == flat[a]
  {
    if !OwnedElsewhere(m, src, a) {
      forall k | 0 <= k < |m.caches| && a in m.caches[k]
        ensures !m.caches[k][a].dirty
      {
        assert !IsOwner(m, src, a, k);
      }
      assert Unowned(m, a);
    }
  }

  /** Satisfying a request in a block that allows it is the request on the flat block. */
  lemma SatisfyingKeepsCoherence(m: Machine, flat: map<Addr, Data>, src: nat, r: Request)
    requires Coherent(m, flat) && src < |m.caches| && r.Fits(m.blkSize) && Hits(m.caches[src], r)
    ensures r.addr in flat && |flat[r.addr]| == m.blkSize && m.caches[src][r.addr].data == flat[r.addr]
    ensures Coherent(SatisfiedAt(m, src, r), flat[r.addr := ApplyTo(r, flat[r.addr])])
  {
    var a := r.addr;
    var l := m.caches[src][a];
    var n, flat' := SatisfiedAt(m, src, r), flat[a := ApplyTo(r, flat[a])];
    if Overwrites(r, l.data) {
      assert |ApplyTo(r, l.data)| == m.blkSize && Satisfied(l, r) == Line(true, true, true, ApplyTo(r, l.data));
      hide Satisfied, ApplyTo, Overwrites, Overwritten;
      OwnerMayWrite(m, flat, src, a, ApplyTo(r, l.data));
    } else {
      assert Satisfied(l, r) == l && flat' == flat;
      assert m.caches[src][a := l] == m.caches[src];
      assert n.caches == m.caches;
    }
  }

  lemma WritableIsAlone(m: Machine, src: nat, a: Addr)
    requires ExclusiveIsAlone(m) && src < |m.caches| && a in m.caches[src]
    ensures m.caches[src][a].writable ==> forall k :: 0 <= k < |m.caches| && k != src ==> a !in m.caches[k]
  {
    forall k | 0 <= k < |m.caches| && k != src && a in m.caches[k]
      ensures !m.caches[src][a].writable
    {
    }
  }

  /** The holder of the only copy may change it, if it marks it dirty. */
  lemma OwnerMayWrite(m: Machine, flat: map<Addr, Data>, src: nat, a: Addr, d: Data)
    requires Coherent(m, flat) && src < |m.caches| && a in m.caches[src] && m.caches[src][a].writable
    requires |d| == m.blkSize
    ensures Coherent(m.(caches := m.caches[src := m.caches[src][a := Line(true, true, true, d)]]), flat[a := d])
  {
    var n, flat' := m.(caches := m.caches[src := m.caches[src][a := Line(true, true, true, d)]]), flat[a := d];
    WritableIsAlone(m, src, a);
    assert n.memory.Keys == flat'.Keys;
    assert forall k, x :: 0 <= k < |m.caches| && x != a ==> (x in n.caches[k] <==> x in m.caches[k]);
    assert forall k, x :: 0 <= k < |m.caches| && x != a && x in m.caches[k] ==> n.caches[k][x] == m.caches[k][x];
    assert forall k :: 0 <= k < |m.caches| && k != src ==> a !in n.caches[k];
    assert n.caches[src][a] == Line(true, true, true, d);
    forall x | x in n.memory && Unowned(n, x)
      ensures n.memory[x] == flat'[x]
    {
      assert a in n.caches[src] && n.caches[src][a].dirty;
      assert x != a;
      forall k | 0 <= k < |m.caches| && x in m.caches[k]
        ensures !m.caches[k][x].dirty
      {
        assert x in n.caches[k] && !n.caches[k][x].dirty;
      }
      assert Unowned(m, x);
    }
    forall k, x | 0 <= k < |n.caches| && x in n.caches[k]
      ensures |n.caches[k][x].data| == n.blkSize
      ensures x in flat' && n.caches[k][x].readable && n.caches[k][x].data == flat'[x]
    {
      assert x in m.caches[k];
    }
    assert WellSized(n) && CopiesAgree(n, flat');
    assert ExclusiveIsAlone(n);
    assert OneOwner(n);
    assert MemoryIsCurrent(n, flat');
  }

  // ------------------------------------------------------------------ fetching keeps coherence

  /** A fetch as the requester makes it: an upgrade for a block it has, a read for one it has not; the
      victim is another block, and only a new block needs one. */
  ghost predicate FetchFits(m: Machine, src: nat, a: Addr, cmd: BusCmd, victim: Option<Addr>) {
    && src < |m.caches| && a in m.memory
    && (cmd == Upgrade <==> a in m.caches[src])
    && (victim.Some? ==> victim.value in m.caches[src] && victim.value != a && a !in m.caches[src])
  }

  /** Where each copy of the fetched machine comes from. */
  lemma FetchedCopies(m: Machine, src: nat, a: Addr, cmd: BusCmd, victim: Option<Addr>, n: Machine)
    requires FetchFits(m, src, a, cmd, victim) && n == Fetched(m, src, a, cmd, victim)
    ensures |n.caches| == |m.caches|
    ensures n.caches[src] == Evicted(m.caches[src], victim)[a := Filled(m, src, a, cmd)]
    ensures forall k, x :: 0 <= k < |m.caches| && k != src && x != a ==>
              (x in n.caches[k] <==> x in m.caches[k]) && (x in m.caches[k] ==> n.caches[k][x] == m.caches[k][x])
    ensures forall x :: x != a ==> (x in n.caches[src] <==> x in m.caches[src] && victim != Some(x))
    ensures forall x :: x != a && x in n.caches[src] ==> n.caches[src][x] == m.caches[src][x]
    ensures forall k :: 0 <= k < |m.caches| && k != src ==>
              (a in n.caches[k] <==> a in m.caches[k] && cmd == ReadShared)
    ensures forall k :: 0 <= k < |m.caches| && k != src && a in n.caches[k] ==>
              n.caches[k][a] == m.caches[k][a].(writable := false)
  {
    hide Filled;
  }

  lemma FilledLine(m: Machine, flat: map<Addr, Data>, src: nat, a: Addr, cmd: BusCmd, victim: Option<Addr>)
    requires Coherent(m, flat) && FetchFits(m, src, a, cmd, victim)
    ensures var l := Filled(m, src, a, cmd);
            && l.readable && a in flat && l.data == flat[a] && |l.data| == m.blkSize
            && (l.writable <==> cmd == ReadShared ==> !OthersHave(m, src, a))
            && (l.dirty ==> cmd != ReadShared)
            && (!l.dirty && cmd != ReadShared ==> Unowned(m, a))
  {
    hide ExclusiveIsAlone, OneOwner;
    if cmd != Upgrade {
      SuppliedIsFlat(m, flat, src, a);
    }
    forall k | 0 <= k < |m.caches| && a in m.caches[k] && k != src && m.caches[k][a].dirty
      ensures OwnedElsewhere(m, src, a)
    {
      assert IsOwner(m, src, a, k);
    }
    if OwnedElsewhere(m, src, a) {
      var k :| 0 <= k < |m.caches| && IsOwner(m, src, a, k);
      assert OthersHave(m, src, a);
    }
    var l := Filled(m, src, a, cmd);
    if !l.dirty && cmd != ReadShared {
      forall k | 0 <= k < |m.caches| && a in m.caches[k]
        ensures !m.caches[k][a].dirty
      {
        assert k != src ==> !IsOwner(m, src, a, k);
      }
      assert Unowned(m, a);
    }
  }

  lemma FetchedCopyAgrees(m: Machine, flat: map<Addr, Data>, src: nat, a: Addr, cmd: BusCmd, victim: Option<Addr>,
                          n: Machine, k: nat, x: Addr)
    requires Coherent(m, flat) && FetchFits(m, src, a, cmd, victim) && n == Fetched(m, src, a, cmd, victim)
    requires k < |n.caches| && x in n.caches[k]
    ensures |n.caches[k][x].data| == m.blkSize && x in flat && n.caches[k][x].readable && n.caches[k][x].data == flat[x]
  {
    FetchedCopies(m, src, a, cmd, victim, n);
    if k == src && x == a {
      FilledLine(m, flat, src, a, cmd, victim);
    } else {
      hide Fetched, ExclusiveIsAlone, OneOwner, MemoryIsCurrent;
      assert x in m.caches[k];
    }
  }

  lemma FetchKeepsCopies(m: Machine, flat: map<Addr, Data>, src: nat, a: Addr, cmd: BusCmd, victim: Option<Addr>)
    requires Coherent(m, flat) && FetchFits(m, src, a, cmd, victim)
    ensures WellSized(Fetched(m, src, a, cmd, victim)) && CopiesAgree(Fetched(m, src, a, cmd, victim), flat)
  {
    var n := Fetched(m, src, a, cmd, victim);
    assert n.blkSize == m.blkSize;
    assert forall x :: x in n.memory ==> |n.memory[x]| == n.blkSize;
    hide *;
    forall k, x | 0 <= k < |n.caches| && x in n.caches[k]
      ensures |n.caches[k][x].data| == n.blkSize
      ensures x in flat && n.caches[k][x].readable && n.caches[k][x].data == flat[x]
    {
      FetchedCopyAgrees(m, flat, src, a, cmd, victim, n, k, x);
    }
    CopyByCopy(n, flat);
  }

  lemma CopyByCopy(n: Machine, flat: map<Addr, Data>)
    requires forall x :: x in n.memory ==> |n.memory[x]| == n.blkSize
    requires forall k, x :: 0 <= k < |n.caches| && x in n.caches[k] ==>
               && |n.caches[k][x].data| == n.blkSize
               && x in flat && n.caches[k][x].readable && n.caches[k][x].data == flat[x]
    ensures WellSized(n) && CopiesAgree(n, flat)
  {
  }

  lemma FetchKeepsExclusion(m: Machine, flat: map<Addr, Data>, src: nat, a: Addr, cmd: BusCmd, victim: Option<Addr>)
    requires Coherent(m, flat) && FetchFits(m, src, a, cmd, victim)
    ensures ExclusiveIsAlone(Fetched(m, src, a, cmd, victim)) && OneOwner(Fetched(m, src, a, cmd, victim))
  {
    var n := Fetched(m, src, a, cmd, victim);
    FetchedCopies(m, src, a, cmd, victim, n);
    FilledLine(m, flat, src, a, cmd, victim);
    hide Fetched, Filled, WellSized, CopiesAgree, MemoryIsCurrent;
  }

  lemma FetchKeepsMemory(m: Machine, flat: map<Addr, Data>, src: nat, a: Addr, cmd: BusCmd, victim: Option<Addr>)
    requires Coherent(m, flat) && FetchFits(m, src, a, cmd, victim)
    ensures Fetched(m, src, a, cmd, victim).memory.Keys == flat.Keys
    ensures MemoryIsCurrent(Fetched(m, src, a, cmd, victim), flat)
  {
    var n := Fetched(m, src, a, cmd, victim);
    FetchedCopies(m, src, a, cmd, victim, n);
    FilledLine(m, flat, src, a, cmd, victim);
    assert n.memory == WrittenBack(m.memory, m.caches[src], victim);
    assert victim.Some? ==> victim.value in flat && m.caches[src][victim.value].data == flat[victim.value];
    hide Fetched, Filled, WellSized, CopiesAgree, ExclusiveIsAlone, OneOwner;
    forall x | x in n.memory && Unowned(n, x)
      ensures n.memory[x] == flat[x]
    {
      if !(victim == Some(x) && m.caches[src][x].dirty) {
        if x == a {
          assert a in n.caches[src] && !n.caches[src][a].dirty;
        }
        forall k | 0 <= k < |m.caches| && x in m.caches[k]
          ensures (x == a && cmd != ReadShared) || !m.caches[k][x].dirty
        {
          if k != src {
            assert x in n.caches[k] ==> !n.caches[k][x].dirty;
          } else if x in n.caches[src] {
            assert !n.caches[src][x].dirty;
          }
        }
        assert Unowned(m, x);
      }
    }
  }

  lemma FetchKeepsCoherence(m: Machine, flat: map<Addr, Data>, src: nat, a: Addr, cmd: BusCmd, victim: Option<Addr>)
    requires Coherent(m, flat) && FetchFits(m, src, a, cmd, victim)
    ensures Coherent(Fetched(m, src, a, cmd, victim), flat)
    ensures var n := Fetched(m, src, a, cmd, victim);
            src < |n.caches| && a in n.caches[src] && n.caches[src][a].readable && n.blkSize == m.blkSize
            && (cmd != ReadShared ==> n.caches[src][a].writable)
  {
    FetchKeepsCopies(m, flat, src, a, cmd, victim);
    FetchKeepsExclusion(m, flat, src, a, cmd, victim);
    FetchKeepsMemory(m, flat, src, a, cmd, victim);
    FilledLine(m, flat, src, a, cmd, victim);
    FetchedCopies(m, src, a, cmd, victim, Fetched(m, src, a, cmd, victim));
    hide Filled, WellSized, CopiesAgree, ExclusiveIsAlone, OneOwner, MemoryIsCurrent;
  }

  /** One access is the request on flat memory: same bytes back, and still coherent afterwards. */
  lemma AccessRefinesFlat(m: Machine, flat: map<Addr, Data>, src: nat, r: Request, victim: Option<Addr>)
    requires Coherent(m, flat) && CanAccess(m, src, r, victim)
    ensures r.addr in flat && |flat[r.addr]| == m.blkSize
    ensures Coherent(Accessed(m, src, r, victim), flat[r.addr := ApplyTo(r, flat[r.addr])])
    ensures AccessResult(m, src, r, victim) == ResultOf(r, flat[r.addr])
  {
    var c := m.caches[src];
    var n := Ready(m, src, r, victim);
    if !Hits(c, r) {
      assert r.addr in c ==> c[r.addr].readable;
      FetchKeepsCoherence(m, flat, src, r.addr, CmdFor(c, r), if r.addr in c then None else victim);
    }
    hide Ready, Fetched, WellSized, CopiesAgree, ExclusiveIsAlone, OneOwner, MemoryIsCurrent;
    SatisfyingKeepsCoherence(n, flat, src, r);
  }

  // ------------------------------------------------------------------ what one access leaves where

  /** What cache `src` getting block `a` leaves in the other caches: nothing of any other block changes; a
      load takes exclusivity away and leaves every copy, a store or swap leaves no copy. */
  ghost predicate OthersGiveWay(before: seq<Lines>, after: seq<Lines>, src: nat, r: Request) {
    && |after| == |before|
    && forall k :: 0 <= k < |before| && k != src ==>
         && (forall x :: x != r.addr ==> (x in after[k] <==> x in before[k]))
         && (forall x :: x != r.addr && x in after[k] && x in before[k] ==> after[k][x] == before[k][x])
         && (r.Load? ==> (r.addr in after[k] <==> r.addr in before[k]))
         && (r.Load? && r.addr in after[k] && r.addr in before[k] ==>
               after[k][r.addr] == before[k][r.addr].(writable := false))
         && (!r.Load? ==> r.addr !in after[k])
  }

  /** The blocks of the requester besides the one asked for: a block that comes in takes the victim's place. */
  ghost predicate MakesRoom(c: Lines, d: Lines, a: Addr, victim: Option<Addr>) {
    && a in d
    && (forall x :: x != a ==> (x in d <==> x in c && (a in c || victim != Some(x))))
    && (forall x :: x != a && x in d && x in c ==> d[x] == c[x])
  }

  /** A block that a miss brings in or upgrades is writable unless a load finds a copy in another cache. */
  ghost predicate BecomesWritable(before: seq<Lines>, src: nat, r: Request) {
    r.Load? ==> forall k :: 0 <= k < |before| && k != src ==> r.addr !in before[k]
  }

  /** It is dirty if it was, or if a dirty copy in another cache had to go. */
  ghost predicate BecomesOwner(before: seq<Lines>, src: nat, r: Request)
    requires src < |before|
  {
    var a := r.addr;
    || (a in before[src] && before[src][a].dirty)
    || (!r.Load? && exists k :: 0 <= k < |before| && k != src && a in before[k] && before[k][a].dirty)
  }

  /** A miss of a block whose data is `d`, before the request is satisfied. */
  ghost predicate Brought(before: seq<Lines>, after: seq<Lines>, src: nat, r: Request, victim: Option<Addr>,
                          d: Data) {
    && src < |before| && OthersGiveWay(before, after, src, r)
    && MakesRoom(before[src], after[src], r.addr, victim)
    && var l := after[src][r.addr];
       && l.data == d && l.readable && (l.writable <==> BecomesWritable(before, src, r))
       && (l.dirty <==> BecomesOwner(before, src, r))
  }

  /** The memory takes the data of a dirty victim and nothing else. */
  ghost predicate TakesVictim(memory: map<Addr, Data>, after: map<Addr, Data>, c: Lines, a: Addr,
                              victim: Option<Addr>) {
    && after.Keys == memory.Keys
    && forall x :: x in memory && x in after ==>
         after[x] == if a !in c && victim == Some(x) && x in c && c[x].dirty then c[x].data else memory[x]
  }

  /** One access, the block holding `d` for all caches before it: on a hit only the requester's block changes;
      on a miss the block is brought in, and then the request is satisfied in it. */
  ghost predicate IsAccess(m: Machine, n: Machine, src: nat, r: Request, victim: Option<Addr>, d: Data,
                           result: Data)
    requires src < |m.caches| && r.Fits(|d|)
  {
    var a, c := r.addr, m.caches[src];
    && n.blkSize == m.blkSize && |n.caches| == |m.caches|
    && TakesVictim(m.memory, n.memory, c, a, victim)
    && MakesRoom(c, n.caches[src], a, victim)
    && var l := n.caches[src][a];
    && IsServed(r, d, l.data, result)
    && if a in c && (r.Load? || c[a].writable) then
         && (forall k :: 0 <= k < |m.caches| && k != src ==> n.caches[k] == m.caches[k])
         && l.readable == c[a].readable && l.writable == c[a].writable
         && (l.dirty <==> c[a].dirty || Writes(r, result))
       else
         && OthersGiveWay(m.caches, n.caches, src, r)
         && l.readable && (l.writable <==> BecomesWritable(m.caches, src, r))
         && (l.dirty <==> BecomesOwner(m.caches, src, r) || Writes(r, result))
  }

  lemma FilledStatus(m: Machine, src: nat, r: Request)
    requires src < |m.caches| && r.addr in m.memory
    requires r.addr in m.caches[src] ==> m.caches[src][r.addr].readable && !r.Load?
    ensures var l := Filled(m, src, r.addr, CmdFor(m.caches[src], r));
            && l.readable && (l.writable <==> BecomesWritable(m.caches, src, r))
            && (l.dirty <==> BecomesOwner(m.caches, src, r))
  {
    forall k | 0 <= k < |m.caches|
      ensures IsOwner(m, src, r.addr, k) <==> k != src && r.addr in m.caches[k] && m.caches[k][r.addr].dirty
    {
    }
  }

  lemma OthersFetched(m: Machine, src: nat, r: Request, cmd: BusCmd, room: Option<Addr>, n: Machine)
    requires FetchFits(m, src, r.addr, cmd, room) && n == Fetched(m, src, r.addr, cmd, room)
    requires cmd == ReadShared <==> r.Load?
    ensures OthersGiveWay(m.caches, n.caches, src, r)
  {
    FetchedCopies(m, src, r.addr, cmd, room, n);
    hide Fetched, FetchFits;
  }

  lemma RoomFetched(m: Machine, src: nat, a: Addr, cmd: BusCmd, victim: Option<Addr>, n: Machine)
    requires var room := if src < |m.caches| && a in m.caches[src] then None else victim;
             FetchFits(m, src, a, cmd, room) && n == Fetched(m, src, a, cmd, room)
    requires victim.Some? ==> victim.value in m.caches[src] && victim.value in m.memory
    ensures MakesRoom(m.caches[src], n.caches[src], a, victim)
    ensures TakesVictim(m.memory, n.memory, m.caches[src], a, victim)
  {
    var c := m.caches[src];
    var room := if a in c then None else victim;
    FetchedCopies(m, src, a, cmd, room, n);
    assert n.memory == WrittenBack(m.memory, c, room);
    hide Fetched, FetchFits, Filled, Evicted;
  }

  /** What a miss does to the caches, said without the snoops and the fill. */
  lemma FetchBrings(m: Machine, flat: map<Addr, Data>, src: nat, r: Request, victim: Option<Addr>)
    requires Coherent(m, flat) && CanAccess(m, src, r, victim) && !Hits(m.caches[src], r)
    ensures var n := Ready(m, src, r, victim);
            && r.addr in flat && Brought(m.caches, n.caches, src, r, victim, flat[r.addr])
            && TakesVictim(m.memory, n.memory, m.caches[src], r.addr, victim) && n.blkSize == m.blkSize
  {
    var a, c := r.addr, m.caches[src];
    var cmd, room := CmdFor(c, r), if r.addr in c then None else victim;
    var n := Ready(m, src, r, victim);
    assert a in c ==> c[a].readable;
    assert FetchFits(m, src, a, cmd, room) && n == Fetched(m, src, a, cmd, room);
    assert n.caches[src][a] == Filled(m, src, a, cmd);
    assert victim.Some? ==> victim.value in m.memory;
    assert cmd == ReadShared <==> r.Load?;
    hide *;
    FilledLine(m, flat, src, a, cmd, room);
    FilledStatus(m, src, r);
    OthersFetched(m, src, r, cmd, room, n);
    RoomFetched(m, src, a, cmd, victim, n);
    BroughtInParts(m, n, src, r, victim);
  }

  lemma BroughtInParts(m: Machine, n: Machine, src: nat, r: Request, victim: Option<Addr>)
    requires src < |m.caches| && OthersGiveWay(m.caches, n.caches, src, r)
    requires MakesRoom(m.caches[src], n.caches[src], r.addr, victim)
    requires var l := n.caches[src][r.addr];
             && l.readable && (l.writable <==> BecomesWritable(m.caches, src, r))
             && (l.dirty <==> BecomesOwner(m.caches, src, r))
    ensures Brought(m.caches, n.caches, src, r, victim, n.caches[src][r.addr].data)
  {
    hide BecomesWritable, BecomesOwner;
  }

  /** What an access leaves where, said without the steps of the protocol. */
  lemma AccessLeaves(m: Machine, flat: map<Addr, Data>, src: nat, r: Request, victim: Option<Addr>)
    requires Coherent(m, flat) && CanAccess(m, src, r, victim)
    ensures r.addr in flat && |flat[r.addr]| == m.blkSize
    ensures IsAccess(m, Accessed(m, src, r, victim), src, r, victim, flat[r.addr], AccessResult(m, src, r, victim))
  {
    var c, n := m.caches[src], Ready(m, src, r, victim);
    assert r.addr in c ==> c[r.addr].readable;
    assert Hits(c, r) <==> r.addr in c && (r.Load? || c[r.addr].writable);
    SatisfiedIsServed(n.caches[src][r.addr], r);
    assert Accessed(m, src, r, victim) == SatisfiedAt(n, src, r);
    if Hits(c, r) {
      hide Coherent, WellSized, Satisfied, ResultOf, IsServed, Writes;
    } else {
      FetchBrings(m, flat, src, r, victim);
      assert |n.caches| == |m.caches|;
      SatisfyingBrought(m, n, flat, src, r, victim);
    }
  }

  lemma SatisfyingBrought(m: Machine, n: Machine, flat: map<Addr, Data>, src: nat, r: Request, victim: Option<Addr>)
    requires src < |m.caches| == |n.caches| && n.blkSize == m.blkSize
    requires r.addr in flat && Brought(m.caches, n.caches, src, r, victim, flat[r.addr])
    requires TakesVictim(m.memory, n.memory, m.caches[src], r.addr, victim)
    requires r.Fits(|flat[r.addr]|)
    requires !(r.addr in m.caches[src] && (r.Load? || m.caches[src][r.addr].writable))
    ensures IsAccess(m, SatisfiedAt(n, src, r), src, r, victim, flat[r.addr],
                     ResultOf(r, n.caches[src][r.addr].data))
  {
    var l := n.caches[src][r.addr];
    SatisfiedIsServed(l, r);
    var o := SatisfiedAt(n, src, r);
    assert o.caches[src] == n.caches[src][r.addr := Satisfied(l, r)];
    assert OthersGiveWay(m.caches, o.caches, src, r);
    assert MakesRoom(m.caches[src], o.caches[src], r.addr, victim);
    hide Satisfied, ResultOf, IsServed, Writes, BecomesWritable, BecomesOwner, TakesVictim, OthersGiveWay, MakesRoom;
  }

  // ------------------------------------------------------------------ flushing

  function Cleaned(c: Lines): Lines {
    map a | a in c :: c[a].(dirty := false)
  }

  /** `memWriteback` of one cache: every dirty block goes to memory and stays, clean. */
  function Flushed(m: Machine, c: nat): Machine
    requires c < |m.caches|
  {
    Machine(m.blkSize, m.caches[c := Cleaned(m.caches[c])],
            map a | a in m.memory ::
              if a in m.caches[c] && m.caches[c][a].dirty then m.caches[c][a].data else m.memory[a])
  }

  /** `memInvalidate` of one cache. */
  function Emptied(m: Machine, c: nat): Machine
    requires c < |m.caches|
  {
    m.(caches := m.caches[c := map[]])
  }

  predicate IsClean(c: Lines) {
    forall a :: a in c ==> !c[a].dirty
  }

  lemma FlushKeepsCoherence(m: Machine, flat: map<Addr, Data>, c: nat)
    requires Coherent(m, flat) && c < |m.caches|
    ensures Coherent(Flushed(m, c), flat) && IsClean(Flushed(m, c).caches[c])
  {
    var n := Flushed(m, c);
    assert forall k :: 0 <= k < |m.caches| && k != c ==> n.caches[k] == m.caches[k];
    forall x | x in n.memory && Unowned(n, x)
      ensures n.memory[x] == flat[x]
    {
      if !(x in m.caches[c] && m.caches[c][x].dirty) {
        forall k | 0 <= k < |m.caches| && x in m.caches[k]
          ensures !m.caches[k][x].dirty
        {
          assert k != c ==> x in n.caches[k] && !n.caches[k][x].dirty;
        }
        assert Unowned(m, x);
      }
    }
    assert n.memory.Keys == flat.Keys;
    assert MemoryIsCurrent(n, flat);
    FlushedCopies(m, flat, c);
    hide Flushed, WellSized, CopiesAgree, ExclusiveIsAlone, OneOwner, MemoryIsCurrent;
  }

  lemma FlushedCopies(m: Machine, flat: map<Addr, Data>, c: nat)
    requires Coherent(m, flat) && c < |m.caches|
    ensures WellSized(Flushed(m, c)) && CopiesAgree(Flushed(m, c), flat)
    ensures ExclusiveIsAlone(Flushed(m, c)) && OneOwner(Flushed(m, c)) && IsClean(Flushed(m, c).caches[c])
  {
    var n := Flushed(m, c);
    forall k, x | 0 <= k < |n.caches| && x in n.caches[k]
      ensures x in m.caches[k] && n.caches[k][x] == m.caches[k][x].(dirty := n.caches[k][x].dirty)
      ensures n.caches[k][x].dirty ==> m.caches[k][x].dirty && k != c
    {
    }
    assert forall x :: x in n.memory ==> x in m.memory && |n.memory[x]| == m.blkSize;
    hide Flushed;
    CopyByCopy(n, flat);
  }

  /** Invalidating a cache keeps coherence exactly when the cache holds nothing that only it knows: with a
      dirty block whose data differs from memory, the flat block is lost. */
  lemma EmptyKeepsCoherenceIff(m: Machine, flat: map<Addr, Data>, c: nat)
    requires Coherent(m, flat) && c < |m.caches|
    ensures Coherent(Emptied(m, c), flat) <==>
            forall a :: a in m.caches[c] && m.caches[c][a].dirty ==> m.memory[a] == m.caches[c][a].data
  {
    var n := Emptied(m, c);
    assert forall k :: 0 <= k < |m.caches| && k != c ==> n.caches[k] == m.caches[k];
    forall x | x in n.memory && Unowned(n, x)
      ensures (x in m.caches[c] && m.caches[c][x].dirty) || m.memory[x] == flat[x]
    {
      if !(x in m.caches[c] && m.caches[c][x].dirty) {
        forall k | 0 <= k < |m.caches| && x in m.caches[k]
          ensures !m.caches[k][x].dirty
        {
          assert k != c ==> x in n.caches[k] && !n.caches[k][x].dirty;
        }
        assert Unowned(m, x);
      }
    }
    forall x | x in m.caches[c] && m.caches[c][x].dirty
      ensures Unowned(n, x) && m.caches[c][x].data == flat[x]
    {
    }
    assert n.memory.Keys == flat.Keys && WellSized(n) && CopiesAgree(n, flat) && ExclusiveIsAlone(n) && OneOwner(n);
  }

  // ------------------------------------------------------------------ runs

  datatype Event =
    | Access(src: nat, req: Request, victim: Option<Addr>)
    | MemWriteback(cache: nat)
    | MemInvalidate(cache: nat)

  /** What may happen next.  Invalidation asserts that nothing is dirty. */
  predicate Possible(m: Machine, e: Event) {
    match e
    case Access(src, r, victim) => CanAccess(m, src, r, victim)
    case MemWriteback(c) => c < |m.caches|
    case MemInvalidate(c) => c < |m.caches| && IsClean(m.caches[c])
  }

  ghost function After(m: Machine, e: Event): Machine
    requires WellSized(m) && Possible(m, e)
  {
    match e
    case Access(src, r, victim) => Accessed(m, src, r, victim)
    case MemWriteback(c) => Flushed(m, c)
    case MemInvalidate(c) => Emptied(m, c)
  }

  ghost function Returned(m: Machine, e: Event): seq<Data>
    requires WellSized(m) && Possible(m, e)
  {
    match e
    case Access(src, r, victim) => [AccessResult(m, src, r, victim)]
    case MemWriteback(_) => []
    case MemInvalidate(_) => []
  }

  /** The same event on flat memory: only accesses do anything. */
  predicate PossibleFlat(blkSize: nat, flat: map<Addr, Data>, e: Event) {
    e.Access? ==> e.req.addr in flat && |flat[e.req.addr]| == blkSize && e.req.Fits(blkSize)
  }

  function AfterFlat(blkSize: nat, flat: map<Addr, Data>, e: Event): (after: map<Addr, Data>)
    requires PossibleFlat(blkSize, flat, e)
    ensures after.Keys == flat.Keys && forall a :: a in flat ==> |after[a]| == |flat[a]|
  {
    if e.Access? then flat[e.req.addr := ApplyTo(e.req, flat[e.req.addr])] else flat
  }

  function ReturnedFlat(blkSize: nat, flat: map<Addr, Data>, e: Event): seq<Data>
    requires PossibleFlat(blkSize, flat, e)
  {
    if e.Access? then [ResultOf(e.req, flat[e.req.addr])] else []
  }

  lemma EventRefinesFlat(m: Machine, flat: map<Addr, Data>, e: Event)
    requires Coherent(m, flat) && Possible(m, e)
    ensures PossibleFlat(m.blkSize, flat, e)
    ensures Coherent(After(m, e), AfterFlat(m.blkSize, flat, e))
    ensures Returned(m, e) == ReturnedFlat(m.blkSize, flat, e)
    ensures After(m, e).blkSize == m.blkSize
  {
    match e
    case Access(src, r, victim) =>
      AccessRefinesFlat(m, flat, src, r, victim);
    case MemWriteback(c) =>
      FlushKeepsCoherence(m, flat, c);
    case MemInvalidate(c) =>
      EmptyKeepsCoherenceIff(m, flat, c);
  }

  /** A run of the machine beside a run of flat memory: `machines` and `flats` hold the states before and
      after every event. */
  ghost predicate IsRun(es: seq<Event>, machines: seq<Machine>) {
    && |machines| == |es| + 1
    && (forall n :: 0 <= n < |es| ==>
          WellSized(machines[n]) && Possible(machines[n], es[n]) && machines[n + 1] == After(machines[n], es[n]))
  }

  ghost predicate IsFlatRun(blkSize: nat, es: seq<Event>, flats: seq<map<Addr, Data>>) {
    && |flats| == |es| + 1
    && (forall n :: 0 <= n < |es| ==>
          PossibleFlat(blkSize, flats[n], es[n]) && flats[n + 1] == AfterFlat(blkSize, flats[n], es[n]))
  }

  /** All runs: whatever the events, whatever the victims, every state stays coherent with flat memory and
      every access returns what flat memory returns, in particular the last value written. */
  lemma {:induction false} RunsRefineFlat(es: seq<Event>, machines: seq<Machine>, flat: map<Addr, Data>)
      returns (flats: seq<map<Addr, Data>>)
    requires IsRun(es, machines) && Coherent(machines[0], flat)
    ensures IsFlatRun(machines[0].blkSize, es, flats) && flats[0] == flat
    ensures forall n :: 0 <= n <= |es| ==> Coherent(machines[n], flats[n]) && machines[n].blkSize == machines[0].blkSize
    ensures forall n :: 0 <= n < |es| ==>
              Returned(machines[n], es[n]) == ReturnedFlat(machines[0].blkSize, flats[n], es[n])
  {
    flats := [flat];
    hide Coherent, WellSized, After, AfterFlat, Returned, ReturnedFlat, Possible, PossibleFlat;
    for n := 0 to |es|
      invariant |flats| == n + 1 && flats[0] == flat && machines[n].blkSize == machines[0].blkSize
      invariant forall k :: 0 <= k <= n ==>
        Coherent(machines[k], flats[k]) && machines[k].blkSize == machines[0].blkSize
      invariant forall k :: 0 <= k < n ==>
        && PossibleFlat(machines[0].blkSize, flats[k], es[k])
        && flats[k + 1] == AfterFlat(machines[0].blkSize, flats[k], es[k])
        && WellSized(machines[k]) && Possible(machines[k], es[k])
        && Returned(machines[k], es[k]) == ReturnedFlat(machines[0].blkSize, flats[k], es[k])
    {
      EventRefinesFlat(machines[n], flats[n], es[n]);
      flats := flats + [AfterFlat(machines[0].blkSize, flats[n], es[n])];
    }
  }

  // ------------------------------------------------------------------ the last value written

  /** Event `e` writes byte `p` of block `a`: a store there, or a swap there that is unconditional or returns
      the bytes it expects. */
  ghost predicate WritesByte(m: Machine, e: Event, a: Addr, p: nat)
    requires WellSized(m) && Possible(m, e)
  {
    && e.Access? && e.req.addr == a && !e.req.Load?
    && e.req.off <= p < e.req.off + |e.req.bytes|
    && (e.req.Swap? && e.req.expected.Some? ==> Returned(m, e) == [e.req.expected.value])
  }

  ghost predicate NoWrite(es: seq<Event>, machines: seq<Machine>, a: Addr, p: nat, lo: nat, hi: nat)
    requires IsRun(es, machines) && lo <= hi <= |es|
  {
    forall k :: lo <= k < hi ==> !WritesByte(machines[k], es[k], a, p)
  }

  /** One event on one byte of flat memory. */
  lemma ByteStep(m: Machine, flat: map<Addr, Data>, e: Event, after: map<Addr, Data>, a: Addr, p: nat)
    requires StepBeside(m, flat, e, after) && a in flat && p < |flat[a]|
    ensures && a in after && |after[a]| == |flat[a]|
            && after[a][p] == if WritesByte(m, e, a, p) then e.req.bytes[p - e.req.off] else flat[a][p]
  {
    hide Coherent, WellSized, Returned;
    if e.Access? && e.req.addr == a {
      ServedByteForByte(e.req, flat[a]);
      hide ApplyTo, ResultOf;
      if !e.req.Load? && e.req.off <= p < e.req.off + |e.req.bytes| {
        var i := p - e.req.off;
        assert p == e.req.off + i;
      }
    }
  }

  /** A run of the machine and the run of flat memory beside it. */
  ghost predicate RunBeside(es: seq<Event>, machines: seq<Machine>, flats: seq<map<Addr, Data>>) {
    && IsRun(es, machines) && |flats| == |machines|
    && forall n :: 0 <= n < |es| ==> StepBeside(machines[n], flats[n], es[n], flats[n + 1])
  }

  ghost predicate StepBeside(m: Machine, flat: map<Addr, Data>, e: Event, after: map<Addr, Data>) {
    && Coherent(m, flat) && Possible(m, e) && PossibleFlat(m.blkSize, flat, e)
    && after == AfterFlat(m.blkSize, flat, e) && Returned(m, e) == ReturnedFlat(m.blkSize, flat, e)
  }

  lemma {:induction false} ByteKept(es: seq<Event>, machines: seq<Machine>, flats: seq<map<Addr, Data>>,
                                    a: Addr, p: nat, lo: nat, hi: nat)
    requires RunBeside(es, machines, flats) && lo <= hi <= |es|
    requires a in flats[lo] && p < |flats[lo][a]| && NoWrite(es, machines, a, p, lo, hi)
    ensures a in flats[hi] && |flats[hi][a]| == |flats[lo][a]| && flats[hi][a][p] == flats[lo][a][p]
    decreases hi
  {
    if lo < hi {
      ByteKept(es, machines, flats, a, p, lo, hi - 1);
      hide Coherent, WellSized, IsRun, StepBeside, WritesByte;
      ByteStep(machines[hi - 1], flats[hi - 1], es[hi - 1], flats[hi], a, p);
    }
  }

  lemma RefinedBeside(es: seq<Event>, machines: seq<Machine>, flat: map<Addr, Data>)
      returns (flats: seq<map<Addr, Data>>)
    requires IsRun(es, machines) && Coherent(machines[0], flat)
    ensures RunBeside(es, machines, flats) && flats[0] == flat
  {
    hide Coherent, WellSized, Possible, PossibleFlat, AfterFlat, Returned, ReturnedFlat, After;
    flats := RunsRefineFlat(es, machines, flat);
  }

  lemma ByteRead(m: Machine, flat: map<Addr, Data>, e: Event, after: map<Addr, Data>, i: nat)
    requires StepBeside(m, flat, e, after) && e.Access? && !e.req.Store? && i < e.req.Size()
    ensures var r := e.req;
            && |Returned(m, e)| == 1 && |Returned(m, e)[0]| == r.Size()
            && r.addr in flat && r.off + i < |flat[r.addr]|
            && Returned(m, e)[0][i] == flat[r.addr][r.off + i]
  {
    ServedByteForByte(e.req, flat[e.req.addr]);
    hide Coherent, WellSized, Returned, ResultOf, ApplyTo;
  }

  lemma ByteWritten(m: Machine, flat: map<Addr, Data>, e: Event, after: map<Addr, Data>, a: Addr, p: nat)
    requires StepBeside(m, flat, e, after) && WritesByte(m, e, a, p)
    ensures a in after && p < |after[a]| && after[a][p] == e.req.bytes[p - e.req.off]
  {
    hide Coherent, WellSized, Returned, ReturnedFlat, ApplyTo;
    ByteStep(m, flat, e, after, a, p);
  }

  lemma {:induction false} ShapeKept(es: seq<Event>, machines: seq<Machine>, flats: seq<map<Addr, Data>>,
                                     a: Addr, n: nat)
    requires RunBeside(es, machines, flats) && n <= |es|
    ensures a in flats[n] <==> a in flats[0]
    ensures a in flats[n] ==> |flats[n][a]| == |flats[0][a]|
  {
    if n > 0 {
      ShapeKept(es, machines, flats, a, n - 1);
      assert StepBeside(machines[n - 1], flats[n - 1], es[n - 1], flats[n]);
      hide Coherent, WellSized, Possible, PossibleFlat, AfterFlat, Returned, ReturnedFlat, IsRun;
    }
  }

  /** Byte `i` that event `n` returns. */
  ghost function ReturnedByte(es: seq<Event>, machines: seq<Machine>, n: nat, i: nat): int
    requires IsRun(es, machines) && n < |es| && es[n].Access? && i < |Returned(machines[n], es[n])[0]|
  {
    Returned(machines[n], es[n])[0][i]
  }

  /** Event `k` is the last one before event `n` that writes byte `p` of block `a`. */
  ghost predicate IsLastWrite(es: seq<Event>, machines: seq<Machine>, a: Addr, p: nat, k: nat, n: nat)
    requires IsRun(es, machines) && n <= |es|
  {
    k < n && WritesByte(machines[k], es[k], a, p) && NoWrite(es, machines, a, p, k + 1, n)
  }

  lemma LastWriteIsRead(es: seq<Event>, machines: seq<Machine>, flats: seq<map<Addr, Data>>, n: nat, i: nat, k: nat)
    requires RunBeside(es, machines, flats) && n < |es|
    requires es[n].Access? && !es[n].req.Store? && i < es[n].req.Size()
    requires i < |Returned(machines[n], es[n])[0]|
    requires IsLastWrite(es, machines, es[n].req.addr, es[n].req.off + i, k, n)
    ensures var p := es[n].req.off + i;
            && es[k].Access? && !es[k].req.Load? && es[k].req.off <= p < es[k].req.off + |es[k].req.bytes|
            && ReturnedByte(es, machines, n, i) == es[k].req.bytes[p - es[k].req.off]
  {
    hide Coherent, WellSized, StepBeside, Possible, Returned, NoWrite, After;
    ByteRead(machines[n], flats[n], es[n], flats[n + 1], i);
    ByteWritten(machines[k], flats[k], es[k], flats[k + 1], es[n].req.addr, es[n].req.off + i);
    ByteKept(es, machines, flats, es[n].req.addr, es[n].req.off + i, k + 1, n);
  }

  lemma FirstByteIsRead(es: seq<Event>, machines: seq<Machine>, flats: seq<map<Addr, Data>>, n: nat, i: nat)
    requires RunBeside(es, machines, flats) && n < |es|
    requires es[n].Access? && !es[n].req.Store? && i < es[n].req.Size()
    ensures |Returned(machines[n], es[n])[0]| == es[n].req.Size()
    ensures var a, p := es[n].req.addr, es[n].req.off + i;
            && a in flats[0] && p < |flats[0][a]|
            && (NoWrite(es, machines, a, p, 0, n) ==> ReturnedByte(es, machines, n, i) == flats[0][a][p])
  {
    hide Coherent, WellSized, StepBeside, Possible, Returned, NoWrite, After;
    var a, p := es[n].req.addr, es[n].req.off + i;
    ByteRead(machines[n], flats[n], es[n], flats[n + 1], i);
    ShapeKept(es, machines, flats, a, n);
    if NoWrite(es, machines, a, p, 0, n) {
      ByteKept(es, machines, flats, a, p, 0, n);
    }
  }

  /** All runs: a byte that a load or swap returns was last written there by an earlier store or successful
      swap, or it is the byte that was there at the start. */
  lemma LoadsReturnLastWrites(es: seq<Event>, machines: seq<Machine>, flat: map<Addr, Data>, n: nat, i: nat)
    requires IsRun(es, machines) && Coherent(machines[0], flat)
    requires n < |es| && es[n].Access? && !es[n].req.Store? && i < es[n].req.Size()
    ensures |Returned(machines[n], es[n])[0]| == es[n].req.Size()
    ensures es[n].req.addr in flat && es[n].req.off + i < |flat[es[n].req.addr]|
    ensures var a, p := es[n].req.addr, es[n].req.off + i;
            && (NoWrite(es, machines, a, p, 0, n) ==> ReturnedByte(es, machines, n, i) == flat[a][p])
            && (forall k: nat :: IsLastWrite(es, machines, a, p, k, n) ==>
                  && es[k].Access? && !es[k].req.Load? && es[k].req.off <= p < es[k].req.off + |es[k].req.bytes|
                  && ReturnedByte(es, machines, n, i) == es[k].req.bytes[p - es[k].req.off])
  {
    hide Coherent, WellSized, IsRun, RunBeside, Possible, Returned, ReturnedByte, WritesByte, NoWrite, After;
    var flats := RefinedBeside(es, machines, flat);
    var a, p := es[n].req.addr, es[n].req.off + i;
    FirstByteIsRead(es, machines, flats, n, i);
    forall k: nat | IsLastWrite(es, machines, a, p, k, n)
      ensures && es[k].Access? && !es[k].req.Load? && es[k].req.off <= p < es[k].req.off + |es[k].req.bytes|
              && ReturnedByte(es, machines, n, i) == es[k].req.bytes[p - es[k].req.off]
    {
      LastWriteIsRead(es, machines, flats, n, i, k);
    }
  }

  // ------------------------------------------------------------------ draining every cache

  ghost predicate CleanTo(m: Machine, n: nat) {
    forall k :: 0 <= k < |m.caches| && k < n ==> IsClean(m.caches[k])
  }

  ghost predicate EmptyTo(m: Machine, n: nat) {
    forall k :: 0 <= k < |m.caches| && k < n ==> m.caches[k] == map[]
  }

  lemma OneMoreEvent(es: seq<Event>, machines: seq<Machine>, e: Event)
    requires IsRun(es, machines)
    requires var last := machines[|machines| - 1]; WellSized(last) && Possible(last, e)
    ensures IsRun(es + [e], machines + [After(machines[|machines| - 1], e)])
  {
    hide WellSized, Possible, After;
  }

  /** Write back the caches from `n` on. */
  function WritebacksTo(n: nat): seq<Event> {
    if n == 0 then [] else WritebacksTo(n - 1) + [MemWriteback(n - 1)]
  }

  /** Then invalidate them. */
  function InvalidatesTo(n: nat, before: seq<Event>): seq<Event> {
    if n == 0 then before else InvalidatesTo(n - 1, before) + [MemInvalidate(n - 1)]
  }

  lemma CleanOneMore(m: Machine, flat: map<Addr, Data>, n: nat)
    requires Coherent(m, flat) && CleanTo(m, n) && n < |m.caches|
    ensures WellSized(m) && Possible(m, MemWriteback(n))
    ensures var next := After(m, MemWriteback(n));
            Coherent(next, flat) && |next.caches| == |m.caches| && CleanTo(next, n + 1)
  {
    FlushKeepsCoherence(m, flat, n);
    hide CopiesAgree, ExclusiveIsAlone, OneOwner, MemoryIsCurrent;
  }

  lemma EmptyOneMore(m: Machine, flat: map<Addr, Data>, n: nat)
    requires Coherent(m, flat) && CleanTo(m, |m.caches|) && EmptyTo(m, n) && n < |m.caches|
    ensures WellSized(m) && Possible(m, MemInvalidate(n))
    ensures var next := After(m, MemInvalidate(n));
            && Coherent(next, flat) && |next.caches| == |m.caches|
            && CleanTo(next, |next.caches|) && EmptyTo(next, n + 1)
  {
    assert IsClean(m.caches[n]);
    EmptyKeepsCoherenceIff(m, flat, n);
    hide CopiesAgree, ExclusiveIsAlone, OneOwner, MemoryIsCurrent;
  }

  lemma {:induction false} WritebacksClean(m: Machine, flat: map<Addr, Data>, n: nat) returns (machines: seq<Machine>)
    requires Coherent(m, flat) && n <= |m.caches|
    ensures IsRun(WritebacksTo(n), machines) && machines != [] && machines[0] == m
    ensures var last := machines[|machines| - 1];
            Coherent(last, flat) && |last.caches| == |m.caches| && CleanTo(last, n)
  {
    if n == 0 {
      machines := [m];
    } else {
      machines := WritebacksClean(m, flat, n - 1);
      var last := machines[|machines| - 1];
      CleanOneMore(last, flat, n - 1);
      OneMoreEvent(WritebacksTo(n - 1), machines, MemWriteback(n - 1));
      machines := machines + [After(last, MemWriteback(n - 1))];
      hide Coherent, IsRun, CleanTo, After;
    }
  }

  lemma {:induction false} InvalidatesEmpty(m: Machine, flat: map<Addr, Data>, n: nat) returns (machines: seq<Machine>)
    requires Coherent(m, flat) && n <= |m.caches|
    ensures IsRun(InvalidatesTo(n, WritebacksTo(|m.caches|)), machines) && machines != [] && machines[0] == m
    ensures var last := machines[|machines| - 1];
            && Coherent(last, flat) && |last.caches| == |m.caches|
            && CleanTo(last, |last.caches|) && EmptyTo(last, n)
  {
    hide Coherent, IsRun, CleanTo, After;
    if n == 0 {
      machines := WritebacksClean(m, flat, |m.caches|);
    } else {
      machines := InvalidatesEmpty(m, flat, n - 1);
      var last := machines[|machines| - 1];
      EmptyOneMore(last, flat, n - 1);
      OneMoreEvent(InvalidatesTo(n - 1, WritebacksTo(|m.caches|)), machines, MemInvalidate(n - 1));
      machines := machines + [After(last, MemInvalidate(n - 1))];
    }
  }

  /** Write every cache back, then invalidate every cache: no invalidation meets a dirty block, and
      afterwards the memory alone is the flat memory. */
  lemma DrainLeavesFlatMemory(m: Machine, flat: map<Addr, Data>) returns (machines: seq<Machine>)
    requires Coherent(m, flat)
    ensures IsRun(InvalidatesTo(|m.caches|, WritebacksTo(|m.caches|)), machines) && machines[0] == m
    ensures machines[|machines| - 1].memory == flat
  {
    machines := InvalidatesEmpty(m, flat, |m.caches|);
    var last := machines[|machines| - 1];
    forall a | a in last.memory
      ensures last.memory[a] == flat[a]
    {
      assert Unowned(last, a);
    }
    assert last.memory.Keys == flat.Keys;
  }
}
