/** The caches as objects: the atomic access path, the snoop path and the flush visitors, statement by
    statement, proved to be the protocol steps of module Coherence.  The program's own assertions are
    `assert` statements here, so they hold on every path. */
module SnoopingCache {
  import opened Intervals
  import opened Coherence

  // ------------------------------------------------------------------ packets

  datatype Cmd = ReadReq | ReadExReq | UpgradeReq | ReadResp | ReadExResp | UpgradeResp | Writeback
  {
    predicate IsRead() { ReadReq? || ReadExReq? || ReadResp? || ReadExResp? }

    predicate IsInvalidate() { ReadExReq? || UpgradeReq? }

    predicate NeedsExclusive() { !ReadReq? && !ReadResp? }

    predicate NeedsResponse() { ReadReq? || ReadExReq? || UpgradeReq? }

    predicate IsResponse() { ReadResp? || ReadExResp? || UpgradeResp? }

    predicate HasData() { ReadResp? || ReadExResp? || Writeback? }

    function Response(): Cmd
      requires NeedsResponse()
    {
      match this
      case ReadReq => ReadResp
      case ReadExReq => ReadExResp
      case UpgradeReq => UpgradeResp
    }

    function Bus(): BusCmd
      requires NeedsResponse()
    {
      match this
      case ReadReq => ReadShared
      case ReadExReq => ReadExclusive
      case UpgradeReq => Upgrade
    }
  }

  datatype Packet = Packet(cmd: Cmd, addr: Addr, shared: bool, memInhibit: bool, supplyExclusive: bool, data: Data)

  /** What a cache with a valid copy does to a request it snoops. */
  function AfterSnoop(l: Line, pkt: Packet): Packet
    requires pkt.cmd.NeedsResponse()
  {
    var p := if pkt.cmd.IsRead() && !pkt.cmd.IsInvalidate() then pkt.(shared := true) else pkt;
    if l.dirty then
      p.(memInhibit := true, supplyExclusive := p.supplyExclusive || l.writable,
         cmd := pkt.cmd.Response(), data := l.data)
    else p
  }

  /** A snooped request, case by case: without a copy nothing happens; a read leaves the copy without exclusivity
      and raises the shared line, the invalidating requests take the copy; a dirty copy answers with its data,
      inhibits the memory and hands on its exclusivity. */
  ghost predicate IsSnooped(before: Lines, after: Lines, pkt0: Packet, pkt: Packet) {
    var a := pkt0.addr;
    && (forall x :: x != a ==> (x in after <==> x in before) && (x in after && x in before ==> after[x] == before[x]))
    && pkt.addr == a
    && (a !in before ==> a !in after && pkt == pkt0)
    && (a in before ==>
          && (if pkt0.cmd == ReadReq then a in after && after[a] == before[a].(writable := false) && pkt.shared
              else a !in after && pkt.shared == pkt0.shared)
          && (if before[a].dirty then
                && pkt.memInhibit && pkt.data == before[a].data
                && pkt.supplyExclusive == (pkt0.supplyExclusive || before[a].writable)
                && pkt.cmd == (if pkt0.cmd == ReadReq then ReadResp
                               else if pkt0.cmd == ReadExReq then ReadExResp else UpgradeResp)
              else
                && pkt.memInhibit == pkt0.memInhibit && pkt.data == pkt0.data
                && pkt.supplyExclusive == pkt0.supplyExclusive && pkt.cmd == pkt0.cmd))
  }

  /** The response put aside once a cache has answered. */
  function Answer(cmd: Cmd, answered: bool): Option<Cmd>
    requires cmd.NeedsResponse()
  {
    if answered then Some(cmd.Response()) else None
  }

  /** The writeback that evicting `victim` leaves to be sent. */
  function WritebackOf(c: Lines, victim: Option<Addr>): seq<Packet> {
    if victim.Some? && victim.value in c && c[victim.value].dirty
    then [Packet(Writeback, victim.value, false, false, c[victim.value].writable, c[victim.value].data)]
    else []
  }

  /** The next element of an iteration in no particular order. */
  method AnyOf<T>(s: set<T>) returns (x: T)
    requires s != {}
    ensures x in s
  {
    x :| x in s;
  }

  // ------------------------------------------------------------------ one cache

  class Cache {
    var lines: Lines

    constructor ()
      ensures lines == map[]
    {
      lines := map[];
    }

    /** `satisfyCpuSideRequest` for the requests a processor makes. */
    method SatisfyCpuSideRequest(r: Request) returns (result: Data)
      requires r.addr in lines && r.Fits(|lines[r.addr].data|)
      modifies this
      ensures lines == old(lines)[r.addr := Satisfied(old(lines)[r.addr], r)]
      ensures result == ResultOf(r, old(lines)[r.addr].data)
      ensures MakesRoom(old(lines), lines, r.addr, None)
      ensures LineIsServed(r, old(lines)[r.addr], lines[r.addr], result)
    {
      SatisfiedIsServed(lines[r.addr], r);
      var blk := lines[r.addr];
      assert r.off + r.Size() <= |blk.data|;
      match r
      case Swap(_, off, bytes, expected) =>
        assert |bytes| <= 8;
        result := blk.data[off..off + |bytes|];
        var overwriteMem := true;
        if expected.Some? {
          overwriteMem := expected.value == blk.data[off..off + |bytes|];
        }
        if overwriteMem {
          blk := blk.(data := Overwritten(blk.data, off, bytes));
          blk := blk.(dirty := true);
        }
        lines := lines[r.addr := blk];
      case Store(_, off, bytes) =>
        blk := blk.(data := Overwritten(blk.data, off, bytes));
        blk := blk.(dirty := true);
        lines := lines[r.addr := blk];
        result := [];
      case Load(_, off, size) =>
        result := blk.data[off..off + size];
        assert lines == lines[r.addr := blk];
    }

    /** `access`: satisfy the request here if the block's status allows it. */
    method Access(r: Request) returns (hit: bool, result: Data)
      requires r.addr in lines ==> r.Fits(|lines[r.addr].data|)
      modifies this
      ensures hit <==> r.addr in old(lines) &&
                       if r.Load? then old(lines)[r.addr].readable else old(lines)[r.addr].writable
      ensures hit <==> Hits(old(lines), r)
      ensures hit ==> lines == old(lines)[r.addr := Satisfied(old(lines)[r.addr], r)]
      ensures hit ==> result == ResultOf(r, old(lines)[r.addr].data)
      ensures hit ==> MakesRoom(old(lines), lines, r.addr, None)
      ensures hit ==> LineIsServed(r, old(lines)[r.addr], lines[r.addr], result)
      ensures !hit ==> lines == old(lines)
    {
      hit, result := false, [];
      if r.addr in lines {
        var blk := lines[r.addr];
        if if r.NeedsExclusive() then blk.writable else blk.readable {
          result := SatisfyCpuSideRequest(r);
          hit := true;
        }
      }
    }

    /** `getBusPacket`: an upgrade for a block that is here but not writable, a read for one that is not. */
    method GetBusPacket(r: Request) returns (pkt: Packet)
      requires !Hits(lines, r) && (r.addr in lines ==> lines[r.addr].readable)
      ensures pkt.cmd == UpgradeReq <==> r.addr in lines
      ensures pkt.cmd == ReadExReq <==> r.addr !in lines && !r.Load?
      ensures pkt.cmd == ReadReq <==> r.addr !in lines && r.Load?
      ensures pkt.cmd.NeedsResponse() && pkt.cmd.Bus() == CmdFor(lines, r) && pkt.addr == r.addr
      ensures !pkt.shared && !pkt.memInhibit && !pkt.supplyExclusive
    {
      var cmd: Cmd;
      if r.addr in lines {
        assert r.NeedsExclusive() && !lines[r.addr].writable;
        cmd := UpgradeReq;
      } else {
        cmd := if r.NeedsExclusive() then ReadExReq else ReadReq;
      }
      pkt := Packet(cmd, r.addr, false, false, false, []);
    }

    /** `writebackBlk`. */
    method WritebackBlk(a: Addr) returns (pkt: Packet)
      requires a in lines && lines[a].dirty
      modifies this
      ensures pkt == Packet(Writeback, a, false, false, old(lines)[a].writable, old(lines)[a].data)
      ensures lines == old(lines)[a := old(lines)[a].(dirty := false)]
    {
      assert a in lines && lines[a].dirty;
      var blk := lines[a];
      pkt := Packet(Writeback, a, false, false, false, []);
      if blk.writable {
        pkt := pkt.(supplyExclusive := true);
      }
      pkt := pkt.(data := blk.data);
      lines := lines[a := blk.(dirty := false)];
    }

    /** `allocateBlock`: the writeback of the victim, if it is dirty.  With no misses outstanding, as in
        atomic mode, a block is always found. */
    method AllocateBlock(victim: Option<Addr>) returns (writebacks: seq<Packet>)
      requires victim.Some? ==> victim.value in lines
      modifies this
      ensures Evicted(lines, victim) == Evicted(old(lines), victim)
      ensures writebacks == WritebackOf(old(lines), victim)
      ensures forall x :: victim != Some(x) ==>
                (x in lines <==> x in old(lines)) && (x in lines ==> lines[x] == old(lines)[x])
      ensures writebacks ==
              if victim.Some? && old(lines)[victim.value].dirty then
                var l := old(lines)[victim.value];
                [Packet(Writeback, victim.value, false, false, l.writable, l.data)]
              else []
    {
      writebacks := [];
      if victim.Some? {
        if lines[victim.value].dirty {
          var pkt := WritebackBlk(victim.value);
          writebacks := writebacks + [pkt];
        }
      }
    }

    /** `handleFill`: put the response into the cache. */
    method HandleFill(pkt: Packet, victim: Option<Addr>) returns (writebacks: seq<Packet>)
      requires pkt.cmd.IsResponse() && (pkt.cmd == UpgradeResp <==> pkt.addr in lines)
      requires victim.Some? ==> victim.value in lines && victim.value != pkt.addr
      modifies this
      ensures pkt.addr in old(lines) ==> writebacks == []
      ensures pkt.addr in old(lines) ==>
                lines == old(lines)[pkt.addr := old(lines)[pkt.addr].(readable := true,
                                      writable := old(lines)[pkt.addr].writable || !pkt.shared,
                                      dirty := old(lines)[pkt.addr].dirty || (!pkt.shared && pkt.memInhibit))]
      ensures pkt.addr !in old(lines) ==>
                lines == Evicted(old(lines), victim)[pkt.addr :=
                           Line(true, !pkt.shared, !pkt.shared && pkt.memInhibit, pkt.data)]
      ensures pkt.addr !in old(lines) ==> writebacks == WritebackOf(old(lines), victim)
      ensures MakesRoom(old(lines), lines, pkt.addr, victim)
    {
      var blk: Line;
      writebacks := [];
      if pkt.addr !in lines {
        assert pkt.cmd.HasData();
        writebacks := AllocateBlock(victim);
        lines := Evicted(lines, victim);
        assert pkt.addr !in lines;
        blk := Line(false, false, false, []);
      } else {
        assert pkt.cmd.HasData() || pkt.addr in lines;
        blk := lines[pkt.addr];
      }
      blk := blk.(readable := true);
      if !pkt.shared {
        blk := blk.(writable := true);
        if pkt.memInhibit {
          blk := blk.(dirty := true);
        }
      }
      if pkt.cmd.IsRead() {
        blk := blk.(data := pkt.data);
      }
      lines := lines[pkt.addr := blk];
    }

    /** `recvAtomicSnoop` and `handleSnoop`: another cache's request, seen on the bus. */
    method RecvAtomicSnoop(pkt0: Packet) returns (pkt: Packet)
      requires pkt0.cmd.NeedsResponse()
      requires pkt0.addr in lines && lines[pkt0.addr].dirty ==> !pkt0.memInhibit
      modifies this
      ensures lines == Snooped(old(lines), pkt0.addr, pkt0.cmd.Bus())
      ensures pkt == if pkt0.addr in old(lines) then AfterSnoop(old(lines)[pkt0.addr], pkt0) else pkt0
      ensures IsSnooped(old(lines), lines, pkt0, pkt)
    {
      pkt := pkt0;
      var invalidate, needsExclusive := pkt.cmd.IsInvalidate(), pkt.cmd.NeedsExclusive();
      if pkt.addr !in lines {
        return;
      }
      var blk := lines[pkt.addr];
      var respond := blk.dirty && pkt.cmd.NeedsResponse();
      var haveExclusive := blk.writable;
      if pkt.cmd.IsRead() && !invalidate {
        assert !needsExclusive;
        pkt := pkt.(shared := true);
        blk := blk.(writable := false);
        lines := lines[pkt.addr := blk];
      }
      if respond {
        assert !pkt.memInhibit;
        pkt := pkt.(memInhibit := true);
        if haveExclusive {
          pkt := pkt.(supplyExclusive := true);
        }
        pkt := pkt.(cmd := pkt.cmd.Response());
        pkt := pkt.(data := blk.data);
      }
      if invalidate {
        lines := lines - {pkt.addr};
      }
    }
  }

  // ------------------------------------------------------------------ the bus, the memory and the access path

  /** The caches on one bus, in front of one memory. */
  class MemorySystem {
    const blkSize: nat
    const caches: seq<Cache>
    var memory: map<Addr, Data>

    ghost predicate Valid()
      reads this, caches
    {
      && (forall j, k :: 0 <= j < k < |caches| ==> caches[j] != caches[k])
      && WellSized(View())
    }

    ghost function View(): (m: Machine)
      reads this, caches
      ensures m.blkSize == blkSize && m.memory == memory && |m.caches| == |caches|
      ensures forall k :: 0 <= k < |caches| ==> m.caches[k] == caches[k].lines
    {
      Machine(blkSize, seq(|caches|, k requires 0 <= k < |caches| reads caches => caches[k].lines), memory)
    }

    constructor (blkSize: nat, caches: seq<Cache>, memory: map<Addr, Data>)
      requires forall j, k :: 0 <= j < k < |caches| ==> caches[j] != caches[k]
      requires forall k :: 0 <= k < |caches| ==> caches[k].lines == map[]
      requires forall a :: a in memory ==> |memory[a]| == blkSize
      ensures Valid() && Coherent(View(), memory)
      ensures this.caches == caches && this.blkSize == blkSize && this.memory == memory
    {
      this.blkSize, this.caches, this.memory := blkSize, caches, memory;
      new;
      assert forall k :: 0 <= k < |caches| ==> View().caches[k] == map[];
    }

    /** Cache `k` snoops a request on the bus.  If it answers, its response is put aside and the packet
        gets its original command back for the remaining caches. */
    method Snoop(k: nat, pkt0: Packet, response: Option<Cmd>) returns (pkt: Packet, snoopResponse: Option<Cmd>)
      requires Valid() && k < |caches| && pkt0.cmd.NeedsResponse()
      requires pkt0.addr in caches[k].lines && caches[k].lines[pkt0.addr].dirty ==> !pkt0.memInhibit
      requires response == Answer(pkt0.cmd, pkt0.memInhibit)
      modifies caches[k]
      ensures Valid()
      ensures View().caches == old(View().caches)[k := Snooped(old(caches[k].lines), pkt0.addr, pkt0.cmd.Bus())]
      ensures pkt == if pkt0.addr in old(caches[k].lines)
                     then AfterSnoop(old(caches[k].lines)[pkt0.addr], pkt0).(cmd := pkt0.cmd) else pkt0
      ensures snoopResponse == Answer(pkt0.cmd, pkt.memInhibit)
    {
      ghost var before := View().caches;
      snoopResponse := response;
      pkt := caches[k].RecvAtomicSnoop(pkt0);
      if pkt.cmd.IsResponse() {
        assert pkt.cmd != pkt0.cmd && pkt.memInhibit && snoopResponse == None;
        snoopResponse := Some(pkt.cmd);
        pkt := pkt.(cmd := pkt0.cmd);
      }
      assert View().caches == before[k := caches[k].lines];
    }

    /** Show the request to every other cache, always with the original command, and collect the answers. */
    method SnoopOthers(src: nat, pkt0: Packet) returns (pkt: Packet, snoopResponse: Option<Cmd>)
      requires Valid() && OneOwner(View()) && src < |caches| && pkt0.cmd.NeedsResponse()
      requires !pkt0.shared && !pkt0.memInhibit
      modifies caches
      ensures Valid() && View().caches == SnoopedTo(old(View()), src, pkt0.addr, pkt0.cmd.Bus(), |caches|)
      ensures Collected(old(View()), src, pkt0, |caches|, pkt) && pkt.cmd == pkt0.cmd && pkt.addr == pkt0.addr
      ensures snoopResponse == Answer(pkt0.cmd, pkt.memInhibit)
    {
      ghost var m := View();
      ghost var a, cmd := pkt0.addr, pkt0.cmd.Bus();
      pkt, snoopResponse := pkt0, None;
      var k := 0;
      CollectNothing(m, src, pkt0);
      SnoopedNone(m, src, a, cmd);
      assert snoopResponse == Answer(pkt0.cmd, pkt.memInhibit);
      hide *;
      while k < |caches|
        invariant k <= |caches| && Valid() && Collected(m, src, pkt0, k, pkt)
        invariant pkt.cmd == pkt0.cmd && pkt.addr == a
        invariant View().caches == SnoopedTo(m, src, a, cmd, k)
        invariant snoopResponse == Answer(pkt0.cmd, pkt.memInhibit)
      {
        pkt, snoopResponse := SnoopNext(src, k, pkt, snoopResponse, m, pkt0);
        k := k + 1;
      }
    }

    /** The bus comes to cache `k`; the requester itself does not snoop. */
    method SnoopNext(src: nat, k: nat, pkt1: Packet, response: Option<Cmd>, ghost m: Machine, ghost pkt0: Packet)
        returns (pkt: Packet, snoopResponse: Option<Cmd>)
      requires Valid() && OneOwner(m) && |m.caches| == |caches| && src < |caches| && k < |caches|
      requires pkt0.cmd.NeedsResponse() && pkt1.cmd == pkt0.cmd && pkt1.addr == pkt0.addr
      requires Collected(m, src, pkt0, k, pkt1) && response == Answer(pkt0.cmd, pkt1.memInhibit)
      requires View().caches == SnoopedTo(m, src, pkt0.addr, pkt0.cmd.Bus(), k)
      modifies caches
      ensures Valid() && Collected(m, src, pkt0, k + 1, pkt) && pkt.cmd == pkt0.cmd && pkt.addr == pkt0.addr
      ensures View().caches == SnoopedTo(m, src, pkt0.addr, pkt0.cmd.Bus(), k + 1)
      ensures snoopResponse == Answer(pkt0.cmd, pkt.memInhibit)
    {
      hide *;
      pkt, snoopResponse := pkt1, response;
      CollectOne(m, src, pkt0, k, pkt);
      SnoopedOne(m, src, pkt0.addr, pkt0.cmd.Bus(), k);
      assert caches[k].lines == m.caches[k];
      if k != src {
        pkt, snoopResponse := Snoop(k, pkt, snoopResponse);
      }
    }

    /** A request on the bus: every other cache snoops it, and the memory answers unless a cache has. */
    method SendAtomic(src: nat, pkt0: Packet) returns (pkt: Packet)
      requires Valid() && OneOwner(View()) && src < |caches|
      requires pkt0.cmd.NeedsResponse() && pkt0.addr in memory && !pkt0.shared && !pkt0.memInhibit
      modifies caches
      ensures Valid() && View().caches == SnoopedTo(old(View()), src, pkt0.addr, pkt0.cmd.Bus(), |caches|)
      ensures pkt.cmd == pkt0.cmd.Response() && pkt.addr == pkt0.addr
      ensures pkt.shared <==> pkt0.cmd == ReadReq && OthersHave(old(View()), src, pkt0.addr)
      ensures pkt.memInhibit <==> OwnedElsewhere(old(View()), src, pkt0.addr)
      ensures pkt0.cmd != UpgradeReq ==> pkt.data == Supplied(old(View()), src, pkt0.addr)
    {
      ghost var m := View();
      var snoopResponse;
      pkt, snoopResponse := SnoopOthers(src, pkt0);
      CollectAll(m, src, pkt0, pkt);
      hide Collected, OneOwner, WellSized, SnoopedTo, OthersHave, OwnedElsewhere, Supplied;
      if pkt.memInhibit {
        pkt := pkt.(cmd := snoopResponse.value);
      } else {
        pkt := pkt.(cmd := pkt.cmd.Response());
        if pkt.cmd.IsRead() {
          pkt := pkt.(data := memory[pkt.addr]);
        }
      }
    }

    /** A writeback on the bus: no cache reacts, the memory takes the block. */
    method SendWriteback(pkt: Packet)
      requires pkt.cmd == Writeback && pkt.addr in memory
      modifies this`memory
      ensures memory == old(memory)[pkt.addr := pkt.data]
    {
      memory := memory[pkt.addr := pkt.data];
    }

    /** `recvAtomic`: one processor request, from the look-up to the last writeback. */
    method RecvAtomic(src: nat, r: Request, victim: Option<Addr>, ghost flat: map<Addr, Data>) returns (result: Data)
      requires Valid() && Coherent(View(), flat) && CanAccess(View(), src, r, victim)
      modifies this`memory, caches
      ensures View() == Accessed(old(View()), src, r, victim)
      ensures result == AccessResult(old(View()), src, r, victim)
      ensures r.addr in flat && |flat[r.addr]| == blkSize
      ensures IsAccess(old(View()), View(), src, r, victim, flat[r.addr], result)
    {
      ghost var m := View();
      AccessRefinesFlat(m, flat, src, r, victim);
      AccessLeaves(m, flat, src, r, victim);
      ghost var n := Ready(m, src, r, victim);
      ReadyParts(m, src, r, victim);
      hide *;
      var hit;
      hit, result := caches[src].Access(r);
      if !hit {
        assert View().caches == m.caches;
        result := Miss(src, r, victim, flat);
      }
      assert View().caches == n.caches[src := caches[src].lines];
    }

    /** The miss: get the block, satisfy the request in it, and only then send the writebacks. */
    method Miss(src: nat, r: Request, victim: Option<Addr>, ghost flat: map<Addr, Data>) returns (result: Data)
      requires Valid() && Coherent(View(), flat) && CanAccess(View(), src, r, victim) && !Hits(caches[src].lines, r)
      modifies this`memory, caches
      ensures var n := Ready(old(View()), src, r, victim);
              && View().caches == n.caches[src := n.caches[src][r.addr := Satisfied(n.caches[src][r.addr], r)]]
              && memory == n.memory && result == ResultOf(r, n.caches[src][r.addr].data)
    {
      ghost var m := View();
      ghost var room := if r.addr in m.caches[src] then None else victim;
      assert room.Some? ==> room.value in memory;
      ReadyParts(m, src, r, victim);
      hide *;
      var writebacks;
      result, writebacks := FetchAndSatisfy(src, r, victim, flat);
      SendWritebacks(writebacks, m.caches[src], room);
    }

    method FetchAndSatisfy(src: nat, r: Request, victim: Option<Addr>, ghost flat: map<Addr, Data>)
        returns (result: Data, writebacks: seq<Packet>)
      requires Valid() && Coherent(View(), flat) && CanAccess(View(), src, r, victim) && !Hits(caches[src].lines, r)
      modifies caches
      ensures var n := Ready(old(View()), src, r, victim);
              && View().caches == n.caches[src := n.caches[src][r.addr := Satisfied(n.caches[src][r.addr], r)]]
              && result == ResultOf(r, n.caches[src][r.addr].data)
      ensures writebacks ==
              WritebackOf(old(caches[src].lines), if r.addr in old(caches[src].lines) then None else victim)
    {
      ghost var m := View();
      ghost var n := Ready(m, src, r, victim);
      ReadyParts(m, src, r, victim);
      hide *;
      writebacks := Fetch(src, r, victim, flat);
      result := caches[src].SatisfyCpuSideRequest(r);
      assert View().caches == n.caches[src := caches[src].lines];
    }

    /** One processor request as the processor sees it: a request to flat memory.  `after` is the flat memory
        that the caches and the memory stand for afterwards. */
    method Serve(src: nat, r: Request, victim: Option<Addr>, ghost flat: map<Addr, Data>)
        returns (result: Data, ghost after: map<Addr, Data>)
      requires Valid() && Coherent(View(), flat) && CanAccess(View(), src, r, victim)
      modifies this`memory, caches
      ensures Valid() && Coherent(View(), after) && r.addr in flat && |flat[r.addr]| == blkSize
      ensures result == ResultOf(r, flat[r.addr]) && after == flat[r.addr := ApplyTo(r, flat[r.addr])]
      ensures IsServed(r, flat[r.addr], after[r.addr], result)
      ensures after.Keys == flat.Keys && forall a :: a in flat && a != r.addr ==> after[a] == flat[a]
    {
      AccessRefinesFlat(View(), flat, src, r, victim);
      after := flat[r.addr := ApplyTo(r, flat[r.addr])];
      ServedByteForByte(r, flat[r.addr]);
      result := RecvAtomic(src, r, victim, flat);
    }

    /** The miss part of `recvAtomic`: send the bus packet and fill in the response. */
    method Fetch(src: nat, r: Request, victim: Option<Addr>, ghost flat: map<Addr, Data>)
        returns (writebacks: seq<Packet>)
      requires Valid() && Coherent(View(), flat) && CanAccess(View(), src, r, victim)
      requires !Hits(caches[src].lines, r)
      modifies caches
      ensures View().caches == Ready(old(View()), src, r, victim).caches
      ensures r.addr in flat && Brought(old(View()).caches, View().caches, src, r, victim, flat[r.addr])
      ensures Ready(old(View()), src, r, victim).memory ==
              WrittenBack(old(memory), old(caches[src].lines),
                          if r.addr in old(caches[src].lines) then None else victim)
      ensures writebacks ==
              WritebackOf(old(caches[src].lines), if r.addr in old(caches[src].lines) then None else victim)
    {
      ghost var m := View();
      var a := r.addr;
      var room := if a in caches[src].lines then None else victim;
      assert OneOwner(m) && a in memory && (a in m.caches[src] ==> m.caches[src][a].readable) && a in flat;
      ReadyOnMiss(m, src, r, victim);
      hide *;
      FetchBrings(m, flat, src, r, victim);
      var busPkt := caches[src].GetBusPacket(r);
      ghost var cmd := CmdFor(m.caches[src], r);
      UpgradeIffPresent(m.caches[src], r, busPkt.cmd);
      busPkt := SendAtomic(src, busPkt);
      assert busPkt.cmd.IsResponse() && (busPkt.cmd.IsRead() || busPkt.cmd == UpgradeResp);
      writebacks := FillIn(src, busPkt, room, m, cmd);
    }

    /** The response is filled into the requester's cache, which the snoops have left alone. */
    method FillIn(src: nat, pkt: Packet, victim: Option<Addr>, ghost m: Machine, ghost cmd: BusCmd)
        returns (writebacks: seq<Packet>)
      requires Valid() && src < |caches| == |m.caches| && pkt.addr in m.memory
      requires (cmd == Upgrade <==> pkt.addr in m.caches[src])
      requires victim.Some? ==> victim.value in m.caches[src] && victim.value != pkt.addr && cmd != Upgrade
      requires View().caches == SnoopedTo(m, src, pkt.addr, cmd, |caches|)
      requires pkt.cmd.IsResponse() && (pkt.cmd == UpgradeResp <==> cmd == Upgrade)
      requires pkt.shared <==> cmd == ReadShared && OthersHave(m, src, pkt.addr)
      requires pkt.memInhibit <==> OwnedElsewhere(m, src, pkt.addr)
      requires cmd != Upgrade ==> pkt.data == Supplied(m, src, pkt.addr)
      modifies caches[src]
      ensures View().caches == Fetched(m, src, pkt.addr, cmd, victim).caches
      ensures writebacks == WritebackOf(m.caches[src], victim)
    {
      assert forall k :: 0 <= k < |caches| && k != src ==> caches[k] != caches[src];
      hide *;
      ghost var snooped := View().caches;
      SnoopedAll(m, src, pkt.addr, cmd, victim);
      FilledByResponse(m, src, pkt.addr, cmd, pkt);
      NoVictim(m.caches[src], victim);
      writebacks := caches[src].HandleFill(pkt, victim);
      assert caches[src].lines == Evicted(m.caches[src], victim)[pkt.addr := Filled(m, src, pkt.addr, cmd)];
      assert View().caches == snooped[src := caches[src].lines];
    }

    lemma NoVictim(c: Lines, victim: Option<Addr>)
      ensures victim.None? ==> Evicted(c, victim) == c && WritebackOf(c, victim) == []
    {
    }

    /** The loop that sends the writebacks. */
    method SendWritebacks(packets: seq<Packet>, ghost c: Lines, ghost victim: Option<Addr>)
      requires packets == WritebackOf(c, victim) && (victim.Some? ==> victim.value in memory)
      modifies this`memory
      ensures memory == WrittenBack(old(memory), c, victim)
    {
      var writebacks := packets;
      while writebacks != []
        invariant writebacks == packets || (writebacks == [] && packets != [])
        invariant memory == if writebacks == packets then old(memory) else WrittenBack(old(memory), c, victim)
        decreases |writebacks|
      {
        SendWriteback(writebacks[0]);
        writebacks := writebacks[1..];
      }
    }

    /** `memWriteback`: every dirty block of one cache goes to memory; the order does not matter. */
    method MemWriteback(c: nat, ghost flat: map<Addr, Data>)
      requires Valid() && Coherent(View(), flat) && c < |caches|
      modifies this`memory, caches[c]
      ensures Valid() && View() == Flushed(old(View()), c) && Coherent(View(), flat)
      ensures caches[c].lines.Keys == old(caches[c].lines).Keys && memory.Keys == old(memory).Keys
      ensures forall a :: a in caches[c].lines ==> caches[c].lines[a] == old(caches[c].lines)[a].(dirty := false)
      ensures forall a :: a in memory ==>
                memory[a] == if a in old(caches[c].lines) && old(caches[c].lines)[a].dirty
                             then old(caches[c].lines)[a].data else old(memory)[a]
    {
      ghost var m := View();
      FlushKeepsCoherence(m, flat, c);
      hide Coherent, WellSized;
      ghost var lines := m.caches[c];
      var todo := caches[c].lines.Keys;
      FlushEnds(lines, m.memory);
      while todo != {}
        invariant todo <= lines.Keys && caches[c].lines == CleanedBut(lines, todo)
        invariant memory == TakenBut(m.memory, lines, todo)
        decreases todo
      {
        var a := AnyOf(todo);
        FlushOne(lines, m.memory, todo, a);
        WritebackVisitor(c, a);
        todo := todo - {a};
      }
      assert View().caches == Flushed(m, c).caches;
    }

    method WritebackVisitor(c: nat, a: Addr)
      requires c < |caches| && a in caches[c].lines && a in memory
      modifies this`memory, caches[c]
      ensures caches[c].lines == old(caches[c].lines)[a := old(caches[c].lines)[a].(dirty := false)]
      ensures memory == if old(caches[c].lines)[a].dirty
                        then old(memory)[a := old(caches[c].lines)[a].data] else old(memory)
    {
      var blk := caches[c].lines[a];
      if blk.dirty {
        memory := memory[a := blk.data];
        blk := blk.(dirty := false);
      }
      caches[c].lines := caches[c].lines[a := blk];
    }

    /** `memInvalidate`: every block of one cache goes, and none of them may be dirty. */
    method MemInvalidate(c: nat, ghost flat: map<Addr, Data>)
      requires Valid() && Coherent(View(), flat) && c < |caches| && IsClean(caches[c].lines)
      modifies caches[c]
      ensures Valid() && View() == Emptied(old(View()), c) && Coherent(View(), flat)
      ensures caches[c].lines == map[]
    {
      ghost var m := View();
      EmptyKeepsCoherenceIff(m, flat, c);
      var todo := caches[c].lines.Keys;
      while todo != {}
        invariant caches[c].lines.Keys == todo && todo <= m.caches[c].Keys
        invariant forall a :: a in todo ==> caches[c].lines[a] == m.caches[c][a]
        decreases todo
      {
        var a := AnyOf(todo);
        assert !caches[c].lines[a].dirty;
        caches[c].lines := caches[c].lines - {a};
        todo := todo - {a};
      }
      assert caches[c].lines == map[];
      assert View().caches == Emptied(m, c).caches;
    }
  }

  /** On a miss the machine becomes ready by a fetch. */
  lemma ReadyOnMiss(m: Machine, src: nat, r: Request, victim: Option<Addr>)
    requires WellSized(m) && CanAccess(m, src, r, victim) && !Hits(m.caches[src], r)
    ensures var cmd := CmdFor(m.caches[src], r);
            var room := if r.addr in m.caches[src] then None else victim;
            && src < |m.caches| && r.addr in m.memory && (cmd == Upgrade ==> r.addr in m.caches[src])
            && (room.Some? ==> room.value in m.caches[src] && room.value != r.addr)
            && Ready(m, src, r, victim) == Fetched(m, src, r.addr, cmd, room)
            && Fetched(m, src, r.addr, cmd, room).memory == WrittenBack(m.memory, m.caches[src], room)
  {
    hide Filled, Snooped, Evicted, WrittenBack;
  }

  lemma UpgradeIffPresent(c: Lines, r: Request, cmd: Cmd)
    requires cmd.NeedsResponse() && cmd.Bus() == CmdFor(c, r)
    ensures cmd == UpgradeReq <==> r.addr in c
    ensures cmd.Response().IsResponse() && (cmd.Response().IsRead() || cmd.Response() == UpgradeResp)
    ensures cmd.Response() == UpgradeResp <==> r.addr in c
    ensures cmd.Response().IsRead() <==> r.addr !in c
    ensures CmdFor(c, r) == ReadShared <==> cmd == ReadReq
  {
  }

  /** The block as filled from the response is the block of the protocol. */
  lemma FilledByResponse(m: Machine, src: nat, a: Addr, cmd: BusCmd, pkt: Packet)
    requires src < |m.caches| && a in m.memory && (cmd == Upgrade <==> a in m.caches[src])
    requires pkt.shared <==> cmd == ReadShared && OthersHave(m, src, a)
    requires pkt.memInhibit <==> OwnedElsewhere(m, src, a)
    requires cmd != Upgrade ==> pkt.data == Supplied(m, src, a)
    ensures Filled(m, src, a, cmd) ==
            if a in m.caches[src]
            then m.caches[src][a].(readable := true, writable := m.caches[src][a].writable || !pkt.shared,
                                   dirty := m.caches[src][a].dirty || (!pkt.shared && pkt.memInhibit))
            else Line(true, !pkt.shared, !pkt.shared && pkt.memInhibit, pkt.data)
  {
    hide OthersHave, OwnedElsewhere, Supplied;
  }

  /** Half-way through a flush: the blocks of `todo` have not been visited. */
  ghost function CleanedBut(c: Lines, todo: set<Addr>): Lines {
    map a | a in c :: if a in todo then c[a] else c[a].(dirty := false)
  }

  ghost function TakenBut(memory: map<Addr, Data>, c: Lines, todo: set<Addr>): map<Addr, Data> {
    map a | a in memory :: if a in c && a !in todo && c[a].dirty then c[a].data else memory[a]
  }

  lemma FlushEnds(c: Lines, memory: map<Addr, Data>)
    ensures CleanedBut(c, c.Keys) == c && TakenBut(memory, c, c.Keys) == memory
    ensures CleanedBut(c, {}) == Cleaned(c)
    ensures TakenBut(memory, c, {}) == map a | a in memory :: if a in c && c[a].dirty then c[a].data else memory[a]
  {
  }

  lemma FlushOne(c: Lines, memory: map<Addr, Data>, todo: set<Addr>, a: Addr)
    requires a in todo && todo <= c.Keys && a in memory
    ensures var l := CleanedBut(c, todo)[a];
            && CleanedBut(c, todo - {a}) == CleanedBut(c, todo)[a := l.(dirty := false)]
            && TakenBut(memory, c, todo - {a}) ==
               (if l.dirty then TakenBut(memory, c, todo)[a := l.data] else TakenBut(memory, c, todo))
  {
  }

  lemma ReadyParts(m: Machine, src: nat, r: Request, victim: Option<Addr>)
    requires WellSized(m) && CanAccess(m, src, r, victim)
    ensures var n := Ready(m, src, r, victim);
            && r.Fits(|n.caches[src][r.addr].data|) && n.blkSize == m.blkSize && |n.caches| == |m.caches|
            && (r.addr in m.caches[src] ==> r.Fits(|m.caches[src][r.addr].data|))
            && (Hits(m.caches[src], r) ==> n == m)
            && (!Hits(m.caches[src], r) ==>
                  n.memory == WrittenBack(m.memory, m.caches[src], if r.addr in m.caches[src] then None else victim))
            && Accessed(m, src, r, victim) ==
                 Machine(n.blkSize, n.caches[src := n.caches[src][r.addr := Satisfied(n.caches[src][r.addr], r)]],
                         n.memory)
            && AccessResult(m, src, r, victim) == ResultOf(r, n.caches[src][r.addr].data)
  {
    hide Filled, Satisfied, ResultOf;
  }

  /** The caches once the first `k` of them, except the requester, have snooped. */
  ghost function SnoopedTo(m: Machine, src: nat, a: Addr, cmd: BusCmd, k: nat): (s: seq<Lines>)
    ensures |s| == |m.caches|
  {
    seq(|m.caches|, j requires 0 <= j < |m.caches| =>
      if j < k && j != src then Snooped(m.caches[j], a, cmd) else m.caches[j])
  }

  lemma SnoopedNone(m: Machine, src: nat, a: Addr, cmd: BusCmd)
    ensures SnoopedTo(m, src, a, cmd, 0) == m.caches
  {
  }

  lemma SnoopedOne(m: Machine, src: nat, a: Addr, cmd: BusCmd, k: nat)
    requires k < |m.caches|
    ensures SnoopedTo(m, src, a, cmd, k)[k] == m.caches[k]
    ensures SnoopedTo(m, src, a, cmd, k + 1) ==
            if k == src then SnoopedTo(m, src, a, cmd, k)
            else SnoopedTo(m, src, a, cmd, k)[k := Snooped(m.caches[k], a, cmd)]
  {
    hide Snooped;
  }

  lemma SnoopedAll(m: Machine, src: nat, a: Addr, cmd: BusCmd, victim: Option<Addr>)
    requires src < |m.caches| && a in m.memory && (cmd == Upgrade ==> a in m.caches[src])
    ensures SnoopedTo(m, src, a, cmd, |m.caches|)[src] == m.caches[src]
    ensures Fetched(m, src, a, cmd, victim).caches ==
            SnoopedTo(m, src, a, cmd, |m.caches|)[src := Evicted(m.caches[src], victim)[a := Filled(m, src, a, cmd)]]
  {
    hide Snooped, Filled;
  }

  /** What the first `k` caches have put on the bus. */
  ghost predicate Collected(m: Machine, src: nat, pkt0: Packet, k: nat, pkt: Packet) {
    && (pkt.shared <==> pkt0.cmd == ReadReq && exists j :: 0 <= j < k && HasCopy(m, src, pkt0.addr, j))
    && (pkt.memInhibit <==> exists j :: 0 <= j < k && IsOwner(m, src, pkt0.addr, j))
    && (forall j :: 0 <= j < k && IsOwner(m, src, pkt0.addr, j) ==> pkt.data == m.caches[j][pkt0.addr].data)
  }

  predicate HasCopy(m: Machine, src: nat, a: Addr, k: nat) {
    k < |m.caches| && k != src && a in m.caches[k]
  }

  lemma CollectNothing(m: Machine, src: nat, pkt0: Packet)
    requires !pkt0.shared && !pkt0.memInhibit
    ensures Collected(m, src, pkt0, 0, pkt0)
  {
  }

  /** The next cache answers only if none has, and what it adds is collected. */
  lemma CollectOne(m: Machine, src: nat, pkt0: Packet, k: nat, pkt: Packet)
    requires Collected(m, src, pkt0, k, pkt) && OneOwner(m) && k < |m.caches|
    requires pkt0.cmd.NeedsResponse() && pkt.cmd == pkt0.cmd && pkt.addr == pkt0.addr
    ensures k == src ==> Collected(m, src, pkt0, k + 1, pkt)
    ensures k != src && pkt0.addr in m.caches[k] && m.caches[k][pkt0.addr].dirty ==> !pkt.memInhibit
    ensures k != src ==>
              Collected(m, src, pkt0, k + 1,
                        if pkt0.addr in m.caches[k]
                        then AfterSnoop(m.caches[k][pkt0.addr], pkt).(cmd := pkt0.cmd) else pkt)
    ensures k != src && pkt0.addr in m.caches[k] ==> AfterSnoop(m.caches[k][pkt0.addr], pkt).addr == pkt0.addr
  {
    var a := pkt0.addr;
    if k != src {
      assert HasCopy(m, src, a, k) <==> a in m.caches[k];
      assert IsOwner(m, src, a, k) <==> a in m.caches[k] && m.caches[k][a].dirty;
      assert IsOwner(m, src, a, k) ==> !exists j :: 0 <= j < k && IsOwner(m, src, a, j);
    }
  }

  lemma CollectAll(m: Machine, src: nat, pkt0: Packet, pkt: Packet)
    requires Collected(m, src, pkt0, |m.caches|, pkt) && pkt0.addr in m.memory
    ensures pkt.shared <==> pkt0.cmd == ReadReq && OthersHave(m, src, pkt0.addr)
    ensures pkt.memInhibit <==> OwnedElsewhere(m, src, pkt0.addr)
    ensures pkt.memInhibit ==> pkt.data == Supplied(m, src, pkt0.addr)
    ensures !pkt.memInhibit ==> m.memory[pkt0.addr] == Supplied(m, src, pkt0.addr)
  {
    if OthersHave(m, src, pkt0.addr) {
      var k :| 0 <= k < |m.caches| && k != src && pkt0.addr in m.caches[k];
      assert HasCopy(m, src, pkt0.addr, k);
    }
  }
}
