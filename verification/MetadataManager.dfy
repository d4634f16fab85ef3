/** The metadata manager's side of a token request, for one file: the writer and reader tables, and the
    clients it can reach with revokes. */
module MetadataManager {
  import opened Intervals
  import opened Permissions
  import opened OpenFile
  import opened TokenProtocol
  import Wire

  // ------------------------------------------------------------------ revoking over the clients' tables

  /** The clients `hit` have obeyed the order, once or several times; no other table has changed. */
  ghost predicate Cleared(was: seq<Tokens>, order: Order, hit: set<Client>, now: seq<Tokens>) {
    && |now| == |was|
    && forall h :: 0 <= h < |now| ==>
         Separated(now[h]) && if h in hit then Obeyed(order, was[h], now[h]) else now[h] == was[h]
  }

  lemma ClearOneMore(was: seq<Tokens>, order: Order, hit: set<Client>, now: seq<Tokens>, h: Client, t: Tokens)
    requires Cleared(was, order, hit, now) && h < |now| && Separated(was[h]) && InBounds(order)
    requires Separated(t) && Obeyed(order, now[h], t)
    ensures Cleared(was, order, hit + {h}, now[h := t])
  {
    if h in hit {
      ObeyTwice(order, was[h], now[h], t);
    }
    hide Obeyed, Separated;
  }

  /** Insert the same value under each key in turn. */
  function InsertAll<T>(m: map<Interval, T>, keys: seq<Interval>, v: T): map<Interval, T> {
    if keys == [] then m else Insert(InsertAll(m, keys[..|keys| - 1], v), keys[|keys| - 1], v)
  }

  lemma InsertAllReplaces<T>(m: map<Interval, T>, it: Interval, cut: Interval)
    requires Separated(m) && it in m && cut.Proper() && Overlaps(it, cut)
    ensures ReplacedByPieces(m, it, cut, InsertAll(m - {it}, SubtractInterval(it, cut), m[it]))
  {
    var rest := m - {it};
    if it.Within(cut) {
      NoPiece(m, it, cut);
    } else if cut.lo <= it.lo {
      var a := Interval(cut.hi + 1, it.hi);
      assert SubtractInterval(it, cut) == [a] && [a][..0] == [];
      assert InsertAll(rest, [a], m[it]) == Insert(InsertAll(rest, [], m[it]), a, m[it]);
      RightPiece(m, it, cut);
    } else if it.hi <= cut.hi {
      var a := Interval(it.lo, cut.lo - 1);
      assert SubtractInterval(it, cut) == [a] && [a][..0] == [];
      assert InsertAll(rest, [a], m[it]) == Insert(InsertAll(rest, [], m[it]), a, m[it]);
      LeftPiece(m, it, cut);
    } else {
      var a, b := Interval(it.lo, cut.lo - 1), Interval(cut.hi + 1, it.hi);
      assert SubtractInterval(it, cut) == [a, b] && [a, b][..1] == [a] && [a][..0] == [];
      assert InsertAll(rest, [a], m[it]) == Insert(InsertAll(rest, [], m[it]), a, m[it]);
      assert InsertAll(rest, [a, b], m[it]) == Insert(InsertAll(rest, [a], m[it]), b, m[it]);
      BothPieces(m, it, cut);
    }
  }

  class FileEntry {
    const fileName: string
    var writers: map<Interval, Client>
    var readers: seq<Reader>
    var spare: nat  // room in the vector of readers behind its last entry
    const clients: seq<Entry>

    ghost predicate Valid()
      reads this, clients
    {
      && ' ' !in fileName
      && (forall g, h :: 0 <= g < h < |clients| ==> clients[g] != clients[h])
      && (forall h :: 0 <= h < |clients| ==> clients[h].name == fileName && Separated(clients[h].tokens))
      && Separated(writers)
      && (forall k :: k in writers ==> writers[k] < |clients|)
      && (forall r :: r in readers ==> r.span.Proper() && r.holder < |clients|)
    }

    ghost function Tables(): (t: seq<Tokens>)
      reads clients
      ensures |t| == |clients| && forall h :: 0 <= h < |t| ==> t[h] == clients[h].tokens
    {
      seq(|clients|, h requires 0 <= h < |clients| reads clients => clients[h].tokens)
    }

    ghost function View(): System
      reads this, clients
    {
      System(writers, readers, spare, Tables())
    }

    /** What every holder hears of a revoke for this request. */
    ghost function Order(interval: Interval, mode: Mode): Order {
      OrderFor(AsWritten(fileName), interval, mode)
    }

    lemma ViewParts()
      requires Valid()
      ensures Named(AsWritten(fileName)) && ' ' !in fileName
      ensures Separated(writers) && |View().tables| == |clients|
      ensures View().tables == Tables() && forall h :: 0 <= h < |clients| ==> View().tables[h] == clients[h].tokens
      ensures forall h :: 0 <= h < |clients| ==> Separated(View().tables[h])
    {
    }

    constructor (fileName: string, clients: seq<Entry>, capacity: nat)
      requires ' ' !in fileName
      requires forall g, h :: 0 <= g < h < |clients| ==> clients[g] != clients[h]
      requires forall h :: 0 <= h < |clients| ==> clients[h].name == fileName && clients[h].tokens == map[]
      ensures this.clients == clients && this.fileName == fileName && Valid() && Initial(View())
    {
      this.fileName := fileName;
      writers, readers, spare := map[], [], capacity;
      this.clients := clients;
    }

    /** The text of a revoke, as the request's mode has it. */
    method RevokeMessage(interval: Interval, mode: Mode) returns (message: string)
      ensures message == RevokeText(fileName, interval, mode)
    {
      match mode {
        case R => message := Wire.RevokeForReader(fileName, interval.lo, interval.hi, 'r');
        case W => message := Wire.RevokeForWriter(interval.lo, interval.hi, 'w');
      }
    }

    /** The holder looks for the file it has understood. */
    method Deliver(holder: Client, file: string, start: nat, end: nat, mode: Mode)
      requires Valid() && holder < |clients| && start <= MAX_BLOCK && end <= MAX_BLOCK
      modifies clients[holder]
      ensures Valid() && Separated(clients[holder].tokens)
      ensures Tables() == old(Tables())[holder := clients[holder].tokens]
      ensures Obeyed(if file == fileName then GiveUp(start, end) else NotMine,
                     old(clients[holder].tokens), clients[holder].tokens)
    {
      ghost var tables := Tables();
      hide Removed, Separated;
      var response := clients[holder].RevokePermission(file, start, end, mode);
      assert Tables() == tables[holder := clients[holder].tokens];
    }

    /** A revoke message, from the server's text to the holder's table; `false` is the undefined case of an
        overrun buffer.  No holder ever answers "nack". */
    method Revoke(holder: Client, interval: Interval, mode: Mode) returns (ok: bool)
      requires Valid() && holder < |clients| && interval.Proper()
      modifies clients[holder]
      ensures Valid() && (ok <==> Order(interval, mode) != Overrun)
      ensures Tables() == old(Tables())[holder := clients[holder].tokens]
      ensures Separated(clients[holder].tokens)
      ensures ok ==> Obeyed(Order(interval, mode), old(clients[holder].tokens), clients[holder].tokens)
      ensures !ok ==> Tables() == old(Tables())
    {
      assert ' ' !in fileName && Separated(clients[holder].tokens);
      assert Tables()[holder := clients[holder].tokens] == Tables();
      assert Obeyed(NotMine, clients[holder].tokens, clients[holder].tokens);
      hide *;
      var message := RevokeMessage(interval, mode);
      var heard := Wire.ReceiveRevoke(message);
      HeardAsOrdered(fileName, interval, mode, heard);
      OrderIs(interval, mode);
      ok := heard != Wire.Undefined;
      if heard.Understood? {
        Deliver(holder, heard.call.file, heard.call.start, heard.call.end, mode);
      }
    }

    lemma OrderIs(interval: Interval, mode: Mode)
      ensures Order(interval, mode) == OrderFor(AsWritten(fileName), interval, mode)
    {
    }

    /** Revoke one writer entry: its holder does as it understood, and only the pieces stay in the table. */
    method RevokeWriter(it: Interval, interval: Interval, mode: Mode) returns (ok: bool)
      requires Valid() && it in writers && interval.Proper() && Overlaps(it, interval)
      modifies this`writers, clients
      ensures Valid() && (ok <==> Order(interval, mode) != Overrun)
      ensures ok ==> ReplacedByPieces(old(writers), it, interval, writers)
      ensures ok ==> var h := old(writers)[it];
                     && Tables() == old(Tables())[h := clients[h].tokens]
                     && Separated(clients[h].tokens)
                     && Obeyed(Order(interval, mode), old(Tables())[h], clients[h].tokens)
      ensures !ok ==> writers == old(writers) && Tables() == old(Tables())
    {
      ok := Revoke(writers[it], interval, mode);
      if ok {
        CutWriter(it, interval);
      }
    }

    /** Take the interval out of one writer entry; the pieces stay with their holder. */
    method CutWriter(it: Interval, interval: Interval)
      requires Valid() && it in writers && interval.Proper() && Overlaps(it, interval)
      modifies this`writers
      ensures Valid() && ReplacedByPieces(old(writers), it, interval, writers)
    {
      ghost var before := writers;
      var holder := writers[it];
      var sub := SubtractInterval(it, interval);
      writers := writers - {it};
      for n := 0 to |sub|
        invariant writers == InsertAll(before - {it}, sub[..n], holder)
      {
        assert sub[..n + 1][..n] == sub[..n];
        writers := Insert(writers, sub[n], holder);
      }
      assert sub[..|sub|] == sub;
      InsertAllReplaces(before, it, interval);
      PiecesMeaning(before, it, interval, writers);
    }

    /** The loop over the writers, the same for both modes. */
    method RevokeWriters(interval: Interval, mode: Mode) returns (ok: bool)
      requires Valid() && interval.Proper()
      modifies this`writers, clients
      ensures Valid()
      ensures ok <==> WritersHit(old(writers), interval) == {} || Order(interval, mode) != Overrun
      ensures ok ==> IsCarved(old(writers), interval, writers)
      ensures ok ==> Cleared(old(Tables()), Order(interval, mode), WritersHit(old(writers), interval), Tables())
    {
      ghost var was, tables, hit: set<Client> := writers, Tables(), {};
      ghost var order := Order(interval, mode);
      OrderIsInBounds(AsWritten(fileName), interval, mode);
      RevokingStarts(was, interval, tables, order);
      hide *;
      while Find(writers, interval).Some?
        invariant Valid() && Separated(writers)
        invariant Revoking(was, interval, tables, order, hit, writers, Tables())
        invariant order == Order(interval, mode) && (hit != {} ==> order != Overrun)
        decreases OverlapKeys(writers, interval)
      {
        ghost var before, tables0 := writers, Tables();
        var it := Find(writers, interval).value;
        WriterIsHit(was, interval, tables, order, hit, writers, Tables(), it);
        ok := RevokeWriter(it, interval, mode);
        if !ok {
          return;
        }
        RevokingStep(was, interval, tables, order, hit, before, tables0, it, writers, Tables());
        hit := hit + {before[it]};
      }
      RevokingDone(was, interval, tables, order, hit, writers, Tables());
      ok := true;
    }

    /** Revoke the reader entry under the iterator, erase it and push its pieces at the back; `false` if the
        vector has to reallocate for them. */
    method RevokeReader(j: nat, interval: Interval, mode: Mode) returns (ok: bool)
      requires Valid() && j < |readers| && interval.Proper() && Order(interval, mode) != Overrun
      modifies this`readers, this`spare, clients
      ensures Valid() && (ok <==> |PiecesOf(old(readers)[j], interval)| <= old(spare) + 1)
      ensures ok ==> readers == old(readers[..j] + readers[j + 1..] + PiecesOf(readers[j], interval))
      ensures ok ==> spare == old(spare) + 1 - |PiecesOf(old(readers)[j], interval)|
      ensures ok ==> spare + |readers| == old(spare) + |old(readers)|
      ensures ok ==> var h := old(readers)[j].holder;
                     && Tables() == old(Tables())[h := clients[h].tokens]
                     && Separated(clients[h].tokens)
                     && Obeyed(Order(interval, mode), old(Tables())[h], clients[h].tokens)
    {
      var r := readers[j];
      PiecesOfMeaning(r, interval);
      hide PiecesOf, Obeyed, OrderFor, Separated;
      ok := Revoke(r.holder, interval, mode);
      EraseReader(j);
      ok := PushPieces(PiecesOf(r, interval));
    }

    method EraseReader(j: nat)
      requires Valid() && j < |readers|
      modifies this`readers, this`spare
      ensures Valid() && readers == old(readers)[..j] + old(readers)[j + 1..] && spare == old(spare) + 1
    {
      readers := readers[..j] + readers[j + 1..];
      spare := spare + 1;
    }

    /** The loop that pushes the pieces; it stops where a push would reallocate. */
    method PushPieces(pieces: seq<Reader>) returns (ok: bool)
      requires Valid() && forall p :: p in pieces ==> p.span.Proper() && p.holder < |clients|
      modifies this`readers, this`spare
      ensures Valid() && (ok <==> |pieces| <= old(spare))
      ensures ok ==> readers == old(readers) + pieces && spare == old(spare) - |pieces|
    {
      ghost var before := readers;
      for n := 0 to |pieces|
        invariant Valid() && readers == before + pieces[..n] && spare + n == old(spare)
      {
        if spare == 0 {
          return false;
        }
        assert pieces[..n + 1] == pieces[..n] + [pieces[n]];
        readers := readers + [pieces[n]];
        spare := spare - 1;
      }
      assert pieces[..|pieces|] == pieces;
      return true;
    }

    /** One turn of that loop at an overlapping entry, told by the scan. */
    method RevokeUnderIterator(j: nat, interval: Interval, mode: Mode, ghost was: seq<Reader>,
                               ghost tables: seq<Tokens>, ghost scan: Scan)
        returns (ok: bool)
      requires Valid() && interval.Proper() && Order(interval, mode) != Overrun && j < |readers|
      requires Skimming(was, tables, interval, Order(interval, mode), scan, Tables()) && InPlace(readers, scan, j)
      requires Overlaps(interval, readers[j].span)
      modifies this`readers, this`spare, clients
      ensures Valid() && scan.rest != [] && (ok ==> spare + |readers| == old(spare) + |old(readers)|)
      ensures if ok
              then Turned(was, tables, interval, Order(interval, mode), scan, j, old(spare), readers, spare, Tables())
              else SkimReallocates(scan.rest, interval, old(spare))
    {
      ghost var order, tables0, readers0, room := Order(interval, mode), Tables(), readers, spare;
      UnderIterator(was, tables, interval, order, scan, Tables(), readers, j);
      hide *;
      ok := RevokeReader(j, interval, mode);
      RoomForPieces(scan, interval, room);
      if ok {
        TurnDone(was, tables, interval, order, scan, tables0, j, room, readers0, readers, spare, Tables());
      }
    }

    /** The loop over the readers, as written: `j` is the iterator.  Erasing leaves it on the next entry,
        the loop header then advances it, and pieces are pushed at the back.  The loop goes wrong when the
        iterator leaves the vector or the vector reallocates, where the program's behaviour is undefined. */
    method RevokeReaders(interval: Interval, mode: Mode) returns (ok: bool)
      requires Valid() && interval.Proper() && Order(interval, mode) != Overrun
      modifies this`readers, this`spare, clients
      ensures Valid()
      ensures ok <==> !SkimRunsPastEnd(old(readers), interval) && !SkimReallocates(old(readers), interval, old(spare))
      ensures ok ==> readers == ReadersAfter(LoopsAsWritten, old(readers), interval)
      ensures ok ==> spare + |readers| == old(spare) + |old(readers)|
      ensures ok ==> Cleared(old(Tables()), Order(interval, mode), ReadersHit(LoopsAsWritten, old(readers), interval),
                             Tables())
    {
      ghost var was, tables := readers, Tables();
      ghost var scan := Scan([], readers, [], {}, false);
      ghost var order, room := Order(interval, mode), spare;
      var j := 0;
      OrderIsInBounds(AsWritten(fileName), interval, mode);
      SkimmingStarts(was, tables, interval, order);
      hide *;
      while j != |readers|
        invariant Valid() && Skimming(was, tables, interval, order, scan, Tables()) && InPlace(readers, scan, j)
        invariant order == Order(interval, mode) && (scan.erasedLast ==> scan.cuttings != [])
        invariant SkimReallocates(was, interval, room) == SkimReallocates(scan.rest, interval, spare)
        invariant spare + |readers| == room + |was|
        decreases |scan.rest|, |readers| - j
      {
        InRange(readers, scan, j);
        if Overlaps(interval, readers[j].span) {
          ghost var spare0 := spare;
          ok := RevokeUnderIterator(j, interval, mode, was, tables, scan);
          if !ok {
            return;
          }
          TurnedParts(was, tables, interval, order, scan, j, spare0, readers, spare, Tables());
          scan := EraseAndSkip(scan, interval);
        } else if scan.rest != [] {
          PassingSkims(was, tables, interval, order, scan, Tables(), readers, j);
          RoomUnused(readers, scan, interval, spare, j);
          scan := PassOver(scan);
        } else {
          NothingLeft(readers, scan, j);
        }
        j := j + 1;
        if j > |readers| {
          SkimmingDone(was, tables, interval, order, scan, Tables(), readers, j);
          return false;
        }
      }
      SkimmingDone(was, tables, interval, order, scan, Tables(), readers, j);
      NoRoomNeeded(interval, spare);
      return true;
    }

    /** `execFunc_request_token` once the file entry is found and locked.  The answer is the interval asked
        for; `None` stands for the undefined cases. */
    method RequestToken(interval: Interval, mode: Mode, client: Client) returns (answer: Option<Interval>)
      requires Valid() && interval.Proper() && client < |clients|
      modifies this`writers, this`readers, this`spare, clients
      ensures Valid()
      ensures answer == None <==> GoesWrong(AsWritten(fileName), old(View()), interval, mode)
      ensures answer.Some? ==>
                answer.value == interval && ServerSide(fileName, old(View()), client, interval, mode, View())
      ensures answer.Some? ==> Recorded(old(View()), client, interval, mode, View())
    {
      ghost var s := View();
      assert Separated(s.writers);
      hide *;
      var ok;
      match mode {
        case R => ok := ServeRead(interval, client);
        case W => ok := ServeWrite(interval, client);
      }
      answer := if ok then Some(interval) else None;
      if ok {
        ServedIsRecorded(fileName, s, client, interval, mode, View());
      }
    }

    /** The branch for a client that wants to read. */
    method ServeRead(interval: Interval, client: Client) returns (ok: bool)
      requires Valid() && interval.Proper() && client < |clients|
      modifies this`writers, this`readers, this`spare, clients
      ensures Valid() && (ok <==> !GoesWrong(AsWritten(fileName), old(View()), interval, R))
      ensures ok ==> ServerSide(fileName, old(View()), client, interval, R, View())
    {
      ghost var s := View();
      assert s.writers == writers && s.readers == readers && s.spare == spare && ' ' !in fileName;
      hide *;
      WhatGoesWrong(fileName, s, interval, R);
      OrderIs(interval, R);
      ok := RevokeWriters(interval, R);
      if ok {
        AddReader(interval, client);
        ReadServed(fileName, s, client, interval, View());
      }
    }

    /** The branch for a client that wants to write. */
    method ServeWrite(interval: Interval, client: Client) returns (ok: bool)
      requires Valid() && interval.Proper() && client < |clients|
      modifies this`writers, this`readers, this`spare, clients
      ensures Valid() && (ok <==> !GoesWrong(AsWritten(fileName), old(View()), interval, W))
      ensures ok ==> ServerSide(fileName, old(View()), client, interval, W, View())
    {
      ghost var was, s := writers, View();
      assert s.writers == writers && s.readers == readers && s.spare == spare && ' ' !in fileName;
      assert Separated(writers) && forall h :: 0 <= h < |s.tables| ==> Separated(s.tables[h]);
      hide *;
      WhatGoesWrong(fileName, s, interval, W);
      OrderIs(interval, W);
      ok := RevokeWriters(interval, W);
      ok := RevokeReadersAfter(interval, WritersHit(was, interval), s);
      if ok {
        AddWriter(was, interval, client);
        WriteServed(fileName, s, client, interval, View());
      }
    }

    /** A push at the back; how far a full vector grows is up to the library. */
    method AddReader(interval: Interval, client: Client)
      requires Valid() && interval.Proper() && client < |clients|
      modifies this`readers, this`spare
      ensures Valid() && readers == old(readers) + [Reader(interval, client)]
      ensures old(spare) > 0 ==> spare == old(spare) - 1
    {
      readers := readers + [Reader(interval, client)];
      if spare == 0 {
        spare := *;
      } else {
        spare := spare - 1;
      }
    }

    method AddWriter(ghost was: map<Interval, Client>, interval: Interval, client: Client)
      requires Valid() && interval.Proper() && client < |clients| && Separated(was) && IsCarved(was, interval, writers)
      modifies this`writers
      ensures Valid() && interval in writers && writers[interval] == client && writers - {interval} == old(writers)
    {
      CarvedAt(was, interval, writers);
      hide IsCarved, At;
      AtInsert(writers, interval, client);
      writers := Insert(writers, interval, client);
    }

    /** The readers' turn, once the writers have had theirs: together they have cleared both kinds of holder. */
    method RevokeReadersAfter(interval: Interval, ghost first: set<Client>, ghost s: System) returns (ok: bool)
      requires Valid() && interval.Proper() && Order(interval, W) != Overrun && s.readers == readers
      requires Cleared(s.tables, Order(interval, W), first, Tables())
      requires forall h :: 0 <= h < |s.tables| ==> Separated(s.tables[h])
      modifies this`readers, this`spare, clients
      ensures Valid()
      ensures ok <==> !SkimRunsPastEnd(old(readers), interval) && !SkimReallocates(old(readers), interval, old(spare))
      ensures ok ==> readers == ReadersAfter(LoopsAsWritten, old(readers), interval)
      ensures ok ==> spare + |readers| == old(spare) + |old(readers)|
      ensures ok ==> Cleared(s.tables, Order(interval, W), first + ReadersHit(LoopsAsWritten, s.readers, interval),
                             Tables())
    {
      ghost var order, mid := Order(interval, W), Tables();
      OrderIsInBounds(AsWritten(fileName), interval, W);
      OrderIs(interval, W);
      hide Cleared, OrderFor, ReadersAfter, ReadersHit, SkimRunsPastEnd, SkimReallocates, Separated;
      ok := RevokeReaders(interval, W);
      if !ok {
        return;
      }
      ClearedInTurn(s.tables, order, first, mid, ReadersHit(LoopsAsWritten, s.readers, interval), Tables());
    }

    /** One request from start to finish: the server serves it and the grant is added to the client's table,
        whatever the client holds.  `mid` is that table once the revokes have been obeyed.

        The adding loop hangs or clobbers exactly as it does on `mid`; the request is a step of the protocol
        exactly when it does not clobber (hanging, it leaves a table that is the join already).  A client that
        had no permission on the range meets neither. */
    method ServeAndDeliver(interval: Interval, mode: Mode, client: Client)
        returns (served: bool, outcome: Outcome, ghost mid: Tokens)
      requires Valid() && interval.Proper() && client < |clients|
      modifies this`writers, this`readers, this`spare, clients
      ensures Valid()
      ensures served <==> !GoesWrong(AsWritten(fileName), old(View()), interval, mode)
      ensures served ==>
                if client in HitBy(AsWritten(fileName), old(View()), interval, mode)
                then Obeyed(Order(interval, mode), old(clients[client].tokens), mid)
                else mid == old(clients[client].tokens)
      ensures served ==> (outcome == Returned <==> !Hangs(mid, interval, mode))
      ensures served ==> (Step(AsWritten(fileName), old(View()), client, interval, mode, View()) <==>
                          Hangs(mid, interval, mode) || !Clobbers(mid, interval, mode))
      ensures served && Free(old(clients[client].tokens), interval) ==> AddIsExact(mid, interval, mode)
    {
      ghost var was := View();
      ViewParts();
      hide *;
      served, outcome, mid := false, Returned, map[];
      var answer := RequestToken(interval, mode, client);
      if answer == None {
        return;
      }
      served := true;
      outcome, mid := DeliverGrant(answer.value, mode, client, was);
    }

    /** The grant reaches the client, whose table the revokes have left as `mid`. */
    method DeliverGrant(interval: Interval, mode: Mode, client: Client, ghost was: System)
        returns (outcome: Outcome, ghost mid: Tokens)
      requires Valid() && interval.Proper() && client < |clients| == |was.tables|
      requires forall h :: 0 <= h < |was.tables| ==> Separated(was.tables[h])
      requires !GoesWrong(AsWritten(fileName), was, interval, mode)
      requires ServerSide(fileName, was, client, interval, mode, View())
      modifies clients[client]
      ensures Valid()
      ensures if client in HitBy(AsWritten(fileName), was, interval, mode)
              then Obeyed(Order(interval, mode), was.tables[client], mid) else mid == was.tables[client]
      ensures outcome == Returned <==> !Hangs(mid, interval, mode)
      ensures Step(AsWritten(fileName), was, client, interval, mode, View()) <==>
              Hangs(mid, interval, mode) || !Clobbers(mid, interval, mode)
      ensures Free(was.tables[client], interval) ==> AddIsExact(mid, interval, mode)
    {
      ghost var hit, order := HitBy(AsWritten(fileName), was, interval, mode), Order(interval, mode);
      ViewParts();
      OrderIsInBounds(AsWritten(fileName), interval, mode);
      OrderIs(interval, mode);
      hide GoesWrong, ServerSide, HitBy, OrderFor, Cleared, TablesServed, Separated, JoinedOn, Hangs, Clobbers,
           Free, Step;
      ghost var served', tables := View(), Tables();
      ClearedTables(fileName, was, client, interval, mode, served');
      mid := clients[client].tokens;
      ClearedAt(was.tables, order, hit, tables, client);
      if Free(was.tables[client], interval) {
        StillFree(was.tables, order, hit, tables, interval, client, mode);
      }
      outcome := AddGrant(interval, mode, client);
      ServedTablesIff(was.tables, client, interval, mode, order, hit, tables, Tables());
      StepIffServed(fileName, was, client, interval, mode, served', View());
    }

    /** The grant reaches the client that asked, which adds it. */
    method AddGrant(granted: Interval, mode: Mode, client: Client) returns (outcome: Outcome)
      requires Valid() && granted.Proper() && client < |clients|
      modifies clients[client]
      ensures Valid() && Separated(clients[client].tokens)
      ensures Tables() == old(Tables())[client := clients[client].tokens]
      ensures outcome == Returned <==> !Hangs(old(clients[client].tokens), granted, mode)
      ensures JoinedOn(old(clients[client].tokens), granted, mode, clients[client].tokens) <==>
              Hangs(old(clients[client].tokens), granted, mode) || !Clobbers(old(clients[client].tokens), granted, mode)
    {
      ghost var tables := Tables();
      assert Interval(granted.lo, granted.hi) == granted && Separated(clients[client].tokens);
      if Hangs(clients[client].tokens, granted, mode) {
        HangingIsJoined(clients[client].tokens, granted, mode);
      }
      hide JoinedOn, Separated, Free, Hangs, Clobbers;
      outcome := clients[client].AddPermission(granted.lo, granted.hi, mode, |clients[client].tokens|);
      assert Tables() == tables[client := clients[client].tokens];
    }
  }

  /** The holder's own reading of the message is the order of the protocol. */
  lemma HeardAsOrdered(file: string, i: Interval, mode: Mode, heard: Wire.Heard<Wire.RevokeCall>)
    requires ' ' !in file && i.Proper() && heard == Wire.HeardRevoke(RevokeText(file, i, mode))
    ensures RevokeText(file, i, R) == Wire.RevokeForReader(file, i.lo, i.hi, 'r')
    ensures RevokeText(file, i, W) == Wire.RevokeForWriter(i.lo, i.hi, 'w')
    ensures heard.Undefined? <==> OrderFor(AsWritten(file), i, mode) == Overrun
    ensures heard.Understood? ==>
              && 0 <= heard.call.start <= MAX_BLOCK && 0 <= heard.call.end <= MAX_BLOCK
              && OrderFor(AsWritten(file), i, mode) ==
                 if heard.call.file == file then GiveUp(heard.call.start, heard.call.end) else NotMine
    ensures heard.NoSuchCommand? ==> OrderFor(AsWritten(file), i, mode) == NotMine
  {
    Wire.ReaderRevokeRoundTripIff(file, i.lo, i.hi, 'r');
    Wire.WriterRevokeFits(i.lo, i.hi);
    Wire.WriterRevokeIsMisread(file, i.lo, i.hi);
    UnfoldOrder(file, i);
    hide Wire.HeardRevoke, Wire.RevokeForReader, Wire.RevokeForWriter;
    match mode { case R => case W => }
  }

  /** The undefined cases, in the order in which the request can meet them. */
  lemma WhatGoesWrong(file: string, s: System, i: Interval, mode: Mode)
    requires ' ' !in file && i.Proper()
    ensures HitBy(AsWritten(file), s, i, R) == WritersHit(s.writers, i)
    ensures HitBy(AsWritten(file), s, i, W) == WritersHit(s.writers, i) + ReadersHit(LoopsAsWritten, s.readers, i)
    ensures OrderFor(AsWritten(file), i, W) != Overrun
    ensures GoesWrong(AsWritten(file), s, i, R) <==>
              WritersHit(s.writers, i) != {} && OrderFor(AsWritten(file), i, R) == Overrun
    ensures GoesWrong(AsWritten(file), s, i, W) <==>
              SkimRunsPastEnd(s.readers, i) || SkimReallocates(s.readers, i, s.spare)
    ensures ReadersAfter(AsWritten(file), s.readers, i) == ReadersAfter(LoopsAsWritten, s.readers, i)
  {
    hide OrderFor, WritersHit, SkimRunsPastEnd, SkimReallocates, SkimHit, SkimKept, SkimCuttings, Wire.Printed,
         Wire.Decimal, InBounds;
    OrderIsInBounds(AsWritten(file), i, W);
    WhoIsHit(AsWritten(file), s, i);
    hide HitBy;
  }

  lemma WhoIsHit(code: Code, s: System, i: Interval)
    ensures HitBy(code, s, i, R) == WritersHit(s.writers, i)
    ensures HitBy(code, s, i, W) == WritersHit(s.writers, i) + ReadersHit(code, s.readers, i)
  {
    hide WritersHit, ReadersHit;
  }

  lemma StillFree(was: seq<Tokens>, order: Order, hit: set<Client>, now: seq<Tokens>, i: Interval, c: Client,
                  mode: Mode)
    requires Cleared(was, order, hit, now) && c < |was| && InBounds(order) && i.Proper()
    requires Separated(was[c]) && Free(was[c], i)
    ensures Free(now[c], i) && AddIsExact(now[c], i, mode)
  {
    NoneInside(was[c], i);
    if c in hit {
      ObeyedAt(order, was[c], now[c]);
    }
    hide At, Obeyed, GivesUp;
    FreeIsExact(now[c], i, mode);
  }

  /** A request served, up to the delivery of the grant: the server's tables as in a step of the protocol, and
      the holders' tables as the holders have obeyed. */
  ghost predicate ServerSide(file: string, s: System, c: Client, i: Interval, mode: Mode, s': System) {
    && RoomAfter(AsWritten(file), s, mode, s')
    && Cleared(s.tables, OrderFor(AsWritten(file), i, mode), HitBy(AsWritten(file), s, i, mode), s'.tables)
    && match mode
       case R =>
         && IsCarved(s.writers, i, s'.writers)
         && s'.readers == s.readers + [Reader(i, c)]
       case W =>
         && i in s'.writers && s'.writers[i] == c && IsCarved(s.writers, i, s'.writers - {i})
         && s'.readers == ReadersAfter(AsWritten(file), s.readers, i)
  }

  /** What the server's tables say of each block afterwards, and which clients have not been written to: those
      that stand in nobody's way. */
  ghost predicate Recorded(s: System, c: Client, i: Interval, mode: Mode, s': System) {
    && (forall b: nat :: At(s'.writers, b) ==
          if !i.Has(b) then At(s.writers, b) else if mode == W then Some(c) else None)
    && (mode == R ==> s'.readers == s.readers + [Reader(i, c)])
    && |s'.tables| == |s.tables|
    && (forall h :: 0 <= h < |s.tables| && !InTheWay(s, h, i, mode) ==> s'.tables[h] == s.tables[h])
  }

  /** The server has recorded the client as a writer, or for a write as a reader, of a block of the interval. */
  ghost predicate InTheWay(s: System, h: Client, i: Interval, mode: Mode) {
    || (exists k :: k in s.writers && Overlaps(k, i) && s.writers[k] == h)
    || (mode == W && exists r :: r in s.readers && Overlaps(r.span, i) && r.holder == h)
  }

  lemma {:induction false} SkimHitStandsInTheWay(v: seq<Reader>, i: Interval, h: Client)
    requires h in SkimHit(v, i)
    ensures exists r :: r in v && Overlaps(r.span, i) && r.holder == h
  {
    if Overlaps(v[0].span, i) {
      if h == v[0].holder {
        assert v[0] in v;
      } else {
        SkimHitStandsInTheWay(v[2..], i, h);
      }
    } else {
      SkimHitStandsInTheWay(v[1..], i, h);
    }
  }

  lemma ServedIsRecorded(file: string, s: System, c: Client, i: Interval, mode: Mode, s': System)
    requires ServerSide(file, s, c, i, mode, s') && Separated(s.writers) && i.Proper()
    ensures Recorded(s, c, i, mode, s')
  {
    match mode {
      case R =>
        CarvedAt(s.writers, i, s'.writers);
      case W =>
        var rest := s'.writers - {i};
        CarvedAt(s.writers, i, rest);
        AtInsert(rest, i, c);
        assert s'.writers == rest[i := c];
    }
    forall h | 0 <= h < |s.tables| && !InTheWay(s, h, i, mode)
      ensures h !in HitBy(AsWritten(file), s, i, mode)
    {
      if mode == W && h in SkimHit(s.readers, i) {
        SkimHitStandsInTheWay(s.readers, i, h);
      }
    }
    hide IsCarved, At, HitBy, InTheWay, RoomAfter, OrderFor;
  }

  lemma ReadServed(file: string, s: System, c: Client, i: Interval, s': System)
    requires IsCarved(s.writers, i, s'.writers) && s'.readers == s.readers + [Reader(i, c)]
    requires s.spare > 0 ==> s'.spare == s.spare - 1
    requires Cleared(s.tables, OrderFor(AsWritten(file), i, R), HitBy(AsWritten(file), s, i, R), s'.tables)
    ensures ServerSide(file, s, c, i, R, s')
  {
    hide IsCarved, Cleared, OrderFor, HitBy;
  }

  lemma WriteServed(file: string, s: System, c: Client, i: Interval, s': System)
    requires i in s'.writers && s'.writers[i] == c && IsCarved(s.writers, i, s'.writers - {i})
    requires s'.readers == ReadersAfter(AsWritten(file), s.readers, i)
    requires s'.spare + |s'.readers| == s.spare + |s.readers|
    requires Cleared(s.tables, OrderFor(AsWritten(file), i, W), HitBy(AsWritten(file), s, i, W), s'.tables)
    ensures ServerSide(file, s, c, i, W, s')
  {
    hide IsCarved, Cleared, OrderFor, HitBy, ReadersAfter;
  }

  lemma ClearedTables(file: string, s: System, c: Client, i: Interval, mode: Mode, s': System)
    requires ServerSide(file, s, c, i, mode, s')
    ensures Cleared(s.tables, OrderFor(AsWritten(file), i, mode), HitBy(AsWritten(file), s, i, mode), s'.tables)
  {
    hide Cleared, RoomAfter, IsCarved, OrderFor, HitBy, ReadersAfter;
  }

  /** What is left of a step once the server's side is done: the client tables. */
  lemma StepIffServed(file: string, s: System, c: Client, i: Interval, mode: Mode, mid: System, s': System)
    requires c < |s.tables| && i.Proper() && !GoesWrong(AsWritten(file), s, i, mode)
    requires ServerSide(file, s, c, i, mode, mid) && s' == mid.(tables := s'.tables)
    ensures Step(AsWritten(file), s, c, i, mode, s') <==>
            TablesServed(s.tables, c, i, mode, OrderFor(AsWritten(file), i, mode), HitBy(AsWritten(file), s, i, mode),
                         s'.tables)
  {
    hide TablesServed, GoesWrong, IsCarved, Cleared, ReadersAfter, OrderFor, HitBy;
    match mode { case R => case W => }
  }

  lemma ClearedAt(was: seq<Tokens>, order: Order, hit: set<Client>, now: seq<Tokens>, c: Client)
    requires Cleared(was, order, hit, now) && c < |was|
    ensures |now| == |was|
    ensures if c in hit then Obeyed(order, was[c], now[c]) else now[c] == was[c]
  {
    hide Obeyed, Separated;
  }

  /** The tables after the revokes and the grant are those of a step exactly when the grant is a join. */
  lemma ServedTablesIff(was: seq<Tokens>, c: Client, i: Interval, mode: Mode, order: Order, hit: set<Client>,
                        mid: seq<Tokens>, now: seq<Tokens>)
    requires Cleared(was, order, hit, mid) && InBounds(order) && forall h :: 0 <= h < |was| ==> Separated(was[h])
    requires c < |mid| == |now| && now == mid[c := now[c]] && Separated(now[c])
    ensures TablesServed(was, c, i, mode, order, hit, now) <==> JoinedOn(mid[c], i, mode, now[c])
  {
    hide Separated, Obeyed, GivesUp, At;
    forall h, b: nat | 0 <= h < |now|
      ensures AfterRequest(was[h], order, hit, h, c, i, mode, b) ==
              if h == c then Joined(mid[h], i, mode, b) else At(now[h], b)
    {
      if h in hit {
        ObeyedAt(order, was[h], mid[h]);
      }
    }
  }

  lemma ClearedInTurn(was: seq<Tokens>, order: Order, first: set<Client>, mid: seq<Tokens>, second: set<Client>,
                      now: seq<Tokens>)
    requires Cleared(was, order, first, mid) && Cleared(mid, order, second, now) && InBounds(order)
    requires forall h :: 0 <= h < |was| ==> Separated(was[h])
    ensures Cleared(was, order, first + second, now)
  {
    hide Separated, Obeyed;
    forall h | 0 <= h < |now|
      ensures Separated(now[h])
      ensures if h in first + second then Obeyed(order, was[h], now[h]) else now[h] == was[h]
    {
      if h in first && h in second {
        ObeyTwice(order, was[h], mid[h], now[h]);
      }
    }
  }

  // ------------------------------------------------------------------ the writer loop's invariant

  ghost predicate Revoking(was: map<Interval, Client>, cut: Interval, tables: seq<Tokens>, order: Order,
                           hit: set<Client>, now: map<Interval, Client>, nowTables: seq<Tokens>) {
    && Separated(was) && cut.Proper() && InBounds(order) && PartlyCarved(was, cut, now)
    && (forall k :: k in was ==> was[k] < |tables|)
    && (forall h :: 0 <= h < |tables| ==> Separated(tables[h]))
    && Cleared(tables, order, hit, nowTables)
    && hit <= WritersHit(was, cut)
    && (forall k :: k in was && Overlaps(k, cut) ==> k in now || was[k] in hit)
  }

  lemma RevokingStarts(was: map<Interval, Client>, cut: Interval, tables: seq<Tokens>, order: Order)
    requires Separated(was) && cut.Proper() && InBounds(order) && forall k :: k in was ==> was[k] < |tables|
    requires forall h :: 0 <= h < |tables| ==> Separated(tables[h])
    ensures Revoking(was, cut, tables, order, {}, was, tables)
  {
  }

  lemma WriterIsHit(was: map<Interval, Client>, cut: Interval, tables: seq<Tokens>, order: Order, hit: set<Client>,
                    now: map<Interval, Client>, nowTables: seq<Tokens>, it: Interval)
    requires Revoking(was, cut, tables, order, hit, now, nowTables) && Separated(now) && Find(now, cut) == Some(it)
    ensures it in now && Overlaps(it, cut) && cut.Proper() && WritersHit(was, cut) != {}
  {
    OverlappedIsUntouched(was, cut, now, it);
    assert was[it] in WritersHit(was, cut);
  }

  lemma RevokingStep(was: map<Interval, Client>, cut: Interval, tables: seq<Tokens>, order: Order, hit: set<Client>,
                     before: map<Interval, Client>, tables0: seq<Tokens>, it: Interval,
                     now: map<Interval, Client>, nowTables: seq<Tokens>)
    requires Revoking(was, cut, tables, order, hit, before, tables0) && it in before && Overlaps(it, cut)
    requires ReplacedByPieces(before, it, cut, now)
    requires before[it] < |tables0| == |nowTables| && nowTables == tables0[before[it] := nowTables[before[it]]]
    requires Separated(nowTables[before[it]]) && Obeyed(order, tables0[before[it]], nowTables[before[it]])
    ensures Revoking(was, cut, tables, order, hit + {before[it]}, now, nowTables)
    ensures OverlapKeys(now, cut) < OverlapKeys(before, cut)
  {
    hide Cleared, PartlyCarved, Obeyed, SubtractInterval, OverlapKeys, Separated;
    CarveOne(was, cut, before, it, now);
    ClearOneMore(tables, order, hit, tables0, before[it], nowTables[before[it]]);
  }

  lemma RevokingDone(was: map<Interval, Client>, cut: Interval, tables: seq<Tokens>, order: Order, hit: set<Client>,
                     now: map<Interval, Client>, nowTables: seq<Tokens>)
    requires Revoking(was, cut, tables, order, hit, now, nowTables) && Separated(now) && Find(now, cut).None?
    ensures IsCarved(was, cut, now) && hit == WritersHit(was, cut)
    ensures Cleared(tables, order, WritersHit(was, cut), nowTables)
  {
    CarveDone(was, cut, now);
    assert hit == WritersHit(was, cut);
  }

  // ------------------------------------------------------------------ the reader loop's invariant

  /** How far the pass has come: the entries it has passed or skipped, the old entries it has not reached,
      the pieces pushed at the back, the clients revoked, and whether the last old entry was erased. */
  datatype Scan = Scan(seen: seq<Reader>, rest: seq<Reader>, cuttings: seq<Reader>, hit: set<Client>, erasedLast: bool)

  ghost predicate Skimming(was: seq<Reader>, tables: seq<Tokens>, cut: Interval, order: Order, s: Scan,
                           now: seq<Tokens>) {
    && cut.Proper() && InBounds(order) && OverlapsNone(s.cuttings, cut)
    && (forall r :: r in was ==> r.span.Proper() && r.holder < |tables|)
    && (forall r :: r in s.rest ==> r in was)
    && (forall h :: 0 <= h < |tables| ==> Separated(tables[h]))
    && Cleared(tables, order, s.hit, now)
    && (s.rest != [] ==> !s.erasedLast)
    && SkimKept(was, cut) == s.seen + SkimKept(s.rest, cut)
    && SkimCuttings(was, cut) == s.cuttings + SkimCuttings(s.rest, cut)
    && SkimHit(was, cut) == s.hit + SkimHit(s.rest, cut)
    && SkimErasesLast(was, cut) == (s.erasedLast || SkimErasesLast(s.rest, cut))
  }

  /** The vector is what the scan says, and the iterator stands at the first entry not reached. */
  ghost predicate InPlace(readers: seq<Reader>, s: Scan, j: nat) {
    && readers == s.seen + s.rest + s.cuttings
    && if s.rest != [] then j == |s.seen| else |s.seen| <= j <= |readers|
  }

  lemma SkimmingStarts(was: seq<Reader>, tables: seq<Tokens>, cut: Interval, order: Order)
    requires cut.Proper() && InBounds(order) && forall r :: r in was ==> r.span.Proper() && r.holder < |tables|
    requires forall h :: 0 <= h < |tables| ==> Separated(tables[h])
    ensures Skimming(was, tables, cut, order, Scan([], was, [], {}, false), tables)
    ensures InPlace(was, Scan([], was, [], {}, false), 0)
  {
  }

  lemma InRange(readers: seq<Reader>, s: Scan, j: nat)
    requires InPlace(readers, s, j) && j != |readers|
    ensures j < |readers|
  {
  }

  /** Only an old entry that has not been reached can overlap: the pieces at the back never do. */
  lemma UnderIterator(was: seq<Reader>, tables: seq<Tokens>, cut: Interval, order: Order, s: Scan, now: seq<Tokens>,
                      readers: seq<Reader>, j: nat)
    requires Skimming(was, tables, cut, order, s, now) && InPlace(readers, s, j) && j < |readers|
    requires Overlaps(cut, readers[j].span)
    ensures s.rest != [] && readers[j] == s.rest[0] && Overlaps(s.rest[0].span, cut)
  {
    PiecesMiss(cut, s, readers, j);
    hide Skimming;
  }

  lemma PiecesMiss(cut: Interval, s: Scan, readers: seq<Reader>, j: nat)
    requires OverlapsNone(s.cuttings, cut) && InPlace(readers, s, j) && j < |readers|
    ensures s.rest == [] ==> !Overlaps(cut, readers[j].span)
    ensures s.rest != [] ==> readers[j] == s.rest[0]
  {
    if s.rest == [] {
      assert readers[j] in s.cuttings;
    }
  }

  /** Erase the entry under the iterator; the one behind it is passed over unseen. */
  ghost function EraseAndSkip(s: Scan, cut: Interval): (t: Scan)
    requires s.rest != []
    ensures |t.rest| < |s.rest|
    ensures t.erasedLast ==> t.rest == [] || s.erasedLast
  {
    var cuttings, hit := s.cuttings + PiecesOf(s.rest[0], cut), s.hit + {s.rest[0].holder};
    if |s.rest| == 1 then
      Scan(s.seen, [], cuttings, hit, true)
    else
      Scan(s.seen + [s.rest[1]], s.rest[2..], cuttings, hit, s.erasedLast)
  }

  lemma ErasingSkims(was: seq<Reader>, tables: seq<Tokens>, cut: Interval, order: Order, s: Scan, now: seq<Tokens>,
                     next: seq<Tokens>)
    requires Skimming(was, tables, cut, order, s, now) && s.rest != [] && Overlaps(s.rest[0].span, cut)
    requires var h := s.rest[0].holder;
             && h < |now| == |next| && next == now[h := next[h]]
             && Separated(next[h]) && Obeyed(order, now[h], next[h])
    ensures Skimming(was, tables, cut, order, EraseAndSkip(s, cut), next)
  {
    PiecesOfMeaning(s.rest[0], cut);
    UnfoldSkim(s.rest, cut);
    var h := s.rest[0].holder;
    ClearOneMore(tables, order, s.hit, now, h, next[h]);
    hide SkimKept, SkimCuttings, SkimHit, SkimErasesLast, PiecesOf, Cleared, Obeyed, Separated, Overlaps;
    var pieces := PiecesOf(s.rest[0], cut);
    if |s.rest| > 1 {
      assert s.seen + ([s.rest[1]] + SkimKept(s.rest[2..], cut)) == s.seen + [s.rest[1]] + SkimKept(s.rest[2..], cut);
      var later := SkimCuttings(s.rest[2..], cut);
      assert s.cuttings + (pieces + later) == s.cuttings + pieces + later;
    }
  }

  lemma UnfoldSkim(v: seq<Reader>, cut: Interval)
    requires v != [] && Overlaps(v[0].span, cut)
    ensures var next := if |v| == 1 then [] else v[2..];
            && SkimKept(v, cut) == (if |v| == 1 then [] else [v[1]]) + SkimKept(next, cut)
            && SkimCuttings(v, cut) == PiecesOf(v[0], cut) + SkimCuttings(next, cut)
            && SkimHit(v, cut) == {v[0].holder} + SkimHit(next, cut)
            && SkimErasesLast(v, cut) == (|v| == 1 || SkimErasesLast(next, cut))
    ensures SkimKept([], cut) == [] && SkimCuttings([], cut) == [] && SkimHit([], cut) == {} && !SkimErasesLast([], cut)
  {
    hide PiecesOf;
  }

  lemma RoomForPieces(s: Scan, cut: Interval, spare: nat)
    requires s.rest != [] && Overlaps(s.rest[0].span, cut)
    ensures |PiecesOf(s.rest[0], cut)| > spare + 1 ==> SkimReallocates(s.rest, cut, spare)
    ensures |PiecesOf(s.rest[0], cut)| <= spare + 1 ==>
              SkimReallocates(s.rest, cut, spare) ==
              SkimReallocates(EraseAndSkip(s, cut).rest, cut, spare + 1 - |PiecesOf(s.rest[0], cut)|)
  {
    hide PiecesOf, Overlaps;
  }

  lemma RoomUnused(readers: seq<Reader>, s: Scan, cut: Interval, spare: nat, j: nat)
    requires InPlace(readers, s, j) && s.rest != [] && j < |readers| && !Overlaps(cut, readers[j].span)
    ensures SkimReallocates(s.rest, cut, spare) == SkimReallocates(PassOver(s).rest, cut, spare)
  {
    hide PiecesOf;
    assert readers[j] == s.rest[0];
  }

  lemma NoRoomNeeded(cut: Interval, spare: nat)
    ensures !SkimReallocates([], cut, spare)
  {
  }

  /** After erasing, the iterator's next position is in the vector, or one past its end. */
  ghost predicate Erased(s: Scan, cut: Interval, j: nat, now: seq<Reader>)
    requires s.rest != []
  {
    var t := EraseAndSkip(s, cut);
    && now == t.seen + t.rest + t.cuttings
    && if j <= |now| then InPlace(now, t, j) && (t.erasedLast && !s.erasedLast ==> t.cuttings != [])
       else t.rest == [] && t.erasedLast && t.cuttings == []
  }

  lemma ErasingInPlace(before: seq<Reader>, cut: Interval, s: Scan, j: nat, now: seq<Reader>)
    requires InPlace(before, s, j) && s.rest != []
    requires now == before[..j] + before[j + 1..] + PiecesOf(before[j], cut)
    ensures Erased(s, cut, j + 1, now)
  {
    hide PiecesOf;
    var pieces := PiecesOf(before[j], cut);
    Splice(s.seen, s.rest, s.cuttings, pieces);
    assert before == s.seen + s.rest + s.cuttings && before[j] == s.rest[0];
  }

  /** The scan after one turn of the loop at an overlapping entry, with the iterator about to advance. */
  ghost predicate Turned(was: seq<Reader>, tables: seq<Tokens>, cut: Interval, order: Order, s: Scan, j: nat, room: nat,
                         readers: seq<Reader>, spare: nat, now: seq<Tokens>)
    requires s.rest != []
  {
    && Skimming(was, tables, cut, order, EraseAndSkip(s, cut), now)
    && Erased(s, cut, j + 1, readers)
    && SkimReallocates(s.rest, cut, room) == SkimReallocates(EraseAndSkip(s, cut).rest, cut, spare)
  }

  lemma TurnDone(was: seq<Reader>, tables: seq<Tokens>, cut: Interval, order: Order, s: Scan, now: seq<Tokens>, j: nat,
                 room: nat, before: seq<Reader>, readers: seq<Reader>, spare: nat, next: seq<Tokens>)
    requires Skimming(was, tables, cut, order, s, now) && s.rest != [] && Overlaps(s.rest[0].span, cut)
    requires InPlace(before, s, j) && j < |before| && before[j] == s.rest[0]
    requires readers == before[..j] + before[j + 1..] + PiecesOf(before[j], cut)
    requires |PiecesOf(before[j], cut)| <= room + 1 && spare == room + 1 - |PiecesOf(before[j], cut)|
    requires var h := before[j].holder;
             && h < |now| == |next| && next == now[h := next[h]]
             && Separated(next[h]) && Obeyed(order, now[h], next[h])
    ensures Turned(was, tables, cut, order, s, j, room, readers, spare, next)
  {
    hide *;
    ErasingSkims(was, tables, cut, order, s, now, next);
    ErasingInPlace(before, cut, s, j, readers);
    RoomForPieces(s, cut, room);
    TurnIs(was, tables, cut, order, s, j, room, readers, spare, next);
  }

  lemma TurnIs(was: seq<Reader>, tables: seq<Tokens>, cut: Interval, order: Order, s: Scan, j: nat, room: nat,
               readers: seq<Reader>, spare: nat, next: seq<Tokens>)
    requires s.rest != [] && Skimming(was, tables, cut, order, EraseAndSkip(s, cut), next)
    requires Erased(s, cut, j + 1, readers)
    requires SkimReallocates(s.rest, cut, room) == SkimReallocates(EraseAndSkip(s, cut).rest, cut, spare)
    ensures Turned(was, tables, cut, order, s, j, room, readers, spare, next)
  {
    hide Skimming, Erased, SkimReallocates, EraseAndSkip;
  }

  lemma TurnedParts(was: seq<Reader>, tables: seq<Tokens>, cut: Interval, order: Order, s: Scan, j: nat, room: nat,
                    readers: seq<Reader>, spare: nat, now: seq<Tokens>)
    requires s.rest != [] && Turned(was, tables, cut, order, s, j, room, readers, spare, now)
    requires s.erasedLast ==> s.cuttings != []
    ensures var t := EraseAndSkip(s, cut);
            && Skimming(was, tables, cut, order, t, now)
            && SkimReallocates(s.rest, cut, room) == SkimReallocates(t.rest, cut, spare)
            && readers == t.seen + t.rest + t.cuttings && |t.rest| < |s.rest|
            && (j + 1 <= |readers| ==> InPlace(readers, t, j + 1) && (t.erasedLast ==> t.cuttings != []))
            && (j + 1 > |readers| ==> t.rest == [] && t.erasedLast && t.cuttings == [])
  {
    hide PiecesOf, Skimming, SkimReallocates;
  }

  lemma Splice<T>(x: seq<T>, y: seq<T>, z: seq<T>, p: seq<T>)
    requires y != []
    ensures var w := x + y + z;
            var n := w[..|x|] + w[|x| + 1..] + p;
            && n == (if |y| == 1 then x + [] else (x + [y[1]]) + y[2..]) + (z + p)
            && |n| == |x| + |y| - 1 + |z| + |p|
  {
    var w, tail := x + y + z, y[1..];
    assert w[..|x|] == x && w[|x| + 1..] == tail + z;
    assert x + (tail + z) + p == (x + tail) + (z + p);
    if |y| > 1 {
      assert tail == [y[1]] + y[2..];
      assert x + ([y[1]] + y[2..]) == (x + [y[1]]) + y[2..];
    } else {
      assert tail == [];
    }
  }

  ghost function PassOver(s: Scan): (t: Scan)
    requires s.rest != []
    ensures |t.rest| < |s.rest| && t.erasedLast == s.erasedLast && t.cuttings == s.cuttings
  {
    s.(seen := s.seen + [s.rest[0]], rest := s.rest[1..])
  }

  lemma PassingSkims(was: seq<Reader>, tables: seq<Tokens>, cut: Interval, order: Order, s: Scan, now: seq<Tokens>,
                     readers: seq<Reader>, j: nat)
    requires Skimming(was, tables, cut, order, s, now) && InPlace(readers, s, j) && s.rest != [] && j < |readers|
    requires !Overlaps(cut, readers[j].span)
    ensures Skimming(was, tables, cut, order, PassOver(s), now) && InPlace(readers, PassOver(s), j + 1)
  {
    hide PiecesOf, Cleared, Separated;
    assert readers[j] == s.rest[0];
    assert s.seen + ([s.rest[0]] + SkimKept(s.rest[1..], cut)) == s.seen + [s.rest[0]] + SkimKept(s.rest[1..], cut);
    assert s.rest == [s.rest[0]] + s.rest[1..];
  }

  lemma NothingLeft(readers: seq<Reader>, s: Scan, j: nat)
    requires InPlace(readers, s, j) && j < |readers| && s.rest == []
    ensures InPlace(readers, s, j + 1)
  {
  }

  lemma SkimmingDone(was: seq<Reader>, tables: seq<Tokens>, cut: Interval, order: Order, s: Scan, now: seq<Tokens>,
                     readers: seq<Reader>, j: nat)
    requires Skimming(was, tables, cut, order, s, now) && readers == s.seen + s.rest + s.cuttings
    requires if j > |readers| then s.rest == [] && s.erasedLast && s.cuttings == []
             else j == |readers| && InPlace(readers, s, j) && (s.erasedLast ==> s.cuttings != [])
    ensures readers == ReadersAfter(LoopsAsWritten, was, cut)
    ensures Cleared(tables, order, ReadersHit(LoopsAsWritten, was, cut), now)
    ensures j > |readers| <==> SkimRunsPastEnd(was, cut)
  {
    assert s.rest == [];
    hide Cleared, PiecesOf;
  }
}
