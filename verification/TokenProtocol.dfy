/** The token protocol between the metadata manager and its clients, as a state machine.

    A step is one token request served completely: the holders that stand in the way are revoked, the
    server's tables are updated, and the grant reaches the client that asked. */
module TokenProtocol {
  import opened Intervals
  import opened Permissions
  import Wire

  /** A client, named by the address and port of its revoker. */
  type Client = nat

  datatype Reader = Reader(span: Interval, holder: Client)

  /** The server's writer and reader tables for one file, with the room that the vector of readers has behind
      its last entry, and each client's token table for the file. */
  datatype System = System(writers: map<Interval, Client>, readers: seq<Reader>, spare: nat, tables: seq<Tokens>)

  // ------------------------------------------------------------------ the pass over the readers

  /** What is left of one reader entry. */
  function PiecesOf(r: Reader, cut: Interval): seq<Reader> {
    var spans := SubtractInterval(r.span, cut);
    seq(|spans|, i requires 0 <= i < |spans| => Reader(spans[i], r.holder))
  }

  /** The intended pass: every overlapping entry goes, and its pieces are appended. */
  function Kept(v: seq<Reader>, cut: Interval): seq<Reader> {
    if v == [] then [] else (if Overlaps(v[0].span, cut) then [] else [v[0]]) + Kept(v[1..], cut)
  }

  function Cuttings(v: seq<Reader>, cut: Interval): seq<Reader> {
    if v == [] then [] else (if Overlaps(v[0].span, cut) then PiecesOf(v[0], cut) else []) + Cuttings(v[1..], cut)
  }

  function Hit(v: seq<Reader>, cut: Interval): set<Client> {
    if v == [] then {} else (if Overlaps(v[0].span, cut) then {v[0].holder} else {}) + Hit(v[1..], cut)
  }

  /** The pass as written: erasing an entry moves the iterator to the next one, and the loop then steps over
      it without looking; the pieces go to the end of the same vector. */
  function SkimKept(v: seq<Reader>, cut: Interval): seq<Reader> {
    if v == [] then []
    else if !Overlaps(v[0].span, cut) then [v[0]] + SkimKept(v[1..], cut)
    else if |v| == 1 then []
    else [v[1]] + SkimKept(v[2..], cut)
  }

  function SkimCuttings(v: seq<Reader>, cut: Interval): seq<Reader> {
    if v == [] then []
    else if !Overlaps(v[0].span, cut) then SkimCuttings(v[1..], cut)
    else PiecesOf(v[0], cut) + if |v| == 1 then [] else SkimCuttings(v[2..], cut)
  }

  function SkimHit(v: seq<Reader>, cut: Interval): set<Client> {
    if v == [] then {}
    else if !Overlaps(v[0].span, cut) then SkimHit(v[1..], cut)
    else {v[0].holder} + if |v| == 1 then {} else SkimHit(v[2..], cut)
  }

  /** The last entry of the vector is itself examined and erased. */
  predicate SkimErasesLast(v: seq<Reader>, cut: Interval) {
    if v == [] then false
    else if !Overlaps(v[0].span, cut) then SkimErasesLast(v[1..], cut)
    else |v| == 1 || SkimErasesLast(v[2..], cut)
  }

  /** The last entry is erased and nothing has been appended: the iterator moves past the end. */
  predicate SkimRunsPastEnd(v: seq<Reader>, cut: Interval) {
    SkimErasesLast(v, cut) && SkimCuttings(v, cut) == []
  }

  /** An entry is split in two and its pieces find the vector full: it reallocates, and the iterator is void.
      `spare` is the room in the vector behind its last entry. */
  predicate SkimReallocates(v: seq<Reader>, cut: Interval, spare: nat) {
    if v == [] then false
    else if !Overlaps(v[0].span, cut) then SkimReallocates(v[1..], cut, spare)
    else if |PiecesOf(v[0], cut)| > spare + 1 then true
    else |v| > 1 && SkimReallocates(v[2..], cut, spare + 1 - |PiecesOf(v[0], cut)|)
  }

  /** The same for a pass that looks at every old entry. */
  predicate Reallocates(v: seq<Reader>, cut: Interval, spare: nat) {
    if v == [] then false
    else if !Overlaps(v[0].span, cut) then Reallocates(v[1..], cut, spare)
    else |PiecesOf(v[0], cut)| > spare + 1 || Reallocates(v[1..], cut, spare + 1 - |PiecesOf(v[0], cut)|)
  }

  /** Room for every old entry to be split is enough. */
  lemma {:induction false} RoomIsEnough(v: seq<Reader>, cut: Interval, spare: nat)
    requires spare >= |v|
    ensures !Reallocates(v, cut, spare)
  {
    if v != [] {
      if Overlaps(v[0].span, cut) {
        RoomIsEnough(v[1..], cut, spare + 1 - |PiecesOf(v[0], cut)|);
      } else {
        RoomIsEnough(v[1..], cut, spare);
      }
    }
  }

  ghost predicate OverlapsNone(v: seq<Reader>, cut: Interval) {
    forall r :: r in v ==> !Overlaps(r.span, cut)
  }

  /** No overlapping entry directly follows another one. */
  predicate NoNeighboursOverlap(v: seq<Reader>, cut: Interval) {
    forall n :: 0 <= n < |v| - 1 ==> !(Overlaps(v[n].span, cut) && Overlaps(v[n + 1].span, cut))
  }

  /** The last entry overlaps, and every overlapping entry lies wholly inside the request. */
  predicate LastIsSwallowed(v: seq<Reader>, cut: Interval) {
    && v != [] && Overlaps(v[|v| - 1].span, cut)
    && forall r :: r in v && Overlaps(r.span, cut) ==> r.span.Within(cut)
  }

  lemma {:induction false} SkimWithoutNeighbours(v: seq<Reader>, cut: Interval)
    requires NoNeighboursOverlap(v, cut)
    ensures SkimKept(v, cut) == Kept(v, cut)
    ensures SkimCuttings(v, cut) == Cuttings(v, cut)
    ensures SkimHit(v, cut) == Hit(v, cut)
    ensures SkimErasesLast(v, cut) <==> v != [] && Overlaps(v[|v| - 1].span, cut)
    decreases |v|
  {
    hide PiecesOf, SubtractInterval;
    if v == [] {
    } else if !Overlaps(v[0].span, cut) || |v| == 1 {
      NoNeighboursFrom(v, 1, cut);
      SkimWithoutNeighbours(v[1..], cut);
    } else {
      assert !Overlaps(v[0 + 1].span, cut);
      var rest := v[1..];
      assert rest[1..] == v[2..] && rest[0] == v[1] && rest != [];
      assert Kept(rest, cut) == [v[1]] + Kept(v[2..], cut);
      assert Cuttings(rest, cut) == Cuttings(v[2..], cut) && Hit(rest, cut) == Hit(v[2..], cut);
      NoNeighboursFrom(v, 2, cut);
      hide NoNeighboursOverlap, Overlaps;
      SkimWithoutNeighbours(v[2..], cut);
    }
  }

  lemma {:induction false} SkimReallocatesToo(v: seq<Reader>, cut: Interval, spare: nat)
    requires NoNeighboursOverlap(v, cut)
    ensures SkimReallocates(v, cut, spare) <==> Reallocates(v, cut, spare)
    decreases |v|
  {
    hide PiecesOf, SubtractInterval;
    if v == [] {
    } else if !Overlaps(v[0].span, cut) {
      NoNeighboursFrom(v, 1, cut);
      SkimReallocatesToo(v[1..], cut, spare);
    } else if |v| > 1 && |PiecesOf(v[0], cut)| <= spare + 1 {
      assert !Overlaps(v[0 + 1].span, cut);
      var rest, room := v[1..], spare + 1 - |PiecesOf(v[0], cut)|;
      assert rest[1..] == v[2..] && rest[0] == v[1];
      assert Reallocates(rest, cut, room) == Reallocates(v[2..], cut, room);
      NoNeighboursFrom(v, 2, cut);
      SkimReallocatesToo(v[2..], cut, room);
    }
  }

  lemma NoNeighboursFrom(v: seq<Reader>, n: nat, cut: Interval)
    requires NoNeighboursOverlap(v, cut) && n <= |v|
    ensures NoNeighboursOverlap(v[n..], cut)
  {
    forall k | 0 <= k < |v[n..]| - 1
      ensures !(Overlaps(v[n..][k].span, cut) && Overlaps(v[n..][k + 1].span, cut))
    {
      assert v[n..][k] == v[n + k] && v[n..][k + 1] == v[n + k + 1];
    }
  }

  lemma {:induction false} HitMeans(v: seq<Reader>, cut: Interval)
    ensures forall h :: h in Hit(v, cut) <==> exists r :: r in v && Overlaps(r.span, cut) && r.holder == h
  {
    if v != [] {
      HitMeans(v[1..], cut);
      assert forall r :: r in v <==> r == v[0] || r in v[1..];
    }
  }

  lemma {:induction false} SkimMissesNeighbour(v: seq<Reader>, cut: Interval)
    requires !NoNeighboursOverlap(v, cut)
    ensures !OverlapsNone(SkimKept(v, cut), cut)
    decreases |v|
  {
    var n :| 0 <= n < |v| - 1 && Overlaps(v[n].span, cut) && Overlaps(v[n + 1].span, cut);
    if !Overlaps(v[0].span, cut) {
      assert v[1..][n - 1] == v[n] && v[1..][n] == v[n + 1];
      SkimMissesNeighbour(v[1..], cut);
    } else if Overlaps(v[1].span, cut) {
      assert v[1] in SkimKept(v, cut);
    } else {
      assert v[2..][n - 2] == v[n] && v[2..][n - 1] == v[n + 1];
      SkimMissesNeighbour(v[2..], cut);
    }
  }

  lemma {:induction false} CuttingsEmpty(v: seq<Reader>, cut: Interval)
    requires forall r :: r in v ==> r.span.Proper()
    requires cut.Proper()
    ensures Cuttings(v, cut) == [] <==> forall r :: r in v && Overlaps(r.span, cut) ==> r.span.Within(cut)
  {
    if v != [] {
      CuttingsEmpty(v[1..], cut);
      assert forall r :: r in v <==> r == v[0] || r in v[1..];
    }
  }

  /** Exactly when the pass as written does its job: its iterator stays good and inside the vector, and it
      leaves no reader entry on the requested blocks.  The condition can be read off the table before the
      request. */
  lemma ScanIsRightIff(v: seq<Reader>, cut: Interval, spare: nat)
    requires cut.Proper() && forall r :: r in v ==> r.span.Proper()
    ensures !SkimRunsPastEnd(v, cut) && !SkimReallocates(v, cut, spare)
            && OverlapsNone(SkimKept(v, cut) + SkimCuttings(v, cut), cut)
            <==> NoNeighboursOverlap(v, cut) && !LastIsSwallowed(v, cut) && !Reallocates(v, cut, spare)
    ensures NoNeighboursOverlap(v, cut) && !LastIsSwallowed(v, cut) ==>
              SkimKept(v, cut) + SkimCuttings(v, cut) == Kept(v, cut) + Cuttings(v, cut) &&
              SkimHit(v, cut) == Hit(v, cut)
  {
    if NoNeighboursOverlap(v, cut) {
      SkimWithoutNeighbours(v, cut);
      SkimReallocatesToo(v, cut, spare);
      CuttingsEmpty(v, cut);
      RevokeAllClears(v, cut);
    } else {
      SkimMissesNeighbour(v, cut);
      var r :| r in SkimKept(v, cut) && Overlaps(r.span, cut);
      assert r in SkimKept(v, cut) + SkimCuttings(v, cut);
    }
  }

  // ------------------------------------------------------------------ what a reader table says

  ghost predicate Covers(v: seq<Reader>, h: Client, b: nat) {
    exists r :: r in v && r.holder == h && r.span.Has(b)
  }

  lemma PiecesOfMeaning(r: Reader, cut: Interval)
    requires cut.Proper() && r.span.Proper()
    ensures forall p :: p in PiecesOf(r, cut) ==>
              p.holder == r.holder && p.span.Proper() && p.span.Within(r.span) && !Overlaps(p.span, cut)
    ensures forall b: nat :: r.span.Has(b) && !cut.Has(b) <==> Covers(PiecesOf(r, cut), r.holder, b)
  {
    var spans := SubtractInterval(r.span, cut);
    SubtractIsDifference(r.span, cut);
    forall b: nat | r.span.Has(b) && !cut.Has(b)
      ensures Covers(PiecesOf(r, cut), r.holder, b)
    {
      var p :| p in spans && p.Has(b);
      var i :| 0 <= i < |spans| && spans[i] == p;
      assert PiecesOf(r, cut)[i] == Reader(p, r.holder);
    }
  }

  /** The intended pass clears exactly the requested blocks; what remains lies inside old entries. */
  lemma {:induction false} RevokeAllClears(v: seq<Reader>, cut: Interval)
    requires cut.Proper() && forall r :: r in v ==> r.span.Proper()
    ensures OverlapsNone(Kept(v, cut) + Cuttings(v, cut), cut)
    ensures forall p :: p in Kept(v, cut) + Cuttings(v, cut) ==>
              p.span.Proper() && exists r :: r in v && r.holder == p.holder && p.span.Within(r.span)
    ensures forall h, b :: Covers(Kept(v, cut) + Cuttings(v, cut), h, b) <==> Covers(v, h, b) && !cut.Has(b)
  {
    if v != [] {
      assert forall r :: r in v <==> r == v[0] || r in v[1..];
      RevokeAllClears(v[1..], cut);
      PiecesOfMeaning(v[0], cut);
      var rest := Kept(v[1..], cut) + Cuttings(v[1..], cut);
      var mine := if Overlaps(v[0].span, cut) then PiecesOf(v[0], cut) else [v[0]];
      assert forall p :: p in Kept(v, cut) + Cuttings(v, cut) <==> p in mine || p in rest;
      forall h, b
        ensures Covers(Kept(v, cut) + Cuttings(v, cut), h, b) <==> Covers(v, h, b) && !cut.Has(b)
      {
        CoversSplit(v, [v[0]], v[1..], h, b);
        CoversSplit(Kept(v, cut) + Cuttings(v, cut), mine, rest, h, b);
        assert Covers([v[0]], h, b) <==> v[0].holder == h && v[0].span.Has(b) by { assert v[0] in [v[0]]; }
        assert Covers(mine, h, b) ==> h == v[0].holder;
      }
    }
  }

  lemma CoversSplit(v: seq<Reader>, x: seq<Reader>, y: seq<Reader>, h: Client, b: nat)
    requires forall r :: r in v <==> r in x || r in y
    ensures Covers(v, h, b) <==> Covers(x, h, b) || Covers(y, h, b)
  {
  }

  // ------------------------------------------------------------------ what a holder hears of a revoke

  /** What a holder does on a revoke: nothing, because the message seems to be about a file it has not open;
      or give up a range, which may be another one than was meant; or anything at all, because the message
      has overrun its buffer. */
  datatype Order = Overrun | NotMine | GiveUp(start: nat, end: nat)

  /** The revoke that the server sends for a request on a file. */
  function RevokeText(file: string, i: Interval, mode: Mode): string {
    match mode
    case R => Wire.RevokeForReader(file, i.lo, i.hi, 'r')
    case W => Wire.RevokeForWriter(i.lo, i.hi, 'w')
  }

  /** What a holder that has `file` open takes a message for. */
  ghost function OrderIn(file: string, message: string): Order {
    match Wire.HeardRevoke(message)
    case Undefined => Overrun
    case NoSuchCommand => NotMine
    case Understood(call) =>
      if call.file == file && call.start >= 0 && call.end >= 0 then GiveUp(call.start, call.end) else NotMine
  }

  /** A reader's revoke is either overrun or understood.  A writer's is never overrun; a holder takes it for
      another file's, unless the file's name is the number of the first block. */
  lemma OrderOf(file: string, i: Interval)
    requires Wire.NoSpace(file) && i.Proper()
    ensures OrderIn(file, RevokeText(file, i, R)) ==
            if |RevokeText(file, i, R)| < Wire.CLIENT_BUFFER then GiveUp(i.lo, i.hi) else Overrun
    ensures OrderIn(file, RevokeText(file, i, W)) == if file == Wire.Printed(i.lo) then GiveUp(i.hi, 0) else NotMine
  {
    Wire.ReaderRevokeRoundTripIff(file, i.lo, i.hi, 'r');
    Wire.WriterRevokeFits(i.lo, i.hi);
    Wire.WriterRevokeIsMisread(file, i.lo, i.hi);
    hide *;
    UnfoldOrder(file, i);
  }

  lemma UnfoldOrder(file: string, i: Interval)
    ensures RevokeText(file, i, R) == Wire.RevokeForReader(file, i.lo, i.hi, 'r')
    ensures RevokeText(file, i, W) == Wire.RevokeForWriter(i.lo, i.hi, 'w')
    ensures |RevokeText(file, i, R)| >= Wire.CLIENT_BUFFER ==> OrderIn(file, RevokeText(file, i, R)) == Overrun
    ensures forall message :: var h := Wire.HeardRevoke(message);
              h.Understood? && h.call.start >= 0 && h.call.end >= 0 ==>
                OrderIn(file, message) == if h.call.file == file then GiveUp(h.call.start, h.call.end) else NotMine
  {
    hide Wire.Split, Wire.ParsedRevoke, Wire.IsWord, Wire.RevokeForReader, Wire.RevokeForWriter;
  }

  /** A table after a holder has done as it understood. */
  ghost predicate Obeyed(order: Order, was: Tokens, now: Tokens) {
    if order.GiveUp? then Removed(was, order.start, order.end, now) else now == was
  }

  ghost predicate GivesUp(order: Order, was: Tokens, b: nat) {
    order.GiveUp? && Lost(was, order.start, order.end, b)
  }

  /** An order that names only block numbers. */
  predicate InBounds(order: Order) {
    order.GiveUp? ==> order.start <= MAX_BLOCK && order.end <= MAX_BLOCK
  }

  lemma ObeyedAt(order: Order, was: Tokens, now: Tokens)
    requires Separated(was) && InBounds(order) && Obeyed(order, was, now)
    ensures Separated(now)
    ensures forall b: nat :: At(now, b) == if GivesUp(order, was, b) then None else At(was, b)
  {
    if order.GiveUp? {
      RemovedAt(was, order.start, order.end, now);
    }
    hide Separated, At, Removed, Lost;
  }

  lemma ObeyTwice(order: Order, was: Tokens, once: Tokens, twice: Tokens)
    requires Separated(was) && InBounds(order) && Obeyed(order, was, once) && Obeyed(order, once, twice)
    ensures twice == once
  {
    if order.GiveUp? {
      RemoveTwice(was, order.start, order.end, once, twice);
    }
    hide Removed;
  }

  // ------------------------------------------------------------------ one request

  /** Which code serves a request: the intended one, which revokes every reader and is understood by every
      holder; the loops as written, with revokes that are understood; or the code as written throughout, on
      a file of this name. */
  datatype Code = Intended | LoopsAsWritten | AsWritten(file: string)

  predicate Named(code: Code) {
    code.AsWritten? ==> ' ' !in code.file
  }

  ghost function OrderFor(code: Code, i: Interval, mode: Mode): Order {
    if code.AsWritten? then OrderIn(code.file, RevokeText(code.file, i, mode)) else GiveUp(i.lo, i.hi)
  }

  lemma OrderIsInBounds(code: Code, i: Interval, mode: Mode)
    requires Named(code) && i.Proper()
    ensures InBounds(OrderFor(code, i, mode))
    ensures mode == R && OrderFor(code, i, mode) != Overrun ==> OrderFor(code, i, mode) == GiveUp(i.lo, i.hi)
    ensures mode == W && code.AsWritten? ==>
              OrderFor(code, i, mode) == if code.file == Wire.Printed(i.lo) then GiveUp(i.hi, 0) else NotMine
    ensures !code.AsWritten? ==> OrderFor(code, i, mode) == GiveUp(i.lo, i.hi)
  {
    if code.AsWritten? {
      OrderOf(code.file, i);
    }
    hide OrderIn, RevokeText, Wire.Printed;
  }

  function ReadersAfter(code: Code, v: seq<Reader>, cut: Interval): seq<Reader> {
    if code == Intended then Kept(v, cut) + Cuttings(v, cut) else SkimKept(v, cut) + SkimCuttings(v, cut)
  }

  function ReadersHit(code: Code, v: seq<Reader>, cut: Interval): set<Client> {
    if code == Intended then Hit(v, cut) else SkimHit(v, cut)
  }

  ghost function WritersHit(w: map<Interval, Client>, cut: Interval): set<Client> {
    set k | k in w && Overlaps(k, cut) :: w[k]
  }

  /** The clients that a request's revokes are sent to. */
  ghost function HitBy(code: Code, s: System, i: Interval, mode: Mode): set<Client> {
    WritersHit(s.writers, i) + if mode == W then ReadersHit(code, s.readers, i) else {}
  }

  /** A block's permission at client `h`, whose table was `t`, across a request by `c` for `mode` on `i`, in
      which the clients `hit` got the order. */
  ghost function AfterRequest(t: Tokens, order: Order, hit: set<Client>, h: Client, c: Client, i: Interval, mode: Mode,
                              b: nat): Option<Mode> {
    var kept := if h in hit && GivesUp(order, t, b) then None else At(t, b);
    if h == c && i.Has(b) then Stronger(kept, Some(mode)) else kept
  }

  ghost predicate TablesServed(was: seq<Tokens>, c: Client, i: Interval, mode: Mode, order: Order, hit: set<Client>,
                               now: seq<Tokens>) {
    && |now| == |was|
    && (forall h :: 0 <= h < |now| ==> Separated(now[h]))
    && (forall h, b: nat :: 0 <= h < |now| ==> At(now[h], b) == AfterRequest(was[h], order, hit, h, c, i, mode, b))
  }

  /** The cases in which the program's behaviour is undefined: a revoke that is sent overruns its buffer, or
      the pass over the readers runs past the end or makes the vector reallocate. */
  ghost predicate GoesWrong(code: Code, s: System, i: Interval, mode: Mode) {
    || (HitBy(code, s, i, mode) != {} && OrderFor(code, i, mode) == Overrun)
    || (code != Intended && mode == W && (SkimRunsPastEnd(s.readers, i) || SkimReallocates(s.readers, i, s.spare)))
  }

  /** The room behind the readers: a push into a full vector makes some, erasing and pushing keep the sum. */
  ghost predicate RoomAfter(code: Code, s: System, mode: Mode, s': System) {
    match mode
    case R => s.spare > 0 ==> s'.spare == s.spare - 1
    case W => code != Intended ==> s'.spare + |s'.readers| == s.spare + |s.readers|
  }

  /** A request served: writers carved (and the new writer inserted), readers revoked (or the new reader
      appended), the holders' tables changed as they understood, and exactly the interval asked for granted. */
  ghost predicate Step(code: Code, s: System, c: Client, i: Interval, mode: Mode, s': System) {
    && c < |s.tables| && i.Proper() && !GoesWrong(code, s, i, mode) && RoomAfter(code, s, mode, s')
    && TablesServed(s.tables, c, i, mode, OrderFor(code, i, mode), HitBy(code, s, i, mode), s'.tables)
    && match mode
       case R =>
         && IsCarved(s.writers, i, s'.writers)
         && s'.readers == s.readers + [Reader(i, c)]
       case W =>
         && i in s'.writers && s'.writers[i] == c && IsCarved(s.writers, i, s'.writers - {i})
         && s'.readers == ReadersAfter(code, s.readers, i)
  }

  // ------------------------------------------------------------------ what every step keeps

  /** Single writer or many readers, block by block. */
  ghost predicate Exclusive(s: System) {
    forall h, g, b: nat :: 0 <= h < |s.tables| && 0 <= g < |s.tables| && h != g && At(s.tables[h], b) == Some(W) ==>
      At(s.tables[g], b) == None
  }

  ghost predicate ServerConsistent(s: System) {
    && Separated(s.writers)
    && (forall k :: k in s.writers ==> s.writers[k] < |s.tables|)
    && (forall r :: r in s.readers ==> r.span.Proper() && r.holder < |s.tables|)
    && (forall k, r :: k in s.writers && r in s.readers ==> !Overlaps(k, r.span))
  }

  /** No client holds more than the server believes it does. */
  ghost predicate ClientsAgree(s: System) {
    forall h, b: nat :: 0 <= h < |s.tables| ==>
      && (At(s.tables[h], b) == Some(W) ==> At(s.writers, b) == Some(h))
      && (At(s.tables[h], b) == Some(R) ==> Covers(s.readers, h, b))
  }

  ghost predicate Agree(s: System) {
    ServerConsistent(s) && ClientsAgree(s) && forall h :: 0 <= h < |s.tables| ==> Separated(s.tables[h])
  }

  lemma AgreeIsExclusive(s: System)
    requires Agree(s)
    ensures Exclusive(s)
  {
    forall h, g, b: nat | 0 <= h < |s.tables| && 0 <= g < |s.tables| && h != g && At(s.tables[h], b) == Some(W)
      ensures At(s.tables[g], b) == None
    {
      var k := AtHasKey(s.writers, b);
      assert forall r :: r in s.readers && r.span.Has(b) ==> Overlaps(k, r.span);
      assert !Covers(s.readers, g, b);
      match At(s.tables[g], b) {
        case None =>
        case Some(m) => match m { case R => case W => }
      }
    }
  }

  /** A reader's part misses what is left of the writers, as the reader missed the writers. */
  lemma CarvedMiss(was: map<Interval, Client>, i: Interval, now: map<Interval, Client>, whole: Interval, part: Interval)
    requires Separated(was) && i.Proper() && IsCarved(was, i, now)
    requires part.Proper() && part.Within(whole) && forall k :: k in was ==> !Overlaps(k, whole)
    ensures forall p :: p in now ==> !Overlaps(p, part)
  {
    forall p | p in now
      ensures !Overlaps(p, part)
    {
      var k :| k in was && p in SubtractInterval(k, i) && now[p] == was[k];
      SubtractIsDifference(k, i);
    }
  }

  lemma CarvedHoldersAreOld(was: map<Interval, Client>, i: Interval, now: map<Interval, Client>, n: nat)
    requires IsCarved(was, i, now) && forall k :: k in was ==> was[k] < n
    ensures forall p :: p in now ==> now[p] < n
  {
    hide SubtractInterval;
  }

  /** Nothing the server holds inside the interval escapes the revokes. */
  lemma HoldersAreHit(s: System, i: Interval, h: Client, b: nat)
    requires Agree(s) && i.Has(b) && h < |s.tables|
    ensures At(s.tables[h], b) == Some(W) ==> h in WritersHit(s.writers, i)
    ensures At(s.tables[h], b) == Some(R) ==> h in Hit(s.readers, i)
  {
    if At(s.tables[h], b) == Some(W) {
      var k := AtHasKey(s.writers, b);
      assert Overlaps(k, i) && s.writers[k] == h;
    }
    HitMeans(s.readers, i);
    if At(s.tables[h], b) == Some(R) {
      assert Covers(s.readers, h, b);
      var r :| r in s.readers && r.holder == h && r.span.Has(b);
      assert Overlaps(r.span, i);
    }
  }

  lemma ReadStepKeepsServer(s: System, c: Client, i: Interval, s': System)
    requires Agree(s) && Step(Intended, s, c, i, R, s')
    ensures ServerConsistent(s')
  {
    assert |s'.tables| == |s.tables|;
    hide IsCarved, ClientsAgree, TablesServed;
    CarvedAt(s.writers, i, s'.writers);
    CarvedHoldersAreOld(s.writers, i, s'.writers, |s.tables|);
    forall r | r in s'.readers
      ensures forall k :: k in s'.writers ==> !Overlaps(k, r.span)
    {
      if r in s.readers {
        CarvedMiss(s.writers, i, s'.writers, r.span, r.span);
      }
    }
  }

  lemma ReadStepKeepsClients(s: System, c: Client, i: Interval, s': System)
    requires Agree(s) && Step(Intended, s, c, i, R, s')
    ensures ClientsAgree(s')
  {
    hide IsCarved, SubtractInterval, Kept, Cuttings, PiecesOf, Hit;
    CarvedAt(s.writers, i, s'.writers);
    forall h, b: nat | 0 <= h < |s'.tables|
      ensures At(s'.tables[h], b) == Some(W) ==> At(s'.writers, b) == Some(h)
      ensures At(s'.tables[h], b) == Some(R) ==> Covers(s'.readers, h, b)
    {
      if i.Has(b) {
        HoldersAreHit(s, i, h, b);
      }
      CoversSplit(s'.readers, s.readers, [Reader(i, c)], h, b);
      assert Reader(i, c) in [Reader(i, c)];
    }
  }

  lemma ServedAt(was: seq<Tokens>, c: Client, i: Interval, mode: Mode, order: Order, hit: set<Client>,
                 now: seq<Tokens>, h: Client, b: nat)
    requires TablesServed(was, c, i, mode, order, hit, now) && h < |was|
    ensures |now| == |was|
    ensures At(now[h], b) == AfterRequest(was[h], order, hit, h, c, i, mode, b)
  {
  }

  /** An order that nobody gets may as well be another one. */
  lemma NobodyOrdered(was: seq<Tokens>, c: Client, i: Interval, mode: Mode, order: Order, other: Order,
                      hit: set<Client>, now: seq<Tokens>)
    requires TablesServed(was, c, i, mode, order, hit, now) && (hit == {} || order == other)
    ensures TablesServed(was, c, i, mode, other, hit, now)
  {
    hide GivesUp, At, Separated;
  }

  /** A read is served as intended by every code that serves it at all. */
  lemma ReadStepIsIntended(code: Code, s: System, c: Client, i: Interval, s': System)
    requires Named(code) && Step(code, s, c, i, R, s')
    ensures Step(Intended, s, c, i, R, s')
  {
    OrderIsInBounds(code, i, R);
    OrderIsInBounds(Intended, i, R);
    assert HitBy(Intended, s, i, R) == HitBy(code, s, i, R);
    NobodyOrdered(s.tables, c, i, R, OrderFor(code, i, R), OrderFor(Intended, i, R), HitBy(code, s, i, R), s'.tables);
    hide OrderFor, HitBy, TablesServed, IsCarved, SkimRunsPastEnd;
  }

  // ------------------------------------------------------------------ when a write keeps its promise

  /** Whoever else has permission on the interval is sent a revoke and, as it understands it, gives that
      block up.  All of it can be read off the tables before the request. */
  ghost predicate OthersGiveWay(code: Code, s: System, c: Client, i: Interval) {
    forall h: Client, b: nat :: h < |s.tables| && h != c && i.Has(b) && At(s.tables[h], b).Some? ==>
      Given(code, s, i, h, b)
  }

  /** A block's permission at client `h` goes with the revokes. */
  ghost predicate Given(code: Code, s: System, i: Interval, h: Client, b: nat)
    requires h < |s.tables|
  {
    h in HitBy(code, s, i, W) && GivesUp(OrderFor(code, i, W), s.tables[h], b)
  }

  lemma WriteTables(code: Code, s: System, c: Client, i: Interval, s': System, h: Client, b: nat)
    requires Step(code, s, c, i, W, s') && h < |s.tables|
    ensures |s'.tables| == |s.tables| && c < |s.tables|
    ensures h == c && i.Has(b) ==> At(s'.tables[h], b) == Some(W)
    ensures h != c || !i.Has(b) ==>
              At(s'.tables[h], b) == if Given(code, s, i, h, b) then None else At(s.tables[h], b)
  {
    ServedAt(s.tables, c, i, W, OrderFor(code, i, W), HitBy(code, s, i, W), s'.tables, h, b);
    hide Step, TablesServed, HitBy, GivesUp, OrderFor, At;
    match At(s.tables[h], b) {
      case None =>
      case Some(m) => match m { case R => case W => }
    }
  }

  /** A write leaves single writers exactly when everyone else gives way. */
  lemma WriteIsExclusiveIff(code: Code, s: System, c: Client, i: Interval, s': System)
    requires Step(code, s, c, i, W, s')
    requires Exclusive(s)
    ensures Exclusive(s') <==> OthersGiveWay(code, s, c, i)
  {
    hide *;
    if Exclusive(s') {
      ExclusiveNeedsWay(code, s, c, i, s');
    }
    if OthersGiveWay(code, s, c, i) {
      WayMakesExclusive(code, s, c, i, s');
    }
  }

  lemma ExclusiveNeedsWay(code: Code, s: System, c: Client, i: Interval, s': System)
    requires Step(code, s, c, i, W, s') && Exclusive(s')
    ensures OthersGiveWay(code, s, c, i)
  {
    hide Step, Given, At;
    forall h: Client, b: nat | h < |s.tables| && h != c && i.Has(b) && At(s.tables[h], b).Some?
      ensures Given(code, s, i, h, b)
    {
      WriteTables(code, s, c, i, s', c, b) by { AskerExists(code, s, c, i, s'); }
      WriteTables(code, s, c, i, s', h, b);
      assert At(s'.tables[c], b) == Some(W) && At(s'.tables[h], b) == None;
    }
  }

  lemma AskerExists(code: Code, s: System, c: Client, i: Interval, s': System)
    requires Step(code, s, c, i, W, s')
    ensures c < |s.tables| == |s'.tables|
  {
    hide GoesWrong, OrderFor, HitBy, IsCarved, ReadersAfter;
  }

  lemma GivenWay(code: Code, s: System, c: Client, i: Interval, h: Client, b: nat)
    requires OthersGiveWay(code, s, c, i) && h < |s.tables|
    ensures h != c && i.Has(b) ==> At(s.tables[h], b) == None || Given(code, s, i, h, b)
  {
    hide Given, At;
  }

  lemma WayMakesExclusive(code: Code, s: System, c: Client, i: Interval, s': System)
    requires Exclusive(s) && Step(code, s, c, i, W, s') && OthersGiveWay(code, s, c, i)
    ensures Exclusive(s')
  {
    AskerExists(code, s, c, i, s');
    hide Step, Given, At;
    forall h, g, b: nat | 0 <= h < |s.tables| && 0 <= g < |s.tables| && h != g && At(s'.tables[h], b) == Some(W)
      ensures At(s'.tables[g], b) == None
    {
      WriteTables(code, s, c, i, s', h, b);
      WriteTables(code, s, c, i, s', g, b);
      GivenWay(code, s, c, i, h, b);
      GivenWay(code, s, c, i, g, b);
    }
  }

  lemma WriteKeepsServer(code: Code, s: System, c: Client, i: Interval, s': System)
    requires Agree(s) && Step(code, s, c, i, W, s') && s'.readers == Kept(s.readers, i) + Cuttings(s.readers, i)
    ensures ServerConsistent(s')
  {
    var w := s'.writers - {i};
    assert IsCarved(s.writers, i, w) && s'.writers == w[i := c] && |s'.tables| == |s.tables|;
    hide IsCarved, ClientsAgree, TablesServed, Kept, Cuttings, At, WritersHit, GoesWrong, OrderFor, HitBy;
    CarvedAt(s.writers, i, w);
    CarvedHoldersAreOld(s.writers, i, w, |s.tables|);
    AtInsert(w, i, c);
    RevokeAllClears(s.readers, i);
    forall r | r in s'.readers
      ensures r.span.Proper() && r.holder < |s'.tables| && !Overlaps(i, r.span)
      ensures forall k :: k in w ==> !Overlaps(k, r.span)
    {
      var q :| q in s.readers && q.holder == r.holder && r.span.Within(q.span);
      CarvedMiss(s.writers, i, w, q.span, r.span);
    }
  }

  lemma WriteKeepsClients(code: Code, s: System, c: Client, i: Interval, s': System)
    requires Agree(s) && Step(code, s, c, i, W, s') && s'.readers == Kept(s.readers, i) + Cuttings(s.readers, i)
    requires OthersGiveWay(code, s, c, i)
    ensures ClientsAgree(s')
  {
    AskerExists(code, s, c, i, s');
    hide *;
    forall h: Client, b: nat | h < |s'.tables|
      ensures AgreesOn(s', h, b)
    {
      WriteKeepsClientAt(code, s, c, i, s', h, b);
    }
    AgreesEverywhere(s');
  }

  ghost predicate AgreesOn(s: System, h: Client, b: nat)
    requires h < |s.tables|
  {
    && (At(s.tables[h], b) == Some(W) ==> At(s.writers, b) == Some(h))
    && (At(s.tables[h], b) == Some(R) ==> Covers(s.readers, h, b))
  }

  lemma WriteKeepsClientAt(code: Code, s: System, c: Client, i: Interval, s': System, h: Client, b: nat)
    requires Agree(s) && Step(code, s, c, i, W, s') && s'.readers == Kept(s.readers, i) + Cuttings(s.readers, i)
    requires OthersGiveWay(code, s, c, i) && h < |s'.tables| == |s.tables|
    ensures AgreesOn(s', h, b)
  {
    ProperParts(code, s, c, i, s');
    hide At, Covers, Step, Agree, Given, OthersGiveWay;
    WriterTableAfter(code, s, c, i, s', b);
    ReaderTableAfter(s.readers, i, h, b);
    WriteTables(code, s, c, i, s', h, b);
    GivenWay(code, s, c, i, h, b);
    AgreesAt(s, h, b);
  }

  lemma ProperParts(code: Code, s: System, c: Client, i: Interval, s': System)
    requires Agree(s) && Step(code, s, c, i, W, s')
    ensures Separated(s.writers) && i.Proper() && forall r :: r in s.readers ==> r.span.Proper()
  {
    hide Separated, ClientsAgree, TablesServed, GoesWrong, IsCarved;
  }

  lemma WriterTableAfter(code: Code, s: System, c: Client, i: Interval, s': System, b: nat)
    requires Separated(s.writers) && Step(code, s, c, i, W, s')
    ensures At(s'.writers, b) == if i.Has(b) then Some(c) else At(s.writers, b)
  {
    var w := s'.writers - {i};
    assert IsCarved(s.writers, i, w) && s'.writers == w[i := c];
    hide IsCarved, TablesServed, GoesWrong, OrderFor, HitBy, At;
    CarvedAt(s.writers, i, w);
    AtInsert(w, i, c);
  }

  lemma ReaderTableAfter(v: seq<Reader>, cut: Interval, h: Client, b: nat)
    requires cut.Proper() && forall r :: r in v ==> r.span.Proper()
    ensures Covers(Kept(v, cut) + Cuttings(v, cut), h, b) <==> Covers(v, h, b) && !cut.Has(b)
  {
    RevokeAllClears(v, cut);
    hide Covers, Kept, Cuttings;
  }

  lemma AgreesAt(s: System, h: Client, b: nat)
    requires Agree(s) && h < |s.tables|
    ensures At(s.tables[h], b) == Some(W) ==> At(s.writers, b) == Some(h)
    ensures At(s.tables[h], b) == Some(R) ==> Covers(s.readers, h, b)
  {
    hide ServerConsistent, Separated, At, Covers;
  }

  lemma AgreesEverywhere(s: System)
    requires forall h: Client, b: nat :: h < |s.tables| ==> AgreesOn(s, h, b)
    ensures ClientsAgree(s)
  {
    hide At, Covers;
    forall h: Client, b: nat | h < |s.tables|
      ensures At(s.tables[h], b) == Some(W) ==> At(s.writers, b) == Some(h)
      ensures At(s.tables[h], b) == Some(R) ==> Covers(s.readers, h, b)
    {
      assert AgreesOn(s, h, b);
    }
  }

  /** A write keeps client and server tables in agreement exactly when everyone else gives way and, in the
      pass as written, no two neighbouring reader entries stand in its way. */
  lemma WriteAgreesIff(code: Code, s: System, c: Client, i: Interval, s': System)
    requires Agree(s) && Step(code, s, c, i, W, s')
    ensures Agree(s') <==> OthersGiveWay(code, s, c, i) && (code == Intended || NoNeighboursOverlap(s.readers, i))
  {
    AgreeIsExclusive(s);
    WriteIsExclusiveIff(code, s, c, i, s');
    if Agree(s') {
      AgreeIsExclusive(s');
    }
    if code != Intended && !NoNeighboursOverlap(s.readers, i) {
      SkimMissesNeighbour(s.readers, i);
      var r :| r in SkimKept(s.readers, i) && Overlaps(r.span, i);
      assert r in s'.readers && i in s'.writers && Overlaps(i, r.span);
    } else if OthersGiveWay(code, s, c, i) {
      if code != Intended {
        SkimWithoutNeighbours(s.readers, i);
      }
      WriteKeepsServer(code, s, c, i, s');
      WriteKeepsClients(code, s, c, i, s');
    }
  }

  /** Where revokes are understood, everyone else gives way if every reader is reached. */
  lemma UnderstoodRevokesGiveWay(code: Code, s: System, c: Client, i: Interval)
    requires Agree(s) && !code.AsWritten? && (code == Intended || NoNeighboursOverlap(s.readers, i))
    ensures OthersGiveWay(code, s, c, i)
  {
    if code != Intended {
      SkimWithoutNeighbours(s.readers, i);
    }
    forall h: Client, b: nat | h < |s.tables| && i.Has(b) && At(s.tables[h], b).Some?
      ensures Given(code, s, i, h, b)
    {
      HoldersAreHit(s, i, h, b);
      match At(s.tables[h], b).value { case R => case W => }
    }
  }

  ghost predicate NobodyToRevoke(s: System, c: Client, i: Interval) {
    forall h: Client, b: nat :: h < |s.tables| && h != c && i.Has(b) ==> At(s.tables[h], b) == None
  }

  /** In the code as written a writer's revokes are taken for another file's, so everyone else gives way only
      if there is nobody. */
  lemma UnreadRevokesGiveWayIff(file: string, s: System, c: Client, i: Interval)
    requires ' ' !in file && i.Proper() && file != Wire.Printed(i.lo)
    ensures OthersGiveWay(AsWritten(file), s, c, i) <==> NobodyToRevoke(s, c, i)
  {
    OrderIsInBounds(AsWritten(file), i, W);
    hide OrderFor, HitBy, At;
  }

  /** One write by the code as written throughout: the exact conditions, on tables that agreed. */
  lemma UnreadWriteAgreesIff(file: string, s: System, c: Client, i: Interval, s': System)
    requires ' ' !in file && file != Wire.Printed(i.lo) && Agree(s) && Step(AsWritten(file), s, c, i, W, s')
    ensures Exclusive(s') <==> NobodyToRevoke(s, c, i)
    ensures Agree(s') <==> NobodyToRevoke(s, c, i) && NoNeighboursOverlap(s.readers, i)
  {
    UnreadRevokesGiveWayIff(file, s, c, i);
    AgreeIsExclusive(s);
    WriteIsExclusiveIff(AsWritten(file), s, c, i, s');
    WriteAgreesIff(AsWritten(file), s, c, i, s');
    hide *;
  }

  /** One write by the loops as written, if its revokes were understood: agreement needs a pass without
      overlapping neighbours; exclusion only that every other client with permission there is reached, as it is
      when the neighbours belong to one client. */
  lemma UnderstoodWriteAgreesIff(s: System, c: Client, i: Interval, s': System)
    requires Agree(s) && Step(LoopsAsWritten, s, c, i, W, s')
    ensures Agree(s') <==> NoNeighboursOverlap(s.readers, i)
    ensures Exclusive(s') <==> OthersAreReached(s, c, i)
  {
    AgreeIsExclusive(s);
    WriteIsExclusiveIff(LoopsAsWritten, s, c, i, s');
    assert i.lo <= i.hi;
    ReachedGiveWay(s, c, i);
    if NoNeighboursOverlap(s.readers, i) {
      UnderstoodRevokesGiveWay(LoopsAsWritten, s, c, i);
    }
    WriteAgreesIff(LoopsAsWritten, s, c, i, s');
    hide *;
  }

  ghost predicate OthersAreReached(s: System, c: Client, i: Interval) {
    forall h: Client, b: nat :: h < |s.tables| && h != c && i.Has(b) && At(s.tables[h], b).Some? ==>
      h in WritersHit(s.writers, i) + SkimHit(s.readers, i)
  }

  lemma ReachedGiveWay(s: System, c: Client, i: Interval)
    requires i.lo <= i.hi
    ensures OthersGiveWay(LoopsAsWritten, s, c, i) <==> OthersAreReached(s, c, i)
  {
    hide At, WritersHit, SkimHit;
  }

  /** The inductive invariant: whatever is requested, client tables and server tables go on agreeing. */
  lemma StepKeepsAgreement(s: System, c: Client, i: Interval, mode: Mode, s': System)
    requires Agree(s) && Step(Intended, s, c, i, mode, s')
    ensures Agree(s')
  {
    match mode
    case R =>
      ReadStepKeepsServer(s, c, i, s');
      ReadStepKeepsClients(s, c, i, s');
    case W =>
      UnderstoodRevokesGiveWay(Intended, s, c, i);
      WriteAgreesIff(Intended, s, c, i, s');
  }

  lemma {:induction false} SkimKeepsCover(v: seq<Reader>, cut: Interval, h: Client, b: nat)
    requires cut.Proper() && !cut.Has(b) && forall r :: r in v ==> r.span.Proper()
    ensures Covers(SkimKept(v, cut) + SkimCuttings(v, cut), h, b) <==> Covers(v, h, b)
    decreases |v|
  {
    hide PiecesOf;
    if v != [] {
      assert forall r :: r in v <==> r == v[0] || r in v[1..];
      var passed, rest := [v[0]], v[1..];
      if Overlaps(v[0].span, cut) {
        PiecesOfMeaning(v[0], cut);
        passed := PiecesOf(v[0], cut);
        if |v| > 1 {
          assert forall r :: r in v[1..] <==> r == v[1] || r in v[2..];
          passed, rest := passed + [v[1]], v[2..];
        }
      }
      SkimKeepsCover(rest, cut, h, b);
      SkimKeepsCoverStep(v, cut, passed, rest, h, b);
    }
  }

  lemma SkimKeepsCoverStep(v: seq<Reader>, cut: Interval, passed: seq<Reader>, rest: seq<Reader>, h: Client, b: nat)
    requires v != [] && cut.Proper() && v[0].span.Proper() && !cut.Has(b)
    requires passed == if !Overlaps(v[0].span, cut) then [v[0]]
                       else PiecesOf(v[0], cut) + if |v| == 1 then [] else [v[1]]
    requires rest == if !Overlaps(v[0].span, cut) || |v| == 1 then v[1..] else v[2..]
    requires Covers(SkimKept(rest, cut) + SkimCuttings(rest, cut), h, b) <==> Covers(rest, h, b)
    ensures Covers(SkimKept(v, cut) + SkimCuttings(v, cut), h, b) <==> Covers(v, h, b)
  {
    PiecesOfMeaning(v[0], cut);
    var now, later := SkimKept(v, cut) + SkimCuttings(v, cut), SkimKept(rest, cut) + SkimCuttings(rest, cut);
    var whole := if !Overlaps(v[0].span, cut) || |v| == 1 then [v[0]] else [v[0], v[1]];
    assert v == whole + rest;
    assert forall r :: r in now <==> r in passed || r in later;
    CoversSplit(v, whole, rest, h, b);
    CoversSplit(now, passed, later, h, b);
    hide SkimKept, SkimCuttings;
    PassedCovers(v[0], cut, whole, passed, h, b);
  }

  /** The entry looked at covers a block outside the cut just when its pieces do. */
  lemma PassedCovers(r: Reader, cut: Interval, whole: seq<Reader>, passed: seq<Reader>, h: Client, b: nat)
    requires cut.Proper() && r.span.Proper() && !cut.Has(b) && whole != [] && whole[0] == r && |whole| <= 2
    requires passed == (if Overlaps(r.span, cut) then PiecesOf(r, cut) else [r]) + whole[1..]
    ensures Covers(whole, h, b) <==> Covers(passed, h, b)
  {
    PiecesOfMeaning(r, cut);
    hide PiecesOf;
    var pieces := if Overlaps(r.span, cut) then PiecesOf(r, cut) else [r];
    CoversSplit(whole, [r], whole[1..], h, b);
    CoversSplit(passed, pieces, whole[1..], h, b);
    assert r in [r];
  }

  /** Outside the interval nothing changes in the server's tables, whatever the code: not the writer of any
      block, nor its readers. */
  lemma ServerIsFramed(code: Code, s: System, c: Client, i: Interval, mode: Mode, s': System, b: nat, h: Client)
    requires Separated(s.writers) && (forall r :: r in s.readers ==> r.span.Proper())
    requires Step(code, s, c, i, mode, s') && !i.Has(b)
    ensures At(s'.writers, b) == At(s.writers, b)
    ensures Covers(s'.readers, h, b) <==> Covers(s.readers, h, b)
  {
    match mode {
      case R =>
        hide IsCarved, At, TablesServed, GoesWrong;
        CarvedAt(s.writers, i, s'.writers);
        CoversSplit(s'.readers, s.readers, [Reader(i, c)], h, b);
      case W =>
        WriterTableAfter(code, s, c, i, s', b);
        RevokeAllClears(s.readers, i);
        SkimKeepsCover(s.readers, i, h, b);
        hide IsCarved, At, TablesServed, GoesWrong, Kept, Cuttings, SkimKept, SkimCuttings, Covers;
    }
  }

  /** Outside the interval a client's permission changes exactly when the client takes a revoke for a range
      that reaches there.  No revoke does, unless it is a writer's and the file is called by the number of the
      first block. */
  lemma StepIsFramed(code: Code, s: System, c: Client, i: Interval, mode: Mode, s': System, b: nat, h: Client)
    requires Named(code) && Step(code, s, c, i, mode, s') && !i.Has(b) && h < |s.tables|
    ensures At(s'.tables[h], b) == At(s.tables[h], b) <==>
            At(s.tables[h], b) == None ||
            !(h in HitBy(code, s, i, mode) && GivesUp(OrderFor(code, i, mode), s.tables[h], b))
    ensures (mode == W && code.AsWritten? ==> code.file != Wire.Printed(i.lo)) ==>
              At(s'.tables[h], b) == At(s.tables[h], b)
  {
    OrderIsInBounds(code, i, mode);
    ServedAt(s.tables, c, i, mode, OrderFor(code, i, mode), HitBy(code, s, i, mode), s'.tables, h, b);
    UnorderedUnlessHit(code, s, c, i, mode, s', h);
    hide Step, TablesServed, OrderFor, HitBy, At, Wire.Printed;
  }

  /** A client that is sent a revoke does not have it overrun. */
  lemma UnorderedUnlessHit(code: Code, s: System, c: Client, i: Interval, mode: Mode, s': System, h: Client)
    requires Step(code, s, c, i, mode, s')
    ensures h in HitBy(code, s, i, mode) ==> OrderFor(code, i, mode) != Overrun
    ensures |s'.tables| == |s.tables|
  {
    hide OrderFor, HitBy, IsCarved;
  }

  /** On the interval, the client that asked has what it asked for, and no other client is in its way. */
  lemma StepGrants(s: System, c: Client, i: Interval, mode: Mode, s': System, b: nat, h: Client)
    requires Agree(s) && Step(Intended, s, c, i, mode, s') && i.Has(b) && h < |s.tables|
    ensures Rank(At(s'.tables[c], b)) >= Rank(Some(mode))
    ensures h != c ==> At(s'.tables[h], b) != Some(W) && (mode == W ==> At(s'.tables[h], b) == None)
    ensures mode == W ==> At(s'.writers, b) == Some(c) && !Covers(s'.readers, h, b)
    ensures mode == R ==> At(s'.writers, b) == None && Covers(s'.readers, c, b)
  {
    hide IsCarved, SubtractInterval, Kept, Cuttings, PiecesOf, Hit;
    HoldersAreHit(s, i, h, b);
    match mode {
      case R =>
        CarvedAt(s.writers, i, s'.writers);
        assert Reader(i, c) in s'.readers;
      case W =>
        var w := s'.writers - {i};
        CarvedAt(s.writers, i, w);
        assert s'.writers == w[i := c];
        AtInsert(w, i, c);
        RevokeAllClears(s.readers, i);
        match At(s.tables[h], b) {
          case None =>
          case Some(m) => match m { case R => case W => }
        }
    }
  }

  // ------------------------------------------------------------------ runs

  ghost predicate Initial(s: System) {
    s.writers == map[] && s.readers == [] && forall h :: 0 <= h < |s.tables| ==> s.tables[h] == map[]
  }

  ghost predicate CanStep(code: Code, s: System, s': System) {
    exists c, i, mode :: Step(code, s, c, i, mode, s')
  }

  /** A finite run of the protocol, with any number of clients and any requests. */
  ghost predicate IsRun(code: Code, run: seq<System>) {
    && run != [] && Initial(run[0])
    && forall n :: 0 <= n < |run| - 1 ==> CanStep(code, run[n], run[n + 1])
  }

  lemma {:induction false} RunsAgree(run: seq<System>, n: nat)
    requires IsRun(Intended, run) && n < |run|
    ensures Agree(run[n])
  {
    if n > 0 {
      RunsAgree(run, n - 1);
      assert CanStep(Intended, run[n - 1], run[n - 1 + 1]);
      var c, i, mode :| Step(Intended, run[n - 1], c, i, mode, run[n]);
      StepKeepsAgreement(run[n - 1], c, i, mode, run[n]);
    }
  }

  /** In every state of every run, a block that one client may write is open to no other client. */
  lemma RunsAreExclusive(run: seq<System>, n: nat)
    requires IsRun(Intended, run) && n < |run|
    ensures Exclusive(run[n])
  {
    RunsAgree(run, n);
    AgreeIsExclusive(run[n]);
  }

  // ------------------------------------------------------------------ which runs are exclusive

  /** A client that may write a block is listed as its writer. */
  ghost predicate WritersListed(s: System) {
    && Separated(s.writers)
    && forall h: Client, b: nat :: h < |s.tables| && At(s.tables[h], b) == Some(W) ==> At(s.writers, b) == Some(h)
  }

  lemma InitialIsListed(s: System)
    requires Initial(s)
    ensures Exclusive(s) && WritersListed(s)
  {
  }

  /** After a read nobody may write on the interval, and elsewhere nothing has changed. */
  lemma ReadTables(s: System, c: Client, i: Interval, s': System, h: Client, b: nat)
    requires WritersListed(s) && Step(Intended, s, c, i, R, s') && h < |s.tables|
    ensures i.Has(b) ==> At(s'.tables[h], b) != Some(W)
    ensures !i.Has(b) ==> At(s'.tables[h], b) == At(s.tables[h], b) && At(s'.writers, b) == At(s.writers, b)
  {
    ServedAt(s.tables, c, i, R, OrderFor(Intended, i, R), HitBy(Intended, s, i, R), s'.tables, h, b);
    if At(s.tables[h], b) == Some(W) && i.Has(b) {
      var k := AtHasKey(s.writers, b);
      assert Overlaps(k, i) && s.writers[k] == h;
      assert h in WritersHit(s.writers, i);
    }
    CarvedAt(s.writers, i, s'.writers);
    hide IsCarved, TablesServed, At, WritersListed, WritersHit;
  }

  lemma ReadKeepsListed(s: System, c: Client, i: Interval, s': System)
    requires Exclusive(s) && WritersListed(s) && Step(Intended, s, c, i, R, s')
    ensures Exclusive(s') && WritersListed(s')
  {
    CarvedAt(s.writers, i, s'.writers);
    assert Separated(s'.writers) && |s'.tables| == |s.tables|;
    forall h: Client, b: nat | h < |s.tables|
      ensures i.Has(b) ==> At(s'.tables[h], b) != Some(W)
      ensures !i.Has(b) ==> At(s'.tables[h], b) == At(s.tables[h], b) && At(s'.writers, b) == At(s.writers, b)
    {
      ReadTables(s, c, i, s', h, b);
    }
    hide Step, At, Separated;
  }

  /** A write that leaves the state exclusive lists its writer. */
  lemma WriteKeepsListed(code: Code, s: System, c: Client, i: Interval, s': System)
    requires WritersListed(s) && Step(code, s, c, i, W, s') && Exclusive(s')
    ensures WritersListed(s')
  {
    AskerExists(code, s, c, i, s');
    WritersStaySeparated(code, s, c, i, s');
    assert Separated(s.writers);
    hide Step, At, Separated, Given;
    forall h: Client, b: nat | h < |s'.tables| && At(s'.tables[h], b) == Some(W)
      ensures At(s'.writers, b) == Some(h)
    {
      WriterTableAfter(code, s, c, i, s', b);
      WriteTables(code, s, c, i, s', h, b);
      WriteTables(code, s, c, i, s', c, b);
    }
  }

  lemma WritersStaySeparated(code: Code, s: System, c: Client, i: Interval, s': System)
    requires Separated(s.writers) && Step(code, s, c, i, W, s')
    ensures Separated(s'.writers)
  {
    var w := s'.writers - {i};
    assert IsCarved(s.writers, i, w) && s'.writers == w[i := c];
    hide IsCarved, TablesServed, GoesWrong, OrderFor, HitBy, At;
    CarvedAt(s.writers, i, w);
    AtInsert(w, i, c);
  }

  /** Whoever the step's write was for, everyone else gave way. */
  ghost predicate WritesGiveWay(code: Code, s: System, s': System) {
    forall c, i :: Step(code, s, c, i, W, s') ==> OthersGiveWay(code, s, c, i)
  }

  /** One step from an exclusive state with its writers listed: the next one is exclusive, and then lists its
      writers, exactly when its write gave way. */
  lemma StepIsExclusiveIff(code: Code, s: System, s': System)
    requires Named(code) && CanStep(code, s, s') && Exclusive(s) && WritersListed(s)
    ensures Exclusive(s') <==> WritesGiveWay(code, s, s')
    ensures Exclusive(s') ==> WritersListed(s')
  {
    hide Step, Exclusive, WritersListed, OthersGiveWay;
    if Exclusive(s') {
      forall c, i | Step(code, s, c, i, W, s')
        ensures OthersGiveWay(code, s, c, i)
      {
        WriteIsExclusiveIff(code, s, c, i, s');
      }
    }
    var c, i, mode :| Step(code, s, c, i, mode, s');
    if mode == R {
      ReadStepIsIntended(code, s, c, i, s');
      ReadKeepsListed(s, c, i, s');
    } else {
      WriteIsExclusiveIff(code, s, c, i, s');
      if Exclusive(s') {
        WriteKeepsListed(code, s, c, i, s');
      }
    }
  }

  lemma {:induction false} ExclusiveUpTo(code: Code, run: seq<System>, n: nat)
    requires Named(code) && IsRun(code, run) && n < |run|
    requires forall m :: 0 <= m < n ==> WritesGiveWay(code, run[m], run[m + 1])
    ensures Exclusive(run[n]) && WritersListed(run[n])
  {
    hide Exclusive, WritersListed, WritesGiveWay, CanStep;
    if n == 0 {
      InitialIsListed(run[0]);
    } else {
      ExclusiveUpTo(code, run, n - 1);
      assert CanStep(code, run[n - 1], run[n - 1 + 1]) && WritesGiveWay(code, run[n - 1], run[n - 1 + 1]);
      StepIsExclusiveIff(code, run[n - 1], run[n]);
    }
  }

  /** Exactly the exclusive runs, for every code, messages included: those in which everyone else gives way to
      every write. */
  lemma RunsAreExclusiveIff(code: Code, run: seq<System>)
    requires Named(code) && IsRun(code, run)
    ensures (forall n :: 0 <= n < |run| ==> Exclusive(run[n])) <==>
            (forall m :: 0 <= m < |run| - 1 ==> WritesGiveWay(code, run[m], run[m + 1]))
  {
    hide Exclusive, WritesGiveWay, Step, CanStep, Initial;
    if forall n :: 0 <= n < |run| ==> Exclusive(run[n]) {
      forall m | 0 <= m < |run| - 1
        ensures WritesGiveWay(code, run[m], run[m + 1])
      {
        assert Exclusive(run[m]) && Exclusive(run[m + 1]);
        GaveWay(code, run[m], run[m + 1]);
      }
    }
    if forall m :: 0 <= m < |run| - 1 ==> WritesGiveWay(code, run[m], run[m + 1]) {
      forall n | 0 <= n < |run|
        ensures Exclusive(run[n])
      {
        ExclusiveUpTo(code, run, n);
      }
    }
  }

  lemma GaveWay(code: Code, s: System, s': System)
    requires Exclusive(s) && Exclusive(s')
    ensures WritesGiveWay(code, s, s')
  {
    hide Step, Exclusive, OthersGiveWay;
    forall c, i | Step(code, s, c, i, W, s')
      ensures OthersGiveWay(code, s, c, i)
    {
      WriteIsExclusiveIff(code, s, c, i, s');
    }
  }

  /** Whoever the step's write was for, nobody else had permission on the interval. */
  ghost predicate WritesUnopposed(file: string, s: System, s': System) {
    forall c, i :: Step(AsWritten(file), s, c, i, W, s') ==> NobodyToRevoke(s, c, i)
  }

  ghost predicate IsNoNumber(file: string) {
    ' ' !in file && forall k: nat :: file != Wire.Printed(k)
  }

  lemma UnopposedIff(file: string, s: System, s': System)
    requires IsNoNumber(file)
    ensures WritesGiveWay(AsWritten(file), s, s') <==> WritesUnopposed(file, s, s')
  {
    hide Wire.Printed;
    forall c, i | Step(AsWritten(file), s, c, i, W, s')
      ensures OthersGiveWay(AsWritten(file), s, c, i) <==> NobodyToRevoke(s, c, i)
    {
      assert i.Proper();
      UnreadRevokesGiveWayIff(file, s, c, i);
    }
    hide Step, OthersGiveWay, NobodyToRevoke;
  }

  /** The code as written, on a file whose name is no number: exclusive are exactly the runs in which no write
      meets another client's permission. */
  lemma UnreadRunsAreExclusiveIff(file: string, run: seq<System>)
    requires IsNoNumber(file) && IsRun(AsWritten(file), run)
    ensures (forall n :: 0 <= n < |run| ==> Exclusive(run[n])) <==>
            (forall m :: 0 <= m < |run| - 1 ==> WritesUnopposed(file, run[m], run[m + 1]))
  {
    RunsAreExclusiveIff(AsWritten(file), run);
    forall m | 0 <= m < |run| - 1
      ensures WritesGiveWay(AsWritten(file), run[m], run[m + 1]) <==> WritesUnopposed(file, run[m], run[m + 1])
    {
      UnopposedIff(file, run[m], run[m + 1]);
    }
    hide Exclusive, WritesGiveWay, WritesUnopposed, IsRun;
  }

  // ------------------------------------------------------------------ which runs keep the tables in agreement

  /** Whoever the step's write was for, everyone else gave way and the pass met no overlapping neighbours. */
  ghost predicate WritesAgree(code: Code, s: System, s': System) {
    forall c, i :: Step(code, s, c, i, W, s') ==>
      OthersGiveWay(code, s, c, i) && (code == Intended || NoNeighboursOverlap(s.readers, i))
  }

  lemma StepAgreesIff(code: Code, s: System, s': System)
    requires Named(code) && CanStep(code, s, s') && Agree(s)
    ensures Agree(s') <==> WritesAgree(code, s, s')
  {
    hide Step, Agree, OthersGiveWay, NoNeighboursOverlap;
    if Agree(s') {
      forall c, i | Step(code, s, c, i, W, s')
        ensures OthersGiveWay(code, s, c, i) && (code == Intended || NoNeighboursOverlap(s.readers, i))
      {
        WriteAgreesIff(code, s, c, i, s');
      }
    }
    var c, i, mode :| Step(code, s, c, i, mode, s');
    if mode == R {
      ReadStepIsIntended(code, s, c, i, s');
      StepKeepsAgreement(s, c, i, R, s');
    } else {
      WriteAgreesIff(code, s, c, i, s');
    }
  }

  lemma InitialAgrees(s: System)
    requires Initial(s)
    ensures Agree(s)
  {
  }

  lemma {:induction false} AgreeUpTo(code: Code, run: seq<System>, n: nat)
    requires Named(code) && IsRun(code, run) && n < |run|
    requires forall m :: 0 <= m < n ==> WritesAgree(code, run[m], run[m + 1])
    ensures Agree(run[n])
  {
    hide Agree, WritesAgree, CanStep;
    if n == 0 {
      InitialAgrees(run[0]);
    } else {
      AgreeUpTo(code, run, n - 1);
      assert CanStep(code, run[n - 1], run[n - 1 + 1]) && WritesAgree(code, run[n - 1], run[n - 1 + 1]);
      StepAgreesIff(code, run[n - 1], run[n]);
    }
  }

  /** Exactly the runs that keep client and server tables in agreement. */
  lemma RunsAgreeIff(code: Code, run: seq<System>)
    requires Named(code) && IsRun(code, run)
    ensures (forall n :: 0 <= n < |run| ==> Agree(run[n])) <==>
            (forall m :: 0 <= m < |run| - 1 ==> WritesAgree(code, run[m], run[m + 1]))
  {
    hide Agree, WritesAgree, Step, Initial, CanStep;
    if forall n :: 0 <= n < |run| ==> Agree(run[n]) {
      forall m | 0 <= m < |run| - 1
        ensures WritesAgree(code, run[m], run[m + 1])
      {
        assert Agree(run[m]) && Agree(run[m + 1]) && CanStep(code, run[m], run[m + 1]);
        StepAgreesIff(code, run[m], run[m + 1]);
      }
    }
    if forall m :: 0 <= m < |run| - 1 ==> WritesAgree(code, run[m], run[m + 1]) {
      forall n | 0 <= n < |run|
        ensures Agree(run[n])
      {
        AgreeUpTo(code, run, n);
      }
    }
  }

  // ------------------------------------------------------------------ runs that go wrong

  lemma SingleEntry(k: Interval, m: Mode)
    requires k.Proper()
    ensures Separated(map[k := m])
    ensures forall b: nat :: At(map[k := m], b) == if k.Has(b) then Some(m) else None
  {
    var none: Tokens := map[];
    AtInsert(none, k, m);
    assert none[k := m] == map[k := m];
  }

  /** With two neighbouring readers on just the requested range, only the first is revoked. */
  lemma SkimOfPair(a: Client, b: Client, i: Interval)
    requires i.Proper()
    ensures var v := [Reader(i, a), Reader(i, b)];
            && SkimKept(v, i) == [Reader(i, b)] && SkimCuttings(v, i) == [] && SkimHit(v, i) == {a}
            && !SkimErasesLast(v, i) && !SkimReallocates(v, i, 6)
  {
    var v := [Reader(i, a), Reader(i, b)];
    assert v[2..] == [] && PiecesOf(v[0], i) == [];
    assert SkimKept(v, i) == [v[1]] + SkimKept([], i);
    assert SkimCuttings(v, i) == PiecesOf(v[0], i) + SkimCuttings([], i);
    assert SkimHit(v, i) == {a} + SkimHit([], i);
    assert SkimErasesLast(v, i) == SkimErasesLast([], i);
    assert SkimReallocates(v, i, 6) == SkimReallocates([], i, 7);
  }

  lemma FirstRead(code: Code, i: Interval, r: Tokens, none: seq<Tokens>)
    requires i.Proper() && r == map[i := R] && none != [] && forall h :: 0 <= h < |none| ==> none[h] == map[]
    ensures Step(code, System(map[], [], 8, none), 0, i, R, System(map[], [Reader(i, 0)], 7, none[0 := r]))
  {
    SingleEntry(i, R);
  }

  /** A writer beside another client's token, after a run. */
  lemma EndsShared(code: Code, run: seq<System>, h: Client, g: Client, i: Interval, j: Interval, m: Mode)
    requires IsRun(code, run) && i.Proper() && j.Proper() && j.Has(i.lo) && h != g
    requires var s := run[|run| - 1];
             h < |s.tables| && g < |s.tables| && s.tables[h] == map[i := W] && s.tables[g] == map[j := m]
    ensures !Exclusive(run[|run| - 1])
  {
    SingleEntry(i, W);
    SingleEntry(j, m);
    var s := run[|run| - 1];
    hide IsRun, At;
    assert At(s.tables[h], i.lo) == Some(W) && At(s.tables[g], i.lo) == Some(m);
  }

  lemma OneStep(code: Code, s: System, c: Client, i: Interval, mode: Mode, s': System)
    requires Step(code, s, c, i, mode, s')
    ensures CanStep(code, s, s')
  {
    hide Step;
  }

  lemma SecondRead(i: Interval, r: Tokens)
    requires i.Proper() && r == map[i := R]
    ensures Step(LoopsAsWritten, System(map[], [Reader(i, 0)], 7, [r, map[], map[]]), 1, i, R,
                 System(map[], [Reader(i, 0), Reader(i, 1)], 6, [r, r, map[]]))
  {
    SingleEntry(i, R);
  }

  lemma WritePastReader(i: Interval, r: Tokens, w: Tokens)
    requires i.Proper() && r == map[i := R] && w == map[i := W]
    ensures Step(LoopsAsWritten, System(map[], [Reader(i, 0), Reader(i, 1)], 6, [r, r, map[]]), 2, i, W,
                 System(map[i := 2], [Reader(i, 1)], 7, [map[], r, w]))
  {
    SingleEntry(i, R);
    SingleEntry(i, W);
    SkimOfPair(0, 1, i);
    var writers: map<Interval, Client> := map[i := 2];
    assert writers - {i} == map[];
  }

  /** Two clients read block 0, then a third writes it: the pass skips the second reader, which keeps its
      token beside the new writer, although it would have understood a revoke. */
  lemma SkippedReader() returns (run: seq<System>)
    ensures IsRun(LoopsAsWritten, run) && !Exclusive(run[|run| - 1])
  {
    var i := Interval(0, 0);
    var r, w: Tokens := map[i := R], map[i := W];
    var s0 := System(map[], [], 8, [map[], map[], map[]]);
    var s1 := System(map[], [Reader(i, 0)], 7, [r, map[], map[]]);
    var s2 := System(map[], [Reader(i, 0), Reader(i, 1)], 6, [r, r, map[]]);
    var s3 := System(map[i := 2], [Reader(i, 1)], 7, [map[], r, w]);
    run := [s0, s1, s2, s3];
    assert s0.tables[0 := r] == s1.tables;
    hide *;
    assert Initial(s0) by { EmptyIsInitial(s0); }
    assert i.Proper() by { ZeroIsProper(0); }
    FirstRead(LoopsAsWritten, i, r, s0.tables);
    OneStep(LoopsAsWritten, s0, 0, i, R, s1);
    SecondRead(i, r);
    OneStep(LoopsAsWritten, s1, 1, i, R, s2);
    WritePastReader(i, r, w);
    OneStep(LoopsAsWritten, s2, 2, i, W, s3);
    RunOfFour(LoopsAsWritten, s0, s1, s2, s3);
    assert i.Has(i.lo) by { ZeroIsProper(0); }
    EndsShared(LoopsAsWritten, run, 2, 1, i, i, R);
  }

  lemma EmptyIsInitial(s: System)
    requires s.writers == map[] && s.readers == [] && forall h :: 0 <= h < |s.tables| ==> s.tables[h] == map[]
    ensures Initial(s)
  {
  }

  lemma ZeroIsProper(hi: nat)
    requires hi <= 1
    ensures Interval(0, hi).Proper() && Interval(0, hi).Has(0)
  {
  }

  lemma RunOfFour(code: Code, s0: System, s1: System, s2: System, s3: System)
    requires Initial(s0) && CanStep(code, s0, s1) && CanStep(code, s1, s2)
    ensures IsRun(code, [s0, s1, s2])
    ensures CanStep(code, s2, s3) ==> IsRun(code, [s0, s1, s2, s3])
  {
    hide Initial, CanStep;
  }

  /** The reader that holds more than the request is revoked, its entry is cut, and its table stays. */
  lemma WritePastUnreadRevoke(file: string, r: Tokens, w: Tokens)
    requires ' ' !in file && file != "0" && r == map[Interval(0, 1) := R] && w == map[Interval(0, 0) := W]
    ensures Step(AsWritten(file), System(map[], [Reader(Interval(0, 1), 0)], 7, [r, map[]]), 1, Interval(0, 0), W,
                 System(map[Interval(0, 0) := 1], [Reader(Interval(1, 1), 0)], 7, [r, w]))
  {
    var i, s := Interval(0, 0), System(map[], [Reader(Interval(0, 1), 0)], 7, [r, map[]]);
    SkimOfOne(0);
    assert Wire.Printed(0) == "0";
    OrderIsInBounds(AsWritten(file), i, W);
    NothingGivenUp(r, w, HitBy(AsWritten(file), s, i, W));
    var writers: map<Interval, Client> := map[i := 1];
    assert writers - {i} == map[];
    hide OrderFor, Wire.Printed, TablesServed, SkimKept, SkimCuttings, SkimHit, SkimErasesLast, SkimReallocates,
         SubtractInterval;
  }

  lemma SkimOfOne(h: Client)
    ensures var v, i := [Reader(Interval(0, 1), h)], Interval(0, 0);
            SkimKept(v, i) == [] && SkimCuttings(v, i) == [Reader(Interval(1, 1), h)] && !SkimReallocates(v, i, 7)
  {
    var v, i := [Reader(Interval(0, 1), h)], Interval(0, 0);
    assert PiecesOf(v[0], i) == [Reader(Interval(1, 1), h)];
    assert SkimCuttings(v, i) == PiecesOf(v[0], i) + [];
  }

  lemma NothingGivenUp(r: Tokens, w: Tokens, hit: set<Client>)
    requires r == map[Interval(0, 1) := R] && w == map[Interval(0, 0) := W]
    ensures TablesServed([r, map[]], 1, Interval(0, 0), W, NotMine, hit, [r, w])
  {
    SingleEntry(Interval(0, 1), R);
    SingleEntry(Interval(0, 0), W);
  }

  /** One client reads blocks 0 and 1 of any file not called "0", then another writes block 0: the guard of
      the reader pass holds, and yet the reader keeps its token beside the writer's. */
  lemma UnreadRevoke(file: string) returns (run: seq<System>)
    requires ' ' !in file && file != "0"
    ensures IsRun(AsWritten(file), run) && !Exclusive(run[|run| - 1])
  {
    var i, j := Interval(0, 0), Interval(0, 1);
    var r, w: Tokens := map[j := R], map[i := W];
    var s0 := System(map[], [], 8, [map[], map[]]);
    var s1 := System(map[], [Reader(j, 0)], 7, [r, map[]]);
    var s2 := System(map[i := 1], [Reader(Interval(1, 1), 0)], 7, [r, w]);
    run := [s0, s1, s2];
    assert s0.tables[0 := r] == s1.tables;
    hide *;
    EmptyIsInitial(s0);
    ZeroIsProper(0);
    ZeroIsProper(1);
    FirstRead(AsWritten(file), j, r, s0.tables);
    OneStep(AsWritten(file), s0, 0, j, R, s1);
    WritePastUnreadRevoke(file, r, w);
    OneStep(AsWritten(file), s1, 1, i, W, s2);
    RunOfFour(AsWritten(file), s0, s1, s2, s2);
    EndsShared(AsWritten(file), run, 1, 0, i, j, R);
  }

  /** The commonest write of all: one client reads a range, another writes the same range.  The only reader
      entry is erased, nothing is pushed, and the iterator leaves the vector: no step of the code as written
      serves this request. */
  lemma WriteWhereOneReads(code: Code, i: Interval, s: System, s': System)
    requires code != Intended && i.Proper() && s.readers == [Reader(i, 0)]
    ensures SkimRunsPastEnd(s.readers, i) && !Step(code, s, 1, i, W, s')
  {
    assert PiecesOf(s.readers[0], i) == [];
    assert SkimCuttings(s.readers, i) == PiecesOf(s.readers[0], i) + [];
    assert SkimErasesLast(s.readers, i);
    hide TablesServed, IsCarved, OrderFor, HitBy;
  }

  /** A split with no room left: one entry goes, two pieces come. */
  lemma SplitWithoutRoom(h: Client)
    ensures SkimReallocates([Reader(Interval(0, 2), h)], Interval(1, 1), 0)
    ensures !SkimRunsPastEnd([Reader(Interval(0, 2), h)], Interval(1, 1))
  {
    var v, i := [Reader(Interval(0, 2), h)], Interval(1, 1);
    assert |PiecesOf(v[0], i)| == 2;
    assert SkimCuttings(v, i) == PiecesOf(v[0], i) + [];
  }
}
