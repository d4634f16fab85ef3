/** What a client's token table means, and when adding to it does what it should.

    Everything here is about table values: the meaning of a table block by block, the two ways in which
    adding a range goes wrong, and the invariant that the adding loop keeps. */
module Permissions {
  import opened Intervals

  datatype Mode = R | W

  type Tokens = map<Interval, Mode>

  /** None < r < w. */
  function Rank(p: Option<Mode>): nat {
    match p
    case None => 0
    case Some(R) => 1
    case Some(W) => 2
  }

  function Stronger(p: Option<Mode>, q: Option<Mode>): Option<Mode> {
    if Rank(p) < Rank(q) then q else p
  }

  /** The permission a block should have once `mode` has been added on `req`: a pointwise join. */
  ghost function Joined(t: Tokens, req: Interval, mode: Mode, b: nat): Option<Mode> {
    if req.Has(b) then Stronger(At(t, b), Some(mode)) else At(t, b)
  }

  /** `after` is, block by block, `before` with `mode` added on `req`. */
  ghost predicate JoinedOn(before: Tokens, req: Interval, mode: Mode, after: Tokens) {
    forall b: nat :: At(after, b) == Joined(before, req, mode, b)
  }

  /** Inside the range the stronger of the two modes, outside it nothing new. */
  ghost predicate StrongerInside(before: Tokens, start: nat, end: nat, mode: Mode, after: Tokens) {
    forall b: nat :: At(after, b) ==
      if !(start <= b <= end) then At(before, b)
      else if mode == W || At(before, b) == Some(W) then Some(W) else Some(R)
  }

  /** What the join means. */
  lemma JoinedBlocks(before: Tokens, req: Interval, mode: Mode, after: Tokens)
    ensures JoinedOn(before, req, mode, after) <==> StrongerInside(before, req.lo, req.hi, mode, after)
  {
    forall b: nat
      ensures Joined(before, req, mode, b) == if !(req.lo <= b <= req.hi) then At(before, b)
                                              else if mode == W || At(before, b) == Some(W) then Some(W) else Some(R)
    {
      hide At;
      match mode { case R => case W => }
    }
    hide At, Joined;
  }

  /** Adding twice is adding once, and the order of two additions does not matter. */
  lemma AddsCommute(t: Tokens, i: Interval, m: Mode, j: Interval, n: Mode,
                    ti: Tokens, tij: Tokens, tj: Tokens, tji: Tokens)
    requires JoinedOn(t, i, m, ti) && JoinedOn(ti, j, n, tij)
    requires JoinedOn(t, j, n, tj) && JoinedOn(tj, i, m, tji)
    ensures forall b: nat :: At(tij, b) == At(tji, b)
    ensures i == j && m == n ==> forall b: nat :: At(tij, b) == At(ti, b)
  {
    forall b: nat
      ensures At(tij, b) == At(tji, b)
      ensures i == j && m == n ==> At(tij, b) == At(ti, b)
    {
      assert At(tij, b) == Joined(ti, j, n, b) && At(ti, b) == Joined(t, i, m, b);
      assert At(tji, b) == Joined(tj, i, m, b) && At(tj, b) == Joined(t, j, n, b);
    }
  }

  // ------------------------------------------------------------------ what removing does

  /** `now` is what removing `start..end` leaves of `was`, also when the range is given backwards. */
  ghost predicate Removed(was: Tokens, start: nat, end: nat, now: Tokens) {
    if start <= end then IsCarved(was, Interval(start, end), now) else now == CutBackwards(was, start, end)
  }

  ghost predicate Lost(was: Tokens, start: nat, end: nat, b: nat) {
    if start <= end then start <= b <= end else LostBackwards(was, start, end, b)
  }

  lemma RemovedAt(was: Tokens, start: nat, end: nat, now: Tokens)
    requires Separated(was) && end <= MAX_BLOCK && Removed(was, start, end, now)
    ensures Separated(now)
    ensures forall b: nat :: At(now, b) == if Lost(was, start, end, b) then None else At(was, b)
  {
    hide IsCarved, Separated;
    if start <= end {
      CarvedAt(was, Interval(start, end), now);
    } else {
      CutBackwardsAt(was, start, end);
    }
  }

  /** Removing the same range again changes nothing. */
  lemma RemoveTwice(was: Tokens, start: nat, end: nat, once: Tokens, twice: Tokens)
    requires Separated(was) && end <= MAX_BLOCK && Removed(was, start, end, once) && Removed(once, start, end, twice)
    ensures twice == once
  {
    if start <= end {
      var cut := Interval(start, end);
      CarvedAt(was, cut, once);
      CarveStarts(once, cut);
      CarveDone(once, cut, once);
      CarvedIsUnique(once, cut, once, twice);
    } else {
      CutBackwardsAt(was, start, end);
    }
  }

  // ------------------------------------------------------------------ when adding goes wrong

  /** One entry that starts before the request already covers all of it, at least as strongly.  The
      branches for this shape change neither the map nor the working interval. */
  predicate Hangs(t: Tokens, req: Interval, mode: Mode) {
    exists k :: k in t && k.lo < req.lo && k.hi >= req.hi && (mode == R || t[k] == W)
  }

  /** The tail of an 'r' request is already covered by one entry that starts right at the request, or
      right after a 'w' entry that overlaps it: nothing is left to insert at the end. */
  predicate EndsCovered(t: Tokens, req: Interval) {
    exists k :: k in t && k.lo <= req.hi <= k.hi && (t[k] == W || k.hi > req.hi) &&
      (k.lo == req.lo || exists j :: j in t && t[j] == W && j.hi >= req.lo && j.hi + 1 == k.lo)
  }

  /** A 'w' entry that meets the request ends inside it. */
  predicate WriterCutsOff(t: Tokens, req: Interval) {
    exists j :: j in t && t[j] == W && Overlaps(j, req) && j.hi < req.hi
  }

  /** A 'w' entry cuts the request on one side, and the block just outside the request on that side is
      'r': the final merge reaches across the 'w' entry and its insert is dropped. */
  ghost predicate Clobbers(t: Tokens, req: Interval, mode: Mode) {
    && mode == R
    && !EndsCovered(t, req)
    && (|| (At(t, req.hi) == Some(W) && At(t, req.hi + 1) == Some(R))
        || (req.lo > 0 && At(t, req.lo - 1) == Some(R) && WriterCutsOff(t, req)))
  }

  /** Exactly the requests that the code serves as a pointwise join. */
  ghost predicate AddIsExact(t: Tokens, req: Interval, mode: Mode) {
    !Hangs(t, req, mode) && !Clobbers(t, req, mode)
  }

  /** A request that hangs has nothing to add: the table is its own join. */
  lemma HangingIsJoined(t: Tokens, req: Interval, mode: Mode)
    requires Separated(t) && Hangs(t, req, mode)
    ensures JoinedOn(t, req, mode, t)
  {
    var k :| k in t && k.lo < req.lo && k.hi >= req.hi && (mode == R || t[k] == W);
    forall b: nat | k.Has(b) {
      AtKey(t, k, b);
    }
    hide At;
  }

  ghost predicate Free(t: Tokens, req: Interval) {
    forall k :: k in t ==> !Overlaps(k, req)
  }

  /** A range with no permission on any of its blocks overlaps no entry, and is always served exactly. */
  lemma FreeIsExact(t: Tokens, req: Interval, mode: Mode)
    requires Separated(t) && req.Proper()
    requires forall b: nat :: req.Has(b) ==> At(t, b) == None
    ensures AddIsExact(t, req, mode) && Free(t, req)
  {
    forall k | k in t
      ensures !Overlaps(k, req)
    {
      if Overlaps(k, req) {
        AtKey(t, k, if k.lo < req.lo then req.lo else k.lo);
      }
    }
  }

  /** No 'w' request goes wrong except by hanging, and no 'r' request that meets no 'w' entry does. */
  lemma ExactWithoutWriters(t: Tokens, req: Interval, mode: Mode)
    requires Separated(t) && req.Proper() && !Hangs(t, req, mode)
    requires mode == W || forall k :: k in t && Overlaps(k, req) ==> t[k] == R
    ensures AddIsExact(t, req, mode)
  {
    if mode == R && At(t, req.hi) == Some(W) {
      var k := AtHasKey(t, req.hi);
      assert Overlaps(k, req);
    }
  }

  // ------------------------------------------------------------------ the adding loop's invariant

  /** Blocks outside the working interval are finished; those inside still have `mode` to be joined in. */
  ghost predicate HalfJoined(was: Tokens, req: Interval, mode: Mode, t: Tokens, bl: Interval) {
    forall b: nat :: Joined(was, req, mode, b) == if bl.Has(b) then Stronger(At(t, b), Some(mode)) else At(t, b)
  }

  /** Which part of the request the working interval stands for, and which old entries are still there. */
  ghost predicate InStep(was: Tokens, req: Interval, mode: Mode, t: Tokens, bl: Interval) {
    && (forall k :: k in t && Overlaps(k, bl) ==> k in was && was[k] == t[k])
    && (bl.hi == req.hi || forall k :: k in t ==> !Overlaps(k, bl))
    && (mode == R ==> forall k :: k in was && was[k] == W ==> k in t && t[k] == W)
    && (bl.lo > req.lo ==> mode == R && exists k :: k in was && was[k] == W && k.hi == bl.lo - 1)
    && (bl.lo < req.lo ==> exists k :: k in was && k !in t && was[k] == mode && k.lo == bl.lo && k.hi >= req.lo)
    && (bl.hi < req.hi ==> mode == R && exists k :: k in was && was[k] == W && k.lo == bl.hi + 1 && k.hi >= req.hi)
    && (forall k :: k in was && was[k] == mode && Overlaps(k, req) && k.hi > req.hi ==>
          k in t || (bl.hi == k.hi && bl.lo < k.lo))
  }

  ghost predicate AddInv(was: Tokens, req: Interval, mode: Mode, t: Tokens, bl: Interval) {
    && Separated(was) && Separated(t) && req.Proper() && bl.Proper() && Overlaps(bl, req)
    && HalfJoined(was, req, mode, t, bl)
    && InStep(was, req, mode, t, bl)
    && ((t == was && bl == req) || forall k :: k in t && Overlaps(k, bl) ==> bl.lo <= k.lo)
  }

  lemma AddStarts(was: Tokens, req: Interval, mode: Mode)
    requires Separated(was) && req.Proper()
    ensures AddInv(was, req, mode, was, req)
  {
  }

  lemma AddInvIsProper(was: Tokens, req: Interval, mode: Mode, t: Tokens, bl: Interval)
    requires AddInv(was, req, mode, t, bl)
    ensures Separated(was) && Separated(t) && bl.Proper() && req.Proper()
    ensures bl.lo <= bl.hi <= MAX_BLOCK
    ensures forall it :: Leftmost(t, bl, it) ==>
              it in t && it.Proper() && it.lo <= it.hi && it.lo <= bl.hi && bl.lo <= it.hi
    ensures forall it :: Leftmost(t, bl, it) && bl.Within(it) ==> forall k :: k in t - {it} ==> !Overlaps(k, bl)
  {
    hide InStep, HalfJoined;
    forall it | Leftmost(t, bl, it) && bl.Within(it)
      ensures forall k :: k in t - {it} ==> !Overlaps(k, bl)
    {
      OnlyOneOverlapped(t, it, bl);
    }
  }

  /** While something still overlaps: the entry found is an old one, it meets the request itself, and the
      right end has not moved. */
  lemma FoundIsOld(was: Tokens, req: Interval, mode: Mode, t: Tokens, bl: Interval, it: Interval)
    requires AddInv(was, req, mode, t, bl) && it in t && Overlaps(it, bl)
    ensures it in was && was[it] == t[it] && bl.hi == req.hi && it.hi >= req.lo && bl.lo <= req.hi
    ensures bl.lo < req.lo ==> it.lo > bl.lo
  {
    if bl.lo < req.lo {
      var k :| k in was && k !in t && was[k] == mode && k.lo == bl.lo && k.hi >= req.lo;
      assert !Overlaps(k, it);
    }
  }

  /** What every branch of the loop starts from.  Only a request that hangs meets an entry from the left. */
  lemma FoundIsThere(was: Tokens, req: Interval, mode: Mode, t: Tokens, bl: Interval, it: Interval)
    requires AddInv(was, req, mode, t, bl) && Leftmost(t, bl, it)
    requires Hangs(was, req, mode) ==> t == was && bl == req
    ensures it in t && it.Proper() && |OverlapKeys(t, bl)| > 0
    ensures it.lo < bl.lo && it.hi >= bl.hi && (mode == R || t[it] == W) ==> Hangs(was, req, mode)
    ensures Hangs(was, req, mode) ==> it.lo < bl.lo && it.hi >= bl.hi && (mode == R || t[it] == W)
  {
    assert it in OverlapKeys(t, bl);
    if Hangs(was, req, mode) {
      var k :| k in was && k.lo < req.lo && k.hi >= req.hi && (mode == R || was[k] == W);
      assert k == it || !Overlaps(k, it);
    }
  }

  lemma FreeIsNotHanging(t: Tokens, req: Interval, mode: Mode)
    requires Free(t, req) && req.Proper()
    ensures !Hangs(t, req, mode)
    ensures mode == R ==> At(t, req.hi) == None && !WriterCutsOff(t, req)
  {
    assert forall k :: k in t && k.Has(req.hi) ==> Overlaps(k, req);
    assert forall k :: k in t && k.lo < req.lo && k.hi >= req.hi ==> Overlaps(k, req);
  }

  lemma OnlyOneOverlapped(t: Tokens, it: Interval, bl: Interval)
    requires Separated(t) && it in t && bl.Within(it)
    ensures forall k :: k in t - {it} ==> !Overlaps(k, bl)
  {
    forall k | k in t - {it}
      ensures !Overlaps(k, bl)
    {
      assert !Overlaps(k, it);
    }
  }

  /** Erase an entry of the requested mode, or one a 'w' request covers; grow to its outer end. */
  lemma Absorb(was: Tokens, req: Interval, mode: Mode, t: Tokens, bl: Interval, it: Interval, bl': Interval)
    requires AddInv(was, req, mode, t, bl) && Leftmost(t, bl, it)
    requires t[it] == mode || (mode == W && it.Within(bl))
    requires it.lo >= bl.lo || it.hi < bl.hi
    requires it.hi <= bl.hi || it.lo > bl.lo
    requires bl' == Interval(if it.lo < bl.lo then it.lo else bl.lo, if it.hi > bl.hi then it.hi else bl.hi)
    ensures AddInv(was, req, mode, t - {it}, bl')
    ensures OverlapKeys(t - {it}, bl') < OverlapKeys(t, bl)
  {
    hide InStep, HalfJoined, OverlapKeys;
    FoundIsOld(was, req, mode, t, bl, it);
    AtErase(t, it);
    forall k | k in t - {it} && Overlaps(k, bl')
      ensures Overlaps(k, bl) && bl'.lo <= k.lo
    {
      assert !Overlaps(k, it);
    }
    FewerOverlaps(t, bl, it, t - {it}, bl');
    AbsorbStep(was, req, mode, t, bl, it, bl');
    forall b: nat | it.Has(b) { AtKey(t, it, b); }
    AbsorbMeaning(was, req, mode, t, bl, it, bl');
  }

  lemma AbsorbStep(was: Tokens, req: Interval, mode: Mode, t: Tokens, bl: Interval, it: Interval, bl': Interval)
    requires InStep(was, req, mode, t, bl) && it in was && bl.hi == req.hi && bl.lo <= req.hi
    requires it in t && was[it] == t[it] && it.lo <= it.hi && it.hi >= req.lo && Overlaps(it, bl)
    requires t[it] == mode || (mode == W && it.Within(bl))
    requires it.lo >= bl.lo || it.hi < bl.hi
    requires it.hi <= bl.hi || it.lo > bl.lo
    requires bl' == Interval(if it.lo < bl.lo then it.lo else bl.lo, if it.hi > bl.hi then it.hi else bl.hi)
    requires it.lo < bl.lo ==> bl == req
    requires forall k :: k in t - {it} && Overlaps(k, bl') ==> Overlaps(k, bl)
    requires it.hi > bl.hi ==> forall k :: k in t - {it} ==> !Overlaps(k, bl')
    requires forall k :: k in was && k != it ==> !Overlaps(k, it)
    ensures InStep(was, req, mode, t - {it}, bl')
  {
  }

  lemma AbsorbMeaning(was: Tokens, req: Interval, mode: Mode, t: Tokens, bl: Interval, it: Interval, bl': Interval)
    requires HalfJoined(was, req, mode, t, bl)
    requires it in t && Overlaps(it, bl) && (t[it] == mode || (mode == W && it.Within(bl)))
    requires bl' == Interval(if it.lo < bl.lo then it.lo else bl.lo, if it.hi > bl.hi then it.hi else bl.hi)
    requires forall b: nat :: it.Has(b) ==> At(t, b) == Some(t[it])
    requires forall b: nat :: At(t - {it}, b) == if it.Has(b) then None else At(t, b)
    ensures HalfJoined(was, req, mode, t - {it}, bl')
  {
  }

  /** An 'r' request steps over a 'w' entry, at its left end or after inserting the part before it. */
  lemma StepOver(was: Tokens, req: Interval, t: Tokens, bl: Interval, it: Interval, u: Tokens)
    requires AddInv(was, req, R, t, bl) && Leftmost(t, bl, it)
    requires t[it] == W && it.hi < bl.hi
    requires u == if it.lo <= bl.lo then t else Insert(t, Interval(bl.lo, it.lo - 1), R)
    ensures AddInv(was, req, R, u, Interval(it.hi + 1, bl.hi))
    ensures OverlapKeys(u, Interval(it.hi + 1, bl.hi)) < OverlapKeys(t, bl)
  {
    hide InStep, HalfJoined, OverlapKeys, Separated, Insert;
    FoundIsOld(was, req, R, t, bl, it);
    InsertBefore(t, bl, it, u);
    hide Leftmost;
    FewerOverlaps(t, bl, it, u, Interval(it.hi + 1, bl.hi));
    StepOverStep(was, req, t, bl, it, u);
    StepOverMeaning(was, req, t, bl, it, u);
  }

  lemma InsertBefore(t: Tokens, bl: Interval, it: Interval, u: Tokens)
    requires Separated(t) && bl.Proper() && Leftmost(t, bl, it) && it.hi < bl.hi
    requires u == if it.lo <= bl.lo then t else Insert(t, Interval(bl.lo, it.lo - 1), R)
    ensures Separated(u)
    ensures forall k :: k in t ==> k in u && u[k] == t[k]
    ensures forall k :: k in u && Overlaps(k, Interval(it.hi + 1, bl.hi)) ==>
              k in t && Overlaps(k, bl) && it.hi < k.lo
    ensures forall b: nat :: At(u, b) == if bl.lo <= b < it.lo then Some(R) else At(t, b)
  {
    if it.lo > bl.lo {
      var piece := Interval(bl.lo, it.lo - 1);
      forall k | k in t
        ensures !Overlaps(k, piece)
      {
        assert Overlaps(k, bl) ==> it.lo <= k.lo;
      }
      AtInsert(t, piece, R);
      forall b: nat
        ensures At(u, b) == if bl.lo <= b < it.lo then Some(R) else At(t, b)
      {
        assert piece.Has(b) <==> bl.lo <= b < it.lo;
      }
    }
  }

  lemma StepOverStep(was: Tokens, req: Interval, t: Tokens, bl: Interval, it: Interval, u: Tokens)
    requires InStep(was, req, R, t, bl) && it in was && was[it] == W && bl.hi == req.hi
    requires req.lo <= it.hi < bl.hi
    requires forall k :: k in t ==> k in u && u[k] == t[k]
    requires forall k :: k in u && Overlaps(k, Interval(it.hi + 1, bl.hi)) ==> k in t && Overlaps(k, bl)
    ensures InStep(was, req, R, u, Interval(it.hi + 1, bl.hi))
  {
  }

  lemma StepOverMeaning(was: Tokens, req: Interval, t: Tokens, bl: Interval, it: Interval, u: Tokens)
    requires Separated(t) && HalfJoined(was, req, R, t, bl) && Leftmost(t, bl, it)
    requires t[it] == W && it.hi < bl.hi
    requires forall b: nat :: At(u, b) == if bl.lo <= b < it.lo then Some(R) else At(t, b)
    ensures HalfJoined(was, req, R, u, Interval(it.hi + 1, bl.hi))
  {
    var bl' := Interval(it.hi + 1, bl.hi);
    forall b: nat
      ensures Joined(was, req, R, b) == if bl'.Has(b) then Stronger(At(u, b), Some(R)) else At(u, b)
    {
      if it.Has(b) {
        AtKey(t, it, b);
      } else if bl.lo <= b < it.lo && At(t, b).Some? {
        var k := AtHasKey(t, b);
        assert Overlaps(k, bl);
      }
    }
  }

  /** An 'r' request stops before a 'w' entry that reaches its right end. */
  lemma StopBefore(was: Tokens, req: Interval, t: Tokens, bl: Interval, it: Interval)
    requires AddInv(was, req, R, t, bl) && Leftmost(t, bl, it)
    requires t[it] == W && it.lo > bl.lo && it.hi >= bl.hi
    ensures AddInv(was, req, R, t, Interval(bl.lo, it.lo - 1))
    ensures OverlapKeys(t, Interval(bl.lo, it.lo - 1)) < OverlapKeys(t, bl)
  {
    FoundIsOld(was, req, R, t, bl, it);
    var bl' := Interval(bl.lo, it.lo - 1);
    assert it.lo > req.lo by {
      if bl.lo < req.lo {
        var k :| k in was && k !in t && was[k] == R && k.lo == bl.lo && k.hi >= req.lo;
        assert !Overlaps(k, it);
      }
    }
    hide InStep, HalfJoined, OverlapKeys;
    assert forall k :: k in t && Overlaps(k, bl) ==> it.lo <= k.lo;
    assert forall k :: k in t ==> !Overlaps(k, bl');
    FewerOverlaps(t, bl, it, t, bl');
    StopBeforeStep(was, req, t, bl, it);
    StopBeforeMeaning(was, req, t, bl, it);
  }

  lemma StopBeforeStep(was: Tokens, req: Interval, t: Tokens, bl: Interval, it: Interval)
    requires InStep(was, req, R, t, bl) && it in was && was[it] == W && bl.hi == req.hi
    requires it.lo > bl.lo && it.hi >= bl.hi
    requires forall k :: k in t ==> !Overlaps(k, Interval(bl.lo, it.lo - 1))
    requires forall k :: k in was && k != it ==> !Overlaps(k, it)
    ensures InStep(was, req, R, t, Interval(bl.lo, it.lo - 1))
  {
  }

  lemma StopBeforeMeaning(was: Tokens, req: Interval, t: Tokens, bl: Interval, it: Interval)
    requires Separated(t) && HalfJoined(was, req, R, t, bl) && Leftmost(t, bl, it)
    requires t[it] == W && it.lo > bl.lo && it.hi >= bl.hi
    ensures HalfJoined(was, req, R, t, Interval(bl.lo, it.lo - 1))
  {
    forall b: nat | it.Has(b) { AtKey(t, it, b); }
  }

  /** A 'w' request over an 'r' entry that sticks out: the parts outside go back as 'r'. */
  lemma SplitReader(was: Tokens, req: Interval, t: Tokens, bl: Interval, it: Interval, u: Tokens)
    requires AddInv(was, req, W, t, bl) && Leftmost(t, bl, it)
    requires t[it] == R && ReplacedByPieces(t, it, bl, u)
    ensures AddInv(was, req, W, u, bl)
    ensures OverlapKeys(u, bl) < OverlapKeys(t, bl)
  {
    hide InStep, OverlapKeys, HalfJoined, ReplacedByPieces;
    FoundIsOld(was, req, W, t, bl, it);
    assert forall k :: k in t && k != it && Overlaps(k, bl) ==> bl.lo <= k.lo;
    hide Separated;
    PiecesMeaning(t, it, bl, u);
    FewerOverlaps(t, bl, it, u, bl);
    SplitMeaning(was, req, t, bl, u);
    PiecesAreNotWriters(was, t, it, bl, u);
    SplitStep(was, req, t, bl, it, u);
  }

  lemma SplitMeaning(was: Tokens, req: Interval, t: Tokens, bl: Interval, u: Tokens)
    requires HalfJoined(was, req, W, t, bl)
    requires forall b: nat :: !bl.Has(b) ==> At(u, b) == At(t, b)
    ensures HalfJoined(was, req, W, u, bl)
  {
    hide At;
  }

  lemma PiecesAreNotWriters(was: Tokens, t: Tokens, it: Interval, bl: Interval, u: Tokens)
    requires Separated(was) && it in was && was[it] == R && it.Proper() && bl.Proper()
    requires ReplacedByPieces(t, it, bl, u)
    ensures forall k :: k in was && k !in t && was[k] == W ==> k !in u
  {
    SubtractIsDifference(it, bl);
    forall k | k in was && k !in t && was[k] == W
      ensures k !in u
    {
      assert !Overlaps(k, it);
    }
  }

  lemma SplitStep(was: Tokens, req: Interval, t: Tokens, bl: Interval, it: Interval, u: Tokens)
    requires InStep(was, req, W, t, bl) && it in was && was[it] == R
    requires forall k :: k in u && Overlaps(k, bl) ==> k in t && u[k] == t[k]
    requires forall k :: k in t && k != it ==> k in u
    requires forall k :: k in was && k !in t && was[k] == W ==> k !in u
    ensures InStep(was, req, W, u, bl)
  {
  }

  // ------------------------------------------------------------------ leaving the loop

  /** The entry found covers what is left, at least as strongly: nothing is added and nothing is missing. */
  lemma NothingToAdd(was: Tokens, req: Interval, mode: Mode, t: Tokens, bl: Interval, it: Interval)
    requires AddInv(was, req, mode, t, bl) && Leftmost(t, bl, it)
    requires it.lo == bl.lo && it.hi >= bl.hi && (t[it] == W || (mode == R && it.hi > bl.hi))
    ensures JoinedOn(was, req, mode, t) && !Clobbers(was, req, mode)
  {
    FoundIsOld(was, req, mode, t, bl, it);
    forall b: nat | it.Has(b) { AtKey(t, it, b); }
    assert mode == R ==> EndsCovered(was, req) by {
      if bl.lo > req.lo {
        var k :| k in was && was[k] == W && k.hi == bl.lo - 1;
      }
    }
  }

  /** An old entry over the end of the request starts inside the working interval, past its first block. */
  lemma TailEntry(was: Tokens, req: Interval, t: Tokens, bl: Interval, k: Interval)
    requires AddInv(was, req, R, t, bl)
    requires forall e :: e in t ==> !Overlaps(e, bl)
    requires k in was && k.lo <= req.hi <= k.hi && (was[k] == W || k.hi > req.hi)
    ensures bl.lo < k.lo && k.lo - 1 <= bl.hi && req.lo < k.lo
    ensures forall j :: j in was && j.hi + 1 == k.lo ==> was[j] == R
  {
    assert Overlaps(k, req);
    if bl.hi < req.hi {
      var w :| w in was && was[w] == W && w.lo == bl.hi + 1 && w.hi >= req.hi;
      assert w == k || !Overlaps(w, k);
    } else {
      assert Overlaps(k, bl);
    }
    if bl.lo < req.lo {
      var a :| a in was && a !in t && was[a] == R && a.lo == bl.lo && a.hi >= req.lo;
      assert a != k && !Overlaps(a, k);
    }
    forall j | j in was && j.hi + 1 == k.lo
      ensures was[j] == R
    {
      assert Overlaps(j, bl);
    }
  }

  /** When nothing overlaps any more, the tail was not covered by a single entry. */
  lemma TailIsOpen(was: Tokens, req: Interval, t: Tokens, bl: Interval)
    requires AddInv(was, req, R, t, bl)
    requires forall k :: k in t ==> !Overlaps(k, bl)
    ensures !EndsCovered(was, req)
  {
    forall k | k in was && k.lo <= req.hi <= k.hi && (was[k] == W || k.hi > req.hi)
      ensures k.lo != req.lo
      ensures forall j :: j in was && j.hi + 1 == k.lo ==> was[j] == R
    {
      TailEntry(was, req, t, bl, k);
    }
    hide AddInv;
  }

  /** What the two probes beside the original request find: an entry of the requested mode, or nothing. */
  ghost predicate Probes(t: Tokens, req: Interval, mode: Mode, right: Option<Interval>, left: Option<Interval>) {
    && (right.Some? ==> right.value in t && right.value.Has(req.hi + 1) && t[right.value] == mode)
    && (right.None? ==> At(t, req.hi + 1) != Some(mode))
    && (left.Some? ==> req.lo > 0 && left.value in t && left.value.Has(req.lo - 1) && t[left.value] == mode)
    && (left.None? ==> req.lo > 0 ==> At(t, req.lo - 1) != Some(mode))
  }

  /** No merge reaches across a side on which the working interval was cut back. */
  predicate MergeIsSafe(req: Interval, bl: Interval, right: Option<Interval>, left: Option<Interval>) {
    (right.Some? ==> bl.hi >= req.hi) && (left.Some? ==> bl.lo <= req.lo)
  }

  lemma CutOnTheRight(was: Tokens, req: Interval, t: Tokens, bl: Interval)
    requires AddInv(was, req, R, t, bl)
    requires forall k :: k in t ==> !Overlaps(k, bl)
    ensures bl.hi < req.hi <==> At(was, req.hi) == Some(W)
    ensures bl.hi < req.hi ==> At(t, req.hi + 1) == At(was, req.hi + 1)
  {
    assert Joined(was, req, R, req.hi) == if bl.Has(req.hi) then Stronger(At(t, req.hi), Some(R)) else At(t, req.hi);
    assert Joined(was, req, R, req.hi + 1) == At(was, req.hi + 1);
    if bl.hi < req.hi {
      var k :| k in was && was[k] == W && k.lo == bl.hi + 1 && k.hi >= req.hi;
      AtKey(was, k, req.hi);
    } else {
      NoneInside(t, bl);
    }
  }

  lemma CutOnTheLeft(was: Tokens, req: Interval, t: Tokens, bl: Interval)
    requires AddInv(was, req, R, t, bl)
    requires forall k :: k in t ==> !Overlaps(k, bl)
    ensures bl.lo > req.lo <==> WriterCutsOff(was, req)
    ensures bl.lo > req.lo > 0 ==> At(t, req.lo - 1) == At(was, req.lo - 1)
  {
    if bl.lo > req.lo {
      var k :| k in was && was[k] == W && k.hi == bl.lo - 1;
      assert Overlaps(k, req) && k.hi < req.hi;
      if req.lo > 0 {
        assert Joined(was, req, R, req.lo - 1) == At(was, req.lo - 1);
      }
    }
    if WriterCutsOff(was, req) {
      var j :| j in was && was[j] == W && Overlaps(j, req) && j.hi < req.hi;
      assert j in t && !Overlaps(j, bl);
      if bl.hi < req.hi {
        var w :| w in was && was[w] == W && w.lo == bl.hi + 1 && w.hi >= req.hi;
        assert w != j && !Overlaps(w, j);
        assert j.hi < w.lo;
      }
    }
  }

  /** The merge is safe exactly when the request was not one that clobbers. */
  lemma SafeIffNotClobbering(was: Tokens, req: Interval, mode: Mode, t: Tokens, bl: Interval,
                             right: Option<Interval>, left: Option<Interval>)
    requires AddInv(was, req, mode, t, bl) && Probes(t, req, mode, right, left)
    requires forall k :: k in t ==> !Overlaps(k, bl)
    ensures MergeIsSafe(req, bl, right, left) <==> !Clobbers(was, req, mode)
  {
    hide AddInv, Probes, WriterCutsOff, EndsCovered, At, Overlaps;
    if mode == W {
      WriteIsNeverCut(was, req, t, bl);
    } else {
      TailIsOpen(was, req, t, bl);
      RightIsSafe(was, req, t, bl, right, left);
      LeftIsSafe(was, req, t, bl, right, left);
    }
  }

  lemma WriteIsNeverCut(was: Tokens, req: Interval, t: Tokens, bl: Interval)
    requires AddInv(was, req, W, t, bl)
    ensures bl.lo <= req.lo && req.hi <= bl.hi
  {
    hide HalfJoined, Separated;
  }

  lemma RightIsSafe(was: Tokens, req: Interval, t: Tokens, bl: Interval, right: Option<Interval>,
                    left: Option<Interval>)
    requires AddInv(was, req, R, t, bl) && Probes(t, req, R, right, left)
    requires forall k :: k in t ==> !Overlaps(k, bl)
    ensures right.Some? && bl.hi < req.hi <==> At(was, req.hi) == Some(W) && At(was, req.hi + 1) == Some(R)
  {
    hide InStep, HalfJoined, At, Separated;
    CutOnTheRight(was, req, t, bl);
    if right.Some? { AtKey(t, right.value, req.hi + 1); }
  }

  lemma LeftIsSafe(was: Tokens, req: Interval, t: Tokens, bl: Interval, right: Option<Interval>, left: Option<Interval>)
    requires AddInv(was, req, R, t, bl) && Probes(t, req, R, right, left)
    requires forall k :: k in t ==> !Overlaps(k, bl)
    ensures left.Some? && bl.lo > req.lo <==>
            req.lo > 0 && At(was, req.lo - 1) == Some(R) && WriterCutsOff(was, req)
  {
    hide InStep, HalfJoined, WriterCutsOff, At, Separated;
    CutOnTheLeft(was, req, t, bl);
    if left.Some? { AtKey(t, left.value, req.lo - 1); }
  }

  /** What `find` returns for one block is what the table says of that block. */
  lemma ProbeSees(t: Tokens, b: nat, found: Option<Interval>)
    requires Separated(t) && found == Find(t, Interval(b, b))
    ensures found.None? ==> At(t, b) == None
    ensures found.Some? ==> found.value in t && found.value.Has(b) && At(t, b) == Some(t[found.value])
  {
    if found.Some? {
      AtKey(t, found.value, b);
    } else {
      assert forall k :: k in t && k.Has(b) ==> Overlaps(k, Interval(b, b));
    }
  }

  /** The entry of the same mode that touches the block, if there is one. */
  function Neighbour(t: Tokens, b: nat, mode: Mode): (n: Option<Interval>)
    requires Separated(t)
    ensures n.Some? ==> n.value in t && n.value.Has(b) && t[n.value] == mode
    ensures n.None? ==> At(t, b) != Some(mode)
  {
    var probe := Find(t, Interval(b, b));
    ProbeSees(t, b, probe);
    if probe.Some? && t[probe.value] == mode then probe else None
  }

  lemma NeighbourStays(t: Tokens, k: Interval, b: nat, mode: Mode)
    requires Separated(t) && k in t && !k.Has(b)
    ensures Separated(t - {k}) && Neighbour(t - {k}, b, mode) == Neighbour(t, b, mode)
  {
    AtErase(t, k);
    var mine, theirs := Find(t, Interval(b, b)), Find(t - {k}, Interval(b, b));
    ProbeSees(t, b, mine);
    ProbeSees(t - {k}, b, theirs);
    hide At;
    assert mine.Some? && theirs.Some? ==> Overlaps(mine.value, theirs.value);
  }

  /** The table after adding on a free range: one entry, grown over the neighbours of the same mode. */
  function AddedFree(t: Tokens, req: Interval, mode: Mode): Tokens
    requires Separated(t)
  {
    var right := Neighbour(t, req.hi + 1, mode);
    var left := if req.lo > 0 then Neighbour(t, req.lo - 1, mode) else None;
    Without(Without(t, right), left)[Merged(req, right, left) := mode]
  }

  function Merged(bl: Interval, right: Option<Interval>, left: Option<Interval>): Interval {
    Interval(if left.Some? then left.value.lo else bl.lo, if right.Some? then right.value.hi else bl.hi)
  }

  function Without(t: Tokens, k: Option<Interval>): Tokens {
    if k.Some? then t - {k.value} else t
  }

  /** An addition on a free range, entry by entry.  `e` is the entry that covers the request now: it reaches over
      the entries of its mode that touch the request, which are gone, and no further; every other entry is still
      there, and there are no others. */
  ghost predicate JoinsNeighbours(t: Tokens, req: Interval, mode: Mode, u: Tokens, e: Interval) {
    && e in u && u[e] == mode && req.Within(e)
    && (e.lo == req.lo || exists k :: k in t && t[k] == mode && k.lo == e.lo && k.hi + 1 == req.lo)
    && (e.hi == req.hi || exists k :: k in t && t[k] == mode && k.hi == e.hi && req.hi + 1 == k.lo)
    && (forall k :: k in t && t[k] == mode && Touches(k, req) ==> k.Within(e))
    && (forall k :: k in t && !(t[k] == mode && Touches(k, req)) ==> k in u && u[k] == t[k])
    && (forall k :: k in u && k != e ==> k in t && u[k] == t[k] && !(t[k] == mode && Touches(k, req)))
  }

  /** The only entries of the mode that touch the request from the right, or from the left. */
  ghost predicate IsRight(t: Tokens, req: Interval, mode: Mode, right: Option<Interval>) {
    && (right.Some? ==> right.value in t && t[right.value] == mode && right.value.lo == req.hi + 1)
    && (forall k :: k in t && t[k] == mode && k.lo == req.hi + 1 ==> right == Some(k))
  }

  ghost predicate IsLeft(t: Tokens, req: Interval, mode: Mode, left: Option<Interval>) {
    && (left.Some? ==> left.value in t && t[left.value] == mode && left.value.hi + 1 == req.lo)
    && (forall k :: k in t && t[k] == mode && k.hi + 1 == req.lo ==> left == Some(k))
  }

  lemma RightNeighbour(t: Tokens, req: Interval, mode: Mode)
    requires Separated(t) && req.Proper() && Free(t, req)
    ensures IsRight(t, req, mode, Neighbour(t, req.hi + 1, mode))
  {
    var n := Neighbour(t, req.hi + 1, mode);
    hide Neighbour;
    forall k | k in t && t[k] == mode && k.lo == req.hi + 1
      ensures n == Some(k)
    {
      AtKey(t, k, req.hi + 1);
      assert Overlaps(k, n.value);
    }
    hide At;
    assert n.Some? ==> !Overlaps(n.value, req);
  }

  lemma LeftNeighbour(t: Tokens, req: Interval, mode: Mode)
    requires Separated(t) && req.Proper() && Free(t, req)
    ensures IsLeft(t, req, mode, if req.lo > 0 then Neighbour(t, req.lo - 1, mode) else None)
  {
    if req.lo > 0 {
      var n := Neighbour(t, req.lo - 1, mode);
      hide Neighbour;
      forall k | k in t && t[k] == mode && k.hi + 1 == req.lo
        ensures n == Some(k)
      {
        AtKey(t, k, req.lo - 1);
        assert Overlaps(k, n.value);
      }
      hide At;
      assert n.Some? ==> !Overlaps(n.value, req);
    }
  }

  lemma NeighboursJoin(t: Tokens, req: Interval, mode: Mode, right: Option<Interval>, left: Option<Interval>)
    requires Separated(t) && req.Proper() && Free(t, req)
    requires IsRight(t, req, mode, right) && IsLeft(t, req, mode, left)
    ensures JoinsNeighbours(t, req, mode, Without(Without(t, right), left)[Merged(req, right, left) := mode],
                            Merged(req, right, left))
  {
    var e := Merged(req, right, left);
    var u := Without(Without(t, right), left)[e := mode];
    if right.Some? { KeyIsProper(t, right.value); }
    if left.Some? { KeyIsProper(t, left.value); }
    assert e !in t by {
      assert Overlaps(e, req);
    }
    assert forall k :: k in u <==> k == e || (k in t && right != Some(k) && left != Some(k));
    hide Separated, Free;
    OneEntryJoins(t, req, mode, right, left, u);
  }

  lemma OneEntryJoins(t: Tokens, req: Interval, mode: Mode, right: Option<Interval>, left: Option<Interval>, u: Tokens)
    requires IsRight(t, req, mode, right) && IsLeft(t, req, mode, left) && req.Proper()
    requires right.Some? ==> right.value.Proper()
    requires left.Some? ==> left.value.Proper()
    requires var e := Merged(req, right, left);
             && e !in t && e in u && u[e] == mode
             && (forall k :: k in u && k != e <==> k in t && right != Some(k) && left != Some(k))
             && (forall k :: k in t && k in u ==> u[k] == t[k])
    ensures JoinsNeighbours(t, req, mode, u, Merged(req, right, left))
  {
    assert forall k :: k in t && t[k] == mode && Touches(k, req) <==> right == Some(k) || left == Some(k);
  }

  lemma AddedFreeJoins(t: Tokens, req: Interval, mode: Mode) returns (e: Interval)
    requires Separated(t) && req.Proper() && Free(t, req)
    ensures JoinsNeighbours(t, req, mode, AddedFree(t, req, mode), e)
  {
    hide Neighbour, At, Separated, Free, JoinsNeighbours, IsRight, IsLeft, Merged, Without;
    var right := Neighbour(t, req.hi + 1, mode);
    var left := if req.lo > 0 then Neighbour(t, req.lo - 1, mode) else None;
    assert AddedFree(t, req, mode) == Without(Without(t, right), left)[Merged(req, right, left) := mode];
    e := Merged(req, right, left);
    RightNeighbour(t, req, mode);
    LeftNeighbour(t, req, mode);
    NeighboursJoin(t, req, mode, right, left);
  }

  /** Another entry of the same mode touches the new one. */
  ghost predicate StillTouched(u: Tokens, mode: Mode, e: Interval) {
    exists k :: k in u && k != e && u[k] == mode && Touches(k, e)
  }

  /** An entry of the mode touches an entry of the mode that touches the request. */
  ghost predicate TouchedTwice(t: Tokens, req: Interval, mode: Mode) {
    exists j, k :: IsSecond(t, req, mode, j, k)
  }

  ghost predicate IsSecond(t: Tokens, req: Interval, mode: Mode, j: Interval, k: Interval) {
    j in t && k in t && t[j] == mode && t[k] == mode && Touches(j, req) && Touches(k, j)
  }

  lemma TouchedWasSecond(t: Tokens, req: Interval, mode: Mode, u: Tokens, e: Interval)
    requires req.Proper() && JoinsNeighbours(t, req, mode, u, e) && StillTouched(u, mode, e)
    ensures TouchedTwice(t, req, mode)
  {
    var k :| k in u && k != e && u[k] == mode && Touches(k, e);
    if k.hi + 1 == e.lo {
      var j :| j in t && t[j] == mode && j.lo == e.lo && j.hi + 1 == req.lo;
      assert IsSecond(t, req, mode, j, k);
    } else {
      var j :| j in t && t[j] == mode && j.hi == e.hi && req.hi + 1 == j.lo;
      assert IsSecond(t, req, mode, j, k);
    }
  }

  lemma SecondStillTouches(t: Tokens, req: Interval, mode: Mode, u: Tokens, e: Interval)
    requires Separated(t) && req.Proper() && Free(t, req) && JoinsNeighbours(t, req, mode, u, e)
    requires TouchedTwice(t, req, mode)
    ensures StillTouched(u, mode, e)
  {
    var j, k :| IsSecond(t, req, mode, j, k);
    KeyIsProper(t, j);
    KeyIsProper(t, k);
    assert !Overlaps(j, req) && !Overlaps(k, req);
    assert j.Within(e) && !Touches(k, req);
    assert k in u && u[k] == mode;
    hide Separated;
    assert e.lo == req.lo || e.lo == j.lo || exists i :: i in t && i.lo == e.lo && i.hi + 1 == req.lo;
    if j.hi + 1 == req.lo {
      assert e.lo == j.lo;
    } else {
      assert e.hi == j.hi;
    }
  }

  /** Then an entry of the same mode touches the new one exactly when one touched a neighbour that was merged:
      the merge reaches one entry far on either side. */
  lemma JoinedTouchesIff(t: Tokens, req: Interval, mode: Mode, u: Tokens, e: Interval)
    requires Separated(t) && req.Proper() && Free(t, req) && JoinsNeighbours(t, req, mode, u, e)
    ensures StillTouched(u, mode, e) <==> TouchedTwice(t, req, mode)
  {
    hide *;
    if StillTouched(u, mode, e) {
      TouchedWasSecond(t, req, mode, u, e);
    }
    if TouchedTwice(t, req, mode) {
      SecondStillTouches(t, req, mode, u, e);
    }
  }

  /** So a table without twins stays one. */
  lemma JoiningKeepsNoTwins(t: Tokens, req: Interval, mode: Mode, u: Tokens, e: Interval)
    requires Separated(t) && req.Proper() && Free(t, req) && NoTwins(t) && JoinsNeighbours(t, req, mode, u, e)
    ensures NoTwins(u)
  {
    JoinedTouchesIff(t, req, mode, u, e);
    forall j, k | j in u && k in u && j.hi + 1 == k.lo
      ensures u[j] != u[k]
    {
      assert Touches(j, k) && Touches(k, j);
    }
  }

  /** A table with twins keeps them: block 2 still touches the entry that blocks 3 to 5 become. */
  lemma TwinStays(t: Tokens)
    requires t == map[Interval(2, 2) := R, Interval(3, 4) := R]
    ensures Separated(t) && Free(t, Interval(5, 5)) && !NoTwins(t)
    ensures Interval(2, 2) in AddedFree(t, Interval(5, 5), R) && Interval(3, 5) in AddedFree(t, Interval(5, 5), R)
    ensures !NoTwins(AddedFree(t, Interval(5, 5), R))
  {
    assert Interval(2, 2) in t && Interval(3, 4) in t;
    var e := AddedFreeJoins(t, Interval(5, 5), R);
    TwinJoins(t, e);
  }

  lemma TwinJoins(t: Tokens, e: Interval)
    requires t == map[Interval(2, 2) := R, Interval(3, 4) := R] && Separated(t)
    requires JoinsNeighbours(t, Interval(5, 5), R, AddedFree(t, Interval(5, 5), R), e)
    ensures Interval(2, 2) in AddedFree(t, Interval(5, 5), R) && Interval(3, 5) in AddedFree(t, Interval(5, 5), R)
    ensures !NoTwins(AddedFree(t, Interval(5, 5), R))
  {
    hide AddedFree, Separated;
    assert Interval(3, 4) in t && Touches(Interval(3, 4), Interval(5, 5)) && !Touches(Interval(2, 2), Interval(5, 5));
    assert e == Interval(3, 5);
  }

  /** A safe merge inserts one entry and completes the join. */
  lemma SafeMergeJoins(was: Tokens, req: Interval, mode: Mode, t: Tokens, bl: Interval,
                       right: Option<Interval>, left: Option<Interval>)
    requires AddInv(was, req, mode, t, bl) && Probes(t, req, mode, right, left)
    requires forall k :: k in t ==> !Overlaps(k, bl)
    requires MergeIsSafe(req, bl, right, left)
    ensures Separated(Insert(Without(Without(t, right), left), Merged(bl, right, left), mode))
    ensures JoinedOn(was, req, mode, Insert(Without(Without(t, right), left), Merged(bl, right, left), mode))
    ensures Insert(Without(Without(t, right), left), Merged(bl, right, left), mode) ==
            Without(Without(t, right), left)[Merged(bl, right, left) := mode]
  {
    hide InStep, HalfJoined, Insert, At;
    var bl' := Merged(bl, right, left);
    var rest := Without(Without(t, right), left);
    MergeFits(t, req, mode, bl, right, left);
    AtInsert(rest, bl', mode);
    NoneInside(t, bl);
    JoinCompletes(was, req, mode, t, bl, bl', rest[bl' := mode]);
  }

  lemma JoinCompletes(was: Tokens, req: Interval, mode: Mode, t: Tokens, bl: Interval, bl': Interval, u: Tokens)
    requires HalfJoined(was, req, mode, t, bl) && bl.Within(bl')
    requires forall b: nat :: bl.Has(b) ==> At(t, b) == None
    requires forall b: nat :: bl'.Has(b) && !bl.Has(b) ==> At(t, b) == Some(mode)
    requires forall b: nat :: At(u, b) == if bl'.Has(b) then Some(mode) else At(t, b)
    ensures JoinedOn(was, req, mode, u)
  {
    hide At;
  }

  /** After erasing the neighbours, the merged interval is free, and it grew by their blocks only. */
  lemma MergeFits(t: Tokens, req: Interval, mode: Mode, bl: Interval, right: Option<Interval>, left: Option<Interval>)
    requires Separated(t) && bl.Proper() && Overlaps(bl, req) && Probes(t, req, mode, right, left)
    requires forall k :: k in t ==> !Overlaps(k, bl)
    requires MergeIsSafe(req, bl, right, left)
    ensures Merged(bl, right, left).Proper() && bl.Within(Merged(bl, right, left))
    ensures Separated(Without(Without(t, right), left))
    ensures forall k :: k in Without(Without(t, right), left) ==> !Overlaps(k, Merged(bl, right, left))
    ensures forall b: nat :: Merged(bl, right, left).Has(b) && !bl.Has(b) ==> At(t, b) == Some(mode)
    ensures forall b: nat :: !Merged(bl, right, left).Has(b) ==> At(Without(Without(t, right), left), b) == At(t, b)
  {
    var bl' := Merged(bl, right, left);
    var rest := Without(Without(t, right), left);
    if right.Some? {
      assert !Overlaps(right.value, bl) && right.value.lo == bl.hi + 1;
      forall b: nat | right.value.Has(b) { AtKey(t, right.value, b); }
      AtErase(t, right.value);
    }
    if left.Some? {
      assert !Overlaps(left.value, bl) && left.value.hi == bl.lo - 1;
      forall b: nat | left.value.Has(b) { AtKey(t, left.value, b); }
      AtErase(Without(t, right), left.value);
    }
    forall k | k in rest
      ensures !Overlaps(k, bl')
    {
      assert !Overlaps(k, bl);
      assert right.Some? ==> !Overlaps(k, right.value);
      assert left.Some? ==> !Overlaps(k, left.value);
    }
  }

  lemma NoneInside(t: Tokens, bl: Interval)
    requires forall k :: k in t ==> !Overlaps(k, bl)
    ensures forall b: nat :: bl.Has(b) ==> At(t, b) == None
  {
    forall b: nat | bl.Has(b)
      ensures At(t, b) == None
    {
      assert forall k :: k in t && k.Has(b) ==> Overlaps(k, bl);
    }
  }

  /** An unsafe merge erases the neighbour, and its insert is dropped: the neighbour's blocks are lost. */
  lemma UnsafeMergeLoses(was: Tokens, req: Interval, mode: Mode, t: Tokens, bl: Interval,
                         right: Option<Interval>, left: Option<Interval>)
    requires AddInv(was, req, mode, t, bl) && Probes(t, req, mode, right, left)
    requires forall k :: k in t ==> !Overlaps(k, bl)
    requires !MergeIsSafe(req, bl, right, left)
    ensures Separated(Insert(Without(Without(t, right), left), Merged(bl, right, left), mode))
    ensures !JoinedOn(was, req, mode, Insert(Without(Without(t, right), left), Merged(bl, right, left), mode))
  {
    var bl' := Merged(bl, right, left);
    var rest := Without(Without(t, right), left);
    var lost: nat, cut;
    if right.Some? && bl.hi < req.hi {
      lost := req.hi + 1;
      cut :| cut in was && was[cut] == W && cut.lo == bl.hi + 1 && cut.hi >= req.hi;
      AtKey(t, right.value, lost);
    } else {
      lost := req.lo - 1;
      cut :| cut in was && was[cut] == W && cut.hi == bl.lo - 1;
      AtKey(t, left.value, lost);
    }
    assert cut in t && t[cut] == W;
    assert Joined(was, req, mode, lost) == At(t, lost);
    hide InStep, HalfJoined, At, Insert;
    NeighbourIsGone(t, bl, right, left, mode, cut, lost);
  }

  lemma NeighbourIsGone(t: Tokens, bl: Interval, right: Option<Interval>, left: Option<Interval>, mode: Mode,
                        cut: Interval, lost: nat)
    requires Separated(t) && cut in t && t[cut] != mode && Overlaps(cut, Merged(bl, right, left))
    requires right.Some? ==> right.value in t && t[right.value] == mode
    requires left.Some? ==> left.value in t && t[left.value] == mode
    requires (right.Some? && right.value.Has(lost)) || (left.Some? && left.value.Has(lost))
    ensures var rest := Without(Without(t, right), left);
            Separated(rest) && Insert(rest, Merged(bl, right, left), mode) == rest && At(rest, lost) == None
  {
    var rest := Without(Without(t, right), left);
    assert cut in rest;
    if right.Some? {
      AtErase(t, right.value);
    }
    assert forall k :: k in t && k != cut ==> !Overlaps(k, cut);
    if left.Some? {
      AtErase(Without(t, right), left.value);
    }
  }

  /** The right probe sees the block after the request, and what it erases does not reach the block before. */
  lemma RightProbe(was: Tokens, req: Interval, mode: Mode, t: Tokens, bl: Interval, right: Option<Interval>)
    requires AddInv(was, req, mode, t, bl)
    requires forall k :: k in t ==> !Overlaps(k, bl)
    requires right == if req.hi != MAX_BLOCK then Neighbour(t, req.hi + 1, mode) else None
    ensures right == Neighbour(t, req.hi + 1, mode)
    ensures Separated(Without(t, right))
    ensures req.lo > 0 ==> Neighbour(Without(t, right), req.lo - 1, mode) == Neighbour(t, req.lo - 1, mode)
  {
    hide InStep, HalfJoined, At, Neighbour;
    assert Separated(t);
    var n := Neighbour(t, req.hi + 1, mode);
    if n.Some? {
      KeyIsProper(t, n.value);
      assert !Overlaps(n.value, bl);
    }
    hide Separated;
    if right.Some? {
      AtErase(t, right.value);
      if req.lo > 0 {
        NeighbourStays(t, right.value, req.lo - 1, mode);
      }
    }
  }

  lemma BothProbes(t: Tokens, req: Interval, mode: Mode, right: Option<Interval>, left: Option<Interval>)
    requires Separated(t) && right == Neighbour(t, req.hi + 1, mode)
    requires left == if req.lo > 0 then Neighbour(t, req.lo - 1, mode) else None
    ensures Probes(t, req, mode, right, left)
  {
    hide At;
  }
}
