/** One entry of the client's open-file table: the token map and the operations that update it. */
module OpenFile {
  import opened Intervals
  import opened Permissions
  import Wire

  /** Whether a call that loops comes back within the iterations it was watched for. */
  datatype Outcome = Returned | StillLooping

  /** How one turn of the adding loop ends: go round again, leave and insert, leave without inserting, or go
      round again with nothing changed. */
  datatype Turn = Again | Last | Covered | Spin

  /** A request inside a longer 'w' entry: the loop spins on it for ever. */
  lemma HangingRequest()
    ensures Separated(map[Interval(0, 9) := W]) && Hangs(map[Interval(0, 9) := W], Interval(3, 5), W)
  {
    assert Interval(0, 9) in map[Interval(0, 9) := W];
  }

  /** An 'r' request ending in a 'w' entry that an 'r' entry follows: block 10 loses its permission. */
  lemma ClobberingRequest()
    ensures Separated(map[Interval(7, 9) := W, Interval(10, 12) := R])
    ensures Clobbers(map[Interval(7, 9) := W, Interval(10, 12) := R], Interval(5, 9), R)
    ensures !Hangs(map[Interval(7, 9) := W, Interval(10, 12) := R], Interval(5, 9), R)
  {
    var t := map[Interval(7, 9) := W, Interval(10, 12) := R];
    AtKey(t, Interval(7, 9), 9);
    AtKey(t, Interval(10, 12), 10);
  }

  /** Erasing an entry, or replacing it by its pieces, makes no twins. */
  lemma EraseHasNoTwins(t: Tokens, it: Interval)
    ensures NoTwins(t) ==> NoTwins(t - {it})
  {
  }

  lemma PiecesHaveNoTwins(t: Tokens, it: Interval, cut: Interval, u: Tokens)
    requires Separated(t) && cut.Proper() && ReplacedByPieces(t, it, cut, u)
    ensures NoTwins(t) ==> NoTwins(u)
  {
    if NoTwins(t) {
      PiecesKeepNoTwins(t, it, cut, u);
    }
  }

  lemma LostForwards(was: Tokens, start: nat, end: nat)
    ensures start <= end ==> forall b: nat :: Lost(was, start, end, b) <==> start <= b <= end
  {
  }

  lemma MergedFree(was: Tokens, t: Tokens, req: Interval, mode: Mode, bl: Interval)
    requires AddInv(was, req, mode, t, bl) && forall k :: k in t ==> !Overlaps(k, bl)
    ensures bl == req ==> Separated(t) && exists e :: JoinsNeighbours(t, req, mode, AddedFree(t, req, mode), e)
    ensures bl == req && NoTwins(t) ==> NoTwins(AddedFree(t, req, mode))
  {
    if bl == req {
      AddInvIsProper(was, req, mode, t, bl);
      assert Free(t, req);
      hide *;
      FreeMerge(t, req, mode);
    }
  }

  lemma FreeMerge(t: Tokens, req: Interval, mode: Mode)
    requires Separated(t) && req.Proper() && Free(t, req)
    ensures exists e :: JoinsNeighbours(t, req, mode, AddedFree(t, req, mode), e)
    ensures NoTwins(t) ==> NoTwins(AddedFree(t, req, mode))
  {
    hide *;
    var e := AddedFreeJoins(t, req, mode);
    if NoTwins(t) {
      JoiningKeepsNoTwins(t, req, mode, AddedFree(t, req, mode), e);
    }
  }

  class Entry {
    const name: string
    var tokens: Tokens

    ghost predicate Valid()
      reads this
    {
      Separated(tokens)
    }

    constructor (name: string)
      ensures Valid() && tokens == map[] && this.name == name
    {
      this.name, tokens := name, map[];
    }

    /** Whether the block may be used in the given mode: never weaker than asked, whatever entry covers it. */
    predicate CheckPermission(block: nat, mode: Mode)
      requires Valid()
      reads this
      ensures CheckPermission(block, mode) <==> Rank(At(tokens, block)) >= Rank(Some(mode))
    {
      var it := Find(tokens, Interval(block, block));
      ProbeSees(tokens, block, it);
      if it.None? then
        false
      else
        match mode
        case R => true
        case W => tokens[it.value] != R
    }

    /** Give up every token on `start..end`.

        `it` may be any entry that overlaps: the result is one and the same map.  The mode that the
        revoke message carries is not looked at.  A range that is given backwards, as a misread revoke
        does, cuts an entry that holds both its ends from `start` on. */
    method RemovePermission(start: nat, end: nat, mode: Mode)
      requires Valid() && start <= MAX_BLOCK && end <= MAX_BLOCK
      modifies this
      ensures Valid() && Removed(old(tokens), start, end, tokens)
      ensures forall b: nat :: At(tokens, b) == if Lost(old(tokens), start, end, b) then None else At(old(tokens), b)
      ensures start <= end ==>
                forall b: nat :: At(tokens, b) == if start <= b <= end then None else At(old(tokens), b)
      ensures start <= end && NoTwins(old(tokens)) ==> NoTwins(tokens)
    {
      var cut := Interval(start, end);
      ghost var was := tokens;
      if start <= end {
        CarveStarts(was, cut);
      }
      hide ReplacedByPieces, PartlyCarved, OverlapKeys, Insert, At, IsCarved, Separated, SubtractInterval,
           CutBackwards, SplitBackwards, Lost, NoTwins;
      while exists k :: k in tokens && Overlaps(k, cut)
        invariant Separated(tokens)
        invariant start <= end ==> PartlyCarved(was, cut, tokens) && (NoTwins(was) ==> NoTwins(tokens))
        invariant start > end ==> tokens == was || forall k :: k in tokens ==> !Overlaps(k, cut)
        invariant start > end && tokens != was ==> tokens == CutBackwards(was, start, end)
        decreases OverlapKeys(tokens, cut)
      {
        var it :| it in tokens && Overlaps(it, cut);
        ghost var before := tokens;
        CutEntry(it, cut);
        if start <= end {
          CarveOne(was, cut, before, it, tokens);
          if NoTwins(before) {
            PiecesKeepNoTwins(before, it, cut, tokens);
          }
        } else {
          SplitBackwardsAt(before, it, start, end);
          FewerOverlaps(before, cut, it, tokens, cut);
        }
      }
      if start <= end {
        CarveDone(was, cut, tokens);
      } else if tokens == was {
        NothingStraddles(was, start, end);
      }
      RemovedAt(was, start, end, tokens);
      LostForwards(was, start, end);
    }

    /** One turn of the removing loop: erase the entry and put back what is left of it. */
    method CutEntry(it: Interval, cut: Interval)
      requires Valid() && it in tokens && Overlaps(it, cut)
      modifies this
      ensures cut.Proper() ==> ReplacedByPieces(old(tokens), it, cut, tokens)
      ensures cut.lo > cut.hi ==> tokens == SplitBackwards(old(tokens), it, cut.lo, cut.hi)
    {
      ghost var before := tokens;
      KeyIsProper(tokens, it);
      hide ReplacedByPieces, Separated, Insert;
      if it.lo > cut.lo {
        if it.hi < cut.hi {
          tokens := tokens - {it};
          NoPiece(before, it, cut);
        } else if it.hi == cut.hi {
          tokens := tokens - {it};
          NoPiece(before, it, cut);
        } else {
          var rest, itMode := Interval(cut.hi + 1, it.hi), tokens[it];
          tokens := tokens - {it};
          tokens := Insert(tokens, rest, itMode);
          RightPiece(before, it, cut);
        }
      } else if it.lo == cut.lo {
        if it.hi < cut.hi {
          tokens := tokens - {it};
          NoPiece(before, it, cut);
        } else if it.hi == cut.hi {
          tokens := tokens - {it};
          NoPiece(before, it, cut);
        } else {
          var rest, itMode := Interval(cut.hi + 1, it.hi), tokens[it];
          tokens := tokens - {it};
          tokens := Insert(tokens, rest, itMode);
          RightPiece(before, it, cut);
        }
      } else {
        if it.hi < cut.hi {
          var rest, itMode := Interval(it.lo, cut.lo - 1), tokens[it];
          tokens := tokens - {it};
          tokens := Insert(tokens, rest, itMode);
          LeftPiece(before, it, cut);
        } else if it.hi == cut.hi {
          var rest, itMode := Interval(it.lo, cut.lo - 1), tokens[it];
          tokens := tokens - {it};
          tokens := Insert(tokens, rest, itMode);
          LeftPiece(before, it, cut);
        } else {
          var left, right, itMode := Interval(it.lo, cut.lo - 1), Interval(cut.hi + 1, it.hi), tokens[it];
          tokens := tokens - {it};
          tokens := Insert(tokens, left, itMode);
          tokens := Insert(tokens, right, itMode);
          if cut.lo <= cut.hi {
            BothPieces(before, it, cut);
          }
        }
      }
    }

    /** `revokePermission`: find the open file by its name and remove the range from its table.  For a file
        that is not open the answer is a range all the same. */
    method RevokePermission(file: string, start: nat, end: nat, mode: Mode) returns (response: string)
      requires Valid() && start <= MAX_BLOCK && end <= MAX_BLOCK
      modifies this
      ensures Valid() && response != "nack"
      ensures Wire.NumbersOf(response) == if file == name then (start, end) else (0, 4294967295)
      ensures if file == name then Removed(old(tokens), start, end, tokens) else tokens == old(tokens)
      ensures file == name && start <= end ==>
                forall b: nat :: At(tokens, b) == if start <= b <= end then None else At(old(tokens), b)
      ensures file == name && start <= end && NoTwins(old(tokens)) ==> NoTwins(tokens)
    {
      if file != name {
        Wire.GrantIsNoRefusal(0, MAX_BLOCK);
        Wire.GrantNumbers(0, MAX_BLOCK);
        return Wire.GrantMessage(0, MAX_BLOCK);
      }
      RemovePermission(start, end, mode);
      response := Wire.GrantMessage(start, end);
      Wire.GrantIsNoRefusal(start, end);
      Wire.GrantNumbers(start, end);
    }

    /** Add `mode` on `start..end`, as the code does it.

        `budget` bounds the number of loop iterations that are watched.  A request that hangs is still
        looping, on an unchanged table, after any number of them; every other request returns within as
        many iterations as the table has entries.  When the call returns, the table is the pointwise join
        if and only if the request is not one that clobbers. */
    method AddPermission(start: nat, end: nat, mode: Mode, budget: nat) returns (outcome: Outcome)
      requires Valid() && start <= end <= MAX_BLOCK
      modifies this
      ensures Valid()
      ensures Hangs(old(tokens), Interval(start, end), mode) ==>
                outcome == StillLooping && tokens == old(tokens)
      ensures !Hangs(old(tokens), Interval(start, end), mode) && budget >= |old(tokens)| ==> outcome == Returned
      ensures outcome == Returned ==>
                (JoinedOn(old(tokens), Interval(start, end), mode, tokens) <==>
                 !Clobbers(old(tokens), Interval(start, end), mode))
      ensures outcome == Returned ==>
                (StrongerInside(old(tokens), start, end, mode, tokens) <==>
                 !Clobbers(old(tokens), Interval(start, end), mode))
      ensures Free(old(tokens), Interval(start, end)) ==>
                outcome == Returned && tokens == AddedFree(old(tokens), Interval(start, end), mode)
      ensures Free(old(tokens), Interval(start, end)) ==>
                exists e :: JoinsNeighbours(old(tokens), Interval(start, end), mode, tokens, e)
      ensures NoTwins(old(tokens)) && (start == end || Free(old(tokens), Interval(start, end))) ==> NoTwins(tokens)
    {
      var bl, dontAdd, used := Interval(start, end), false, 0;
      ghost var was, req := tokens, bl;
      AddStarts(was, req, mode);
      SmallerSet(OverlapKeys(tokens, bl), was.Keys);
      if Free(was, req) {
        FreeIsNotHanging(was, req, mode);
      }
      assert Free(was, req) <==> Find(was, req).None?;
      hide *;
      while Find(tokens, bl).Some?
        invariant AddInv(was, req, mode, tokens, bl) && Separated(tokens) && bl.Proper()
        invariant dontAdd ==> Hangs(was, req, mode)
        invariant Hangs(was, req, mode) ==> tokens == was && bl == req
        invariant !Hangs(was, req, mode) ==> used + |OverlapKeys(tokens, bl)| <= |was|
        invariant Free(was, req) ==> tokens == was && bl == req
        invariant start == end ==> bl == req && (NoTwins(was) ==> NoTwins(tokens))
        invariant used <= budget
        decreases budget - used
      {
        ghost var before, bl0 := tokens, bl;
        var it := Find(tokens, bl).value;
        FoundIsThere(was, req, mode, tokens, bl, it);
        if used == budget {
          return StillLooping;
        }
        used := used + 1;
        var turn;
        if it.lo > bl.lo {
          bl := StartsInside(it, bl, mode, was, req);
          turn := Again;
        } else if it.lo == bl.lo {
          bl, turn := StartsLevel(it, bl, mode, was, req);
        } else {
          bl, turn := StartsBefore(it, bl, mode, was, req);
        }
        if turn == Spin {
          dontAdd := true;
          continue;
        }
        if turn == Covered {
          dontAdd := true;
          break;
        }
        if turn == Last {
          break;
        }
        SmallerSet(OverlapKeys(tokens, bl), OverlapKeys(before, bl0));
      }

      if !dontAdd && Find(tokens, bl).None? {
        InsertMerged(start, end, mode, bl, was);
      } else if !dontAdd {
        assert false;  // the error message for an overlap that is still there
      }
      JoinedBlocks(was, req, mode, tokens);
      return Returned;
    }

    /** The branches for an entry that starts inside the working interval. */
    method StartsInside(it: Interval, bl0: Interval, mode: Mode, ghost was: Tokens, ghost req: Interval)
        returns (bl: Interval)
      requires AddInv(was, req, mode, tokens, bl0) && Leftmost(tokens, bl0, it) && it.lo > bl0.lo
      modifies this
      ensures Separated(tokens) && AddInv(was, req, mode, tokens, bl) && bl.Proper()
      ensures OverlapKeys(tokens, bl) < OverlapKeys(old(tokens), bl0)
    {
      ghost var before := tokens;
      AddInvIsProper(was, req, mode, tokens, bl0);
      hide *;
      bl := bl0;
      if it.hi < bl.hi {
        if mode == W || tokens[it] == R {
          tokens := tokens - {it};
          Absorb(was, req, mode, before, bl0, it, bl);
        } else {
          tokens := Insert(tokens, Interval(bl.lo, it.lo - 1), mode);
          bl := bl.(lo := it.hi + 1);
          StepOver(was, req, before, bl0, it, tokens);
        }
      } else if it.hi == bl.hi {
        if mode == W || tokens[it] == R {
          tokens := tokens - {it};
          Absorb(was, req, mode, before, bl0, it, bl);
        } else {
          bl := bl.(hi := it.lo - 1);
          StopBefore(was, req, before, bl0, it);
        }
      } else {
        if mode == W && tokens[it] == W {
          bl := bl.(hi := it.hi);
          tokens := tokens - {it};
          Absorb(was, req, mode, before, bl0, it, bl);
        } else if mode == W {
          tokens := tokens - {it};
          tokens := Insert(tokens, Interval(bl.hi + 1, it.hi), R);
          RightPiece(before, it, bl);
          SplitReader(was, req, before, bl0, it, tokens);
        } else if tokens[it] == W {
          bl := bl.(hi := it.lo - 1);
          StopBefore(was, req, before, bl0, it);
        } else {
          bl := bl.(hi := it.hi);
          tokens := tokens - {it};
          Absorb(was, req, mode, before, bl0, it, bl);
        }
      }
      AddInvIsProper(was, req, mode, tokens, bl);
    }

    /** The branches for an entry that starts where the working interval starts. */
    method StartsLevel(it: Interval, bl0: Interval, mode: Mode, ghost was: Tokens, ghost req: Interval)
        returns (bl: Interval, turn: Turn)
      requires AddInv(was, req, mode, tokens, bl0) && Leftmost(tokens, bl0, it) && it.lo == bl0.lo
      modifies this
      ensures Separated(tokens) && turn != Spin
      ensures turn == Covered ==>
                tokens == old(tokens) && JoinedOn(was, req, mode, tokens) && !Clobbers(was, req, mode)
      ensures turn != Covered ==>
                && AddInv(was, req, mode, tokens, bl) && bl.Proper()
                && OverlapKeys(tokens, bl) < OverlapKeys(old(tokens), bl0)
      ensures turn == Last ==> Find(tokens, bl).None?
      ensures bl0.lo == bl0.hi && turn != Covered ==> bl == bl0
      ensures bl0.lo == bl0.hi && NoTwins(old(tokens)) ==> NoTwins(tokens)
    {
      ghost var before := tokens;
      AddInvIsProper(was, req, mode, tokens, bl0);
      hide *;
      bl, turn := bl0, Again;
      if it.hi < bl.hi {
        if mode == W || tokens[it] == R {
          tokens := tokens - {it};
          Absorb(was, req, mode, before, bl0, it, bl);
        } else {
          bl := bl.(lo := it.hi + 1);
          StepOver(was, req, before, bl0, it, tokens);
        }
      } else if it.hi == bl.hi {
        if mode == W || tokens[it] == R {
          tokens := tokens - {it};
          turn := Last;
          EraseHasNoTwins(before, it);
          Absorb(was, req, mode, before, bl0, it, bl);
          OnlyOneOverlapped(before, it, bl);
        } else {
          turn := Covered;
          NothingToAdd(was, req, mode, before, bl0, it);
          return;
        }
      } else {
        if mode == W && tokens[it] == R {
          tokens := tokens - {it};
          tokens := Insert(tokens, Interval(bl.hi + 1, it.hi), R);
          RightPiece(before, it, bl);
          SplitReader(was, req, before, bl0, it, tokens);
          PiecesHaveNoTwins(before, it, bl, tokens);
        } else {
          turn := Covered;
          NothingToAdd(was, req, mode, before, bl0, it);
          return;
        }
      }
      AddInvIsProper(was, req, mode, tokens, bl);
    }

    /** The branches for an entry that starts before the working interval.  Two of its shapes change neither
        the table nor the interval and still go round again. */
    method StartsBefore(it: Interval, bl0: Interval, mode: Mode, ghost was: Tokens, ghost req: Interval)
        returns (bl: Interval, turn: Turn)
      requires AddInv(was, req, mode, tokens, bl0) && Leftmost(tokens, bl0, it) && it.lo < bl0.lo
      modifies this
      ensures Separated(tokens) && (turn == Spin || turn == Again)
      ensures turn == Spin <==> it.hi >= bl0.hi && (mode == R || old(tokens)[it] == W)
      ensures turn == Spin ==> tokens == old(tokens) && bl == bl0
      ensures turn == Again ==>
                && AddInv(was, req, mode, tokens, bl) && bl.Proper()
                && OverlapKeys(tokens, bl) < OverlapKeys(old(tokens), bl0)
      ensures bl0.lo == bl0.hi ==> bl == bl0
      ensures bl0.lo == bl0.hi && NoTwins(old(tokens)) ==> NoTwins(tokens)
    {
      ghost var before := tokens;
      AddInvIsProper(was, req, mode, tokens, bl0);
      hide *;
      bl, turn := bl0, Again;
      if it.hi < bl.hi {
        if mode == W && tokens[it] == R {
          tokens := tokens - {it};
          tokens := Insert(tokens, Interval(it.lo, bl.lo - 1), R);
          LeftPiece(before, it, bl);
          SplitReader(was, req, before, bl0, it, tokens);
          PiecesHaveNoTwins(before, it, bl, tokens);
        } else if mode == R && tokens[it] == W {
          bl := bl.(lo := it.hi + 1);
          StepOver(was, req, before, bl0, it, tokens);
        } else {
          bl := bl.(lo := it.lo);
          tokens := tokens - {it};
          Absorb(was, req, mode, before, bl0, it, bl);
        }
      } else if it.hi == bl.hi {
        if mode == W && tokens[it] == R {
          tokens := tokens - {it};
          tokens := Insert(tokens, Interval(it.lo, bl.lo - 1), R);
          LeftPiece(before, it, bl);
          SplitReader(was, req, before, bl0, it, tokens);
          PiecesHaveNoTwins(before, it, bl, tokens);
        } else {
          turn := Spin;
        }
      } else {
        if mode == W && tokens[it] == R {
          tokens := tokens - {it};
          tokens := Insert(tokens, Interval(it.lo, bl.lo - 1), R);
          tokens := Insert(tokens, Interval(bl.hi + 1, it.hi), R);
          BothPieces(before, it, bl);
          SplitReader(was, req, before, bl0, it, tokens);
          PiecesHaveNoTwins(before, it, bl, tokens);
        } else {
          turn := Spin;
        }
      }
      if turn == Again {
        AddInvIsProper(was, req, mode, tokens, bl);
      }
    }

    /** The end of `AddPermission`: merge with the neighbours of the original request, then insert. */
    method InsertMerged(start: nat, end: nat, mode: Mode, working: Interval, ghost was: Tokens)
      requires Valid() && AddInv(was, Interval(start, end), mode, tokens, working)
      requires forall k :: k in tokens ==> !Overlaps(k, working)
      modifies this
      ensures Valid()
      ensures JoinedOn(was, Interval(start, end), mode, tokens) <==> !Clobbers(was, Interval(start, end), mode)
      ensures working == Interval(start, end) ==>
                && tokens == AddedFree(old(tokens), working, mode)
                && (exists e :: JoinsNeighbours(old(tokens), working, mode, tokens, e))
                && (NoTwins(old(tokens)) ==> NoTwins(tokens))
    {
      hide AddInv, At, Insert, Separated, Overlaps, JoinedOn, Clobbers;
      var bl, right, left := working, None, None;
      ghost var req, t := Interval(start, end), tokens;
      if end != MAX_BLOCK {
        right := Neighbour(tokens, end + 1, mode);
        if right.Some? {
          bl := bl.(hi := right.value.hi);
          tokens := tokens - {right.value};
        }
      }
      RightProbe(was, req, mode, t, working, right);
      if start != 0 {
        left := Neighbour(tokens, start - 1, mode);
        if left.Some? {
          bl := bl.(lo := left.value.lo);
          tokens := tokens - {left.value};
        }
      }
      BothProbes(t, req, mode, right, left);
      hide Neighbour;
      tokens := Insert(tokens, bl, mode);
      SafeIffNotClobbering(was, req, mode, t, working, right, left);
      if MergeIsSafe(req, working, right, left) {
        SafeMergeJoins(was, req, mode, t, working, right, left);
      } else {
        UnsafeMergeLoses(was, req, mode, t, working, right, left);
      }
      assert working == req ==> tokens == AddedFree(t, working, mode);
      hide *;
      MergedFree(was, t, req, mode, working);
    }
  }
}
