/** Which tokens a read or write still needs, and the loop that asks for them. */
module Acquire {
  import opened Intervals
  import opened Permissions
  import opened OpenFile

  ghost predicate InRuns(runs: seq<Interval>, b: nat) {
    exists i :: 0 <= i < |runs| && runs[i].Has(b)
  }

  /** `runs` lists, in order, the maximal runs of blocks in `first..last` that have no permission at all. */
  ghost predicate AreRuns(t: Tokens, first: nat, last: nat, runs: seq<Interval>) {
    && (forall i :: 0 <= i < |runs| ==> first <= runs[i].lo <= runs[i].hi <= last)
    && (forall i, j :: 0 <= i < j < |runs| ==> runs[i].hi + 1 < runs[j].lo)
    && (forall b: nat :: first <= b <= last ==> (At(t, b) == None <==> InRuns(runs, b)))
  }

  /** A run cannot be extended: the blocks on either side of it are outside the range or have permission. */
  lemma RunsAreMaximal(t: Tokens, first: nat, last: nat, runs: seq<Interval>, i: nat)
    requires AreRuns(t, first, last, runs) && i < |runs|
    ensures runs[i].lo == first || At(t, runs[i].lo - 1).Some?
    ensures runs[i].hi == last || At(t, runs[i].hi + 1).Some?
  {
    forall j | 0 <= j < |runs|
      ensures runs[i].lo > first ==> !runs[j].Has(runs[i].lo - 1)
      ensures !runs[j].Has(runs[i].hi + 1)
    {
      assert j < i ==> runs[j].hi + 1 < runs[i].lo;
      assert i < j ==> runs[i].hi + 1 < runs[j].lo;
    }
    if runs[i].lo > first {
      assert !InRuns(runs, runs[i].lo - 1);
    }
    assert !InRuns(runs, runs[i].hi + 1);
  }

  /** The table and the range determine the list. */
  lemma {:induction false} RunsAreUnique(t: Tokens, first: nat, last: nat, one: seq<Interval>, two: seq<Interval>)
    requires AreRuns(t, first, last, one) && AreRuns(t, first, last, two)
    ensures one == two
    decreases |one|
  {
    if one != [] {
      FirstRunAgrees(t, first, last, one, two);
    }
    if two != [] {
      FirstRunAgrees(t, first, last, two, one);
    }
    if one != [] {
      DropFirstRun(t, first, last, one);
      DropFirstRun(t, first, last, two);
      RunsAreUnique(t, one[0].hi + 1, last, one[1..], two[1..]);
      assert one == [one[0]] + one[1..] && two == [two[0]] + two[1..];
    }
  }

  lemma FirstRunAgrees(t: Tokens, first: nat, last: nat, one: seq<Interval>, two: seq<Interval>)
    requires AreRuns(t, first, last, one) && AreRuns(t, first, last, two) && one != []
    ensures two != [] && two[0].lo <= one[0].lo && (one[0].lo == two[0].lo ==> one[0].hi <= two[0].hi)
  {
    assert one[0].Has(one[0].lo);
    assert InRuns(one, one[0].lo) && InRuns(two, one[0].lo);
    if one[0].lo == two[0].lo && two[0].hi < one[0].hi {
      RunsAreMaximal(t, first, last, two, 0);
      assert one[0].Has(two[0].hi + 1);
      assert InRuns(one, two[0].hi + 1);
    }
  }

  lemma DropFirstRun(t: Tokens, first: nat, last: nat, runs: seq<Interval>)
    requires AreRuns(t, first, last, runs) && runs != []
    ensures AreRuns(t, runs[0].hi + 1, last, runs[1..])
  {
    forall b: nat | runs[0].hi + 1 <= b <= last
      ensures At(t, b) == None <==> InRuns(runs[1..], b)
    {
      TailRuns(runs, b);
    }
  }

  lemma TailRuns(runs: seq<Interval>, b: nat)
    requires runs != []
    ensures InRuns(runs, b) <==> runs[0].Has(b) || InRuns(runs[1..], b)
  {
    if InRuns(runs, b) && !runs[0].Has(b) {
      var i :| 0 <= i < |runs| && runs[i].Has(b);
      assert runs[1..][i - 1].Has(b);
    }
    if InRuns(runs[1..], b) {
      var i :| 0 <= i < |runs[1..]| && runs[1..][i].Has(b);
      assert runs[i + 1].Has(b);
    }
  }

  /** Asking for a missing run never meets an entry: what the table does with the grant is always exact. */
  lemma MissingRunIsFree(t: Tokens, first: nat, last: nat, runs: seq<Interval>, i: nat, mode: Mode)
    requires Separated(t) && last <= MAX_BLOCK && AreRuns(t, first, last, runs) && i < |runs|
    ensures runs[i].Proper() && Free(t, runs[i]) && AddIsExact(t, runs[i], mode)
  {
    forall b: nat | runs[i].Has(b)
      ensures At(t, b) == None
    {
      assert InRuns(runs, b);
    }
    FreeIsExact(t, runs[i], mode);
  }

  /** A grant of the first run takes exactly that run off the list. */
  lemma GrantTakesFirstRun(t: Tokens, first: nat, last: nat, runs: seq<Interval>, mode: Mode, u: Tokens)
    requires AreRuns(t, first, last, runs) && runs != [] && JoinedOn(t, runs[0], mode, u)
    ensures AreRuns(u, first, last, runs[1..])
  {
    forall b: nat | first <= b <= last
      ensures At(u, b) == None <==> InRuns(runs[1..], b)
    {
      assert At(u, b) == Joined(t, runs[0], mode, b);
      TailRuns(runs, b);
      if i :| 0 <= i < |runs[1..]| && runs[1..][i].Has(b) {
        assert runs[0].hi + 1 < runs[i + 1].lo;
      }
    }
  }

  /** The scan over the range. */
  method RequiredToken(entry: Entry, blockStart: nat, blockEnd: nat) returns (runs: seq<Interval>)
    requires entry.Valid()
    ensures AreRuns(entry.tokens, blockStart, blockEnd, runs)
  {
    hide At, Separated;
    var start: int, end: int := -1, -1;
    runs := [];
    var i := blockStart;
    while i <= blockEnd
      invariant blockStart <= i && (i <= blockEnd + 1 || i == blockStart)
      invariant end == -1 && (start == -1 || blockStart <= start < i)
      invariant forall k :: 0 <= k < |runs| ==> blockStart <= runs[k].lo <= runs[k].hi < i
      invariant forall k :: 0 <= k < |runs| && start != -1 ==> runs[k].hi + 1 < start
      invariant start == -1 && blockStart < i ==> At(entry.tokens, i - 1).Some?
      invariant forall j, k :: 0 <= j < k < |runs| ==> runs[j].hi + 1 < runs[k].lo
      invariant forall b: nat :: blockStart <= b < i ==>
                  (At(entry.tokens, b) == None <==>
                   (start != -1 && start <= b) || InRuns(runs, b))
    {
      if entry.CheckPermission(i, R) {
        if start != -1 {
          end := i - 1;
          ghost var before := runs;
          runs := runs + [Interval(start, end)];
          ExtendedRuns(before, Interval(start, end));
          start := -1;
          end := -1;
        }
      } else {
        if start == -1 {
          start := i;
        }
      }
      i := i + 1;
    }
    if start != -1 && end == -1 {
      end := blockEnd;
      ExtendedRuns(runs, Interval(start, end));
      runs := runs + [Interval(start, end)];
    }
  }

  lemma ExtendedRuns(runs: seq<Interval>, run: Interval)
    ensures forall b: nat :: InRuns(runs + [run], b) <==> run.Has(b) || InRuns(runs, b)
  {
    var more := runs + [run];
    forall b: nat
      ensures InRuns(more, b) <==> run.Has(b) || InRuns(runs, b)
    {
      if run.Has(b) {
        assert more[|runs|].Has(b);
      }
      if k :| 0 <= k < |runs| && runs[k].Has(b) {
        assert more[k].Has(b);
      }
    }
  }

  /** There always is such a list. */
  lemma {:induction false} RunsExist(t: Tokens, first: nat, end: nat) returns (runs: seq<Interval>)
    requires first <= end
    ensures end > 0 ==> AreRuns(t, first, end - 1, runs)
    ensures end == first ==> runs == []
    decreases end - first
  {
    if end == first {
      runs := [];
    } else {
      var before := RunsExist(t, first, end - 1);
      if At(t, end - 1).Some? {
        runs := before;
        NextTaken(t, first, end - 1, before);
      } else {
        runs := NextMissing(t, first, end - 1, before);
      }
    }
  }

  lemma NextTaken(t: Tokens, first: nat, b: nat, runs: seq<Interval>)
    requires first <= b && At(t, b).Some? && (if b > first then AreRuns(t, first, b - 1, runs) else runs == [])
    ensures AreRuns(t, first, b, runs)
  {
    hide At;
  }

  lemma NextMissing(t: Tokens, first: nat, b: nat, runs: seq<Interval>) returns (more: seq<Interval>)
    requires first <= b && At(t, b) == None && (if b > first then AreRuns(t, first, b - 1, runs) else runs == [])
    ensures AreRuns(t, first, b, more)
  {
    hide At;
    if runs == [] || runs[|runs| - 1].hi < b - 1 {
      more := runs + [Interval(b, b)];
      ExtendedRuns(runs, Interval(b, b));
    } else {
      var init, last := runs[..|runs| - 1], runs[|runs| - 1];
      more := init + [Interval(last.lo, b)];
      ExtendedRuns(init, last);
      ExtendedRuns(init, Interval(last.lo, b));
      assert runs == init + [last];
    }
  }

  // ------------------------------------------------------------------ the acquire loop

  /** What the metadata manager answers to one request: the file entry was busy; the interval asked for; or a
      refusal, because it does not know the file. */
  datatype Reply = LockingFailed | Granted | Nack

  /** The runs that are still missing after one more reply.  A refusal reads as a grant of block 0. */
  function Reduced(runs: seq<Interval>, reply: Reply): seq<Interval> {
    if runs == [] then []
    else
      match reply
      case LockingFailed => runs
      case Granted => runs[1..]
      case Nack =>
        if runs[0].lo > 0 then runs
        else if runs[0].hi == 0 then runs[1..]
        else [Interval(1, runs[0].hi)] + runs[1..]
  }

  function Remaining(runs: seq<Interval>, replies: seq<Reply>): seq<Interval> {
    if replies == [] then runs else Reduced(Remaining(runs, replies[..|replies| - 1]), replies[|replies| - 1])
  }

  lemma OneMoreReply(runs: seq<Interval>, replies: seq<Reply>, n: nat)
    requires n < |replies|
    ensures Remaining(runs, replies[..n + 1]) == Reduced(Remaining(runs, replies[..n]), replies[n])
    ensures Nack in replies[..n + 1] <==> Nack in replies[..n] || replies[n] == Nack
  {
    assert replies[..n + 1][..n] == replies[..n];
  }

  /** Once nothing is missing, nothing more is needed. */
  lemma {:induction false} EnoughIsEnough(runs: seq<Interval>, replies: seq<Reply>, n: nat)
    requires n <= |replies| && Remaining(runs, replies[..n]) == []
    ensures Remaining(runs, replies) == []
    decreases |replies| - n
  {
    if n < |replies| {
      OneMoreReply(runs, replies, n);
      EnoughIsEnough(runs, replies, n + 1);
    } else {
      assert replies[..n] == replies;
    }
  }

  function Grants(replies: seq<Reply>): nat {
    if replies == [] then 0 else Grants(replies[..|replies| - 1]) + if replies[|replies| - 1] == Granted then 1 else 0
  }

  /** Without a refusal it takes one grant for each run. */
  lemma {:induction false} GrantsCount(runs: seq<Interval>, replies: seq<Reply>)
    requires Nack !in replies
    ensures Remaining(runs, replies) == if Grants(replies) <= |runs| then runs[Grants(replies)..] else []
  {
    if replies != [] {
      var init := replies[..|replies| - 1];
      assert forall r :: r in init ==> r in replies;
      GrantsCount(runs, init);
      if Grants(init) < |runs| {
        assert runs[Grants(init)..][1..] == runs[Grants(init) + 1..];
      }
    }
  }

  ghost function Wanted(was: Tokens, first: nat, last: nat, mode: Mode, b: nat): Option<Mode> {
    if first <= b <= last && At(was, b) == None then Some(mode) else At(was, b)
  }

  /** `now` is `was` with every block of the range that had no permission at all given `mode`. */
  ghost predicate Filled(was: Tokens, first: nat, last: nat, mode: Mode, now: Tokens) {
    forall b: nat :: At(now, b) == Wanted(was, first, last, mode, b)
  }

  /** The same, with `mode` added on block 0 if a refusal was taken for a grant. */
  ghost predicate FilledAfter(was: Tokens, first: nat, last: nat, mode: Mode, refused: bool, now: Tokens) {
    forall b: nat :: At(now, b) == Taken(was, first, last, mode, refused, b)
  }

  ghost function Taken(was: Tokens, first: nat, last: nat, mode: Mode, refused: bool, b: nat): Option<Mode> {
    if refused && b == 0 then Stronger(Wanted(was, first, last, mode, b), Some(mode))
    else Wanted(was, first, last, mode, b)
  }

  lemma FilledBlocks(was: Tokens, first: nat, last: nat, mode: Mode, refused: bool, now: Tokens)
    requires FilledAfter(was, first, last, mode, refused, now)
    ensures !refused ==>
              forall b: nat :: At(now, b) == if first <= b <= last && At(was, b) == None then Some(mode) else At(was, b)
    ensures refused ==>
              forall b: nat :: b > 0 ==>
                At(now, b) == if first <= b <= last && At(was, b) == None then Some(mode) else At(was, b)
    ensures refused ==> At(now, 0) == if mode == W || At(was, 0) == Some(W) then Some(W) else Some(R)
  {
    hide At;
    match mode { case R => case W => }
  }

  /** The range is filled and nothing else is touched exactly when there was no refusal or block 0 would have
      been as strong without it: it was missing from the range, or held at least as strongly. */
  lemma RefusalIsHarmlessIff(was: Tokens, first: nat, last: nat, mode: Mode, refused: bool, now: Tokens)
    requires FilledAfter(was, first, last, mode, refused, now)
    ensures Filled(was, first, last, mode, now) <==>
            !refused || Rank(Wanted(was, first, last, mode, 0)) >= Rank(Some(mode))
  {
    hide At, Wanted;
    assert At(now, 0) == Taken(was, first, last, mode, refused, 0);
    match mode { case R => case W => }
  }

  /** A read of block 5 that is refused and then granted: it ends with a permission on block 0 as well. */
  lemma RefusedThenGranted()
    ensures var now: Tokens := map[Interval(0, 0) := R, Interval(5, 5) := R];
            && Separated(now) && Remaining([Interval(5, 5)], [Nack, Granted]) == []
            && FilledAfter(map[], 5, 5, R, true, now) && !Filled(map[], 5, 5, R, now)
  {
    var none: Tokens := map[];
    var one: Tokens := none[Interval(0, 0) := R];
    AtInsert(none, Interval(0, 0), R);
    AtInsert(one, Interval(5, 5), R);
    var now: Tokens := map[Interval(0, 0) := R, Interval(5, 5) := R];
    assert now == one[Interval(5, 5) := R] && At(none, 0) == None;
    assert At(now, 0) == Some(R) && Wanted(none, 5, 5, R, 0) == None;
    hide At;
    assert [Nack, Granted][..1] == [Nack] && [Nack][..0] == [];
    assert Remaining([Interval(5, 5)], [Nack]) == Reduced(Remaining([Interval(5, 5)], []), Nack);
  }

  /** For a read the filled range is readable.  For a write it is writable exactly when no block of it was
      already held for reading: the scan counts an 'r' block as not missing. */
  lemma FilledForWriting(was: Tokens, first: nat, last: nat, mode: Mode, now: Tokens)
    requires Filled(was, first, last, mode, now)
    ensures forall b: nat :: first <= b <= last ==> Rank(At(now, b)) >= Rank(Some(R))
    ensures mode == W ==>
              ((forall b: nat :: first <= b <= last ==> At(now, b) == Some(W)) <==>
               (forall b: nat :: first <= b <= last ==> At(was, b) != Some(R)))
  {
    if mode == W {
      forall b: nat | first <= b <= last
        ensures At(now, b) == Some(W) <==> At(was, b) != Some(R)
      {
        match At(was, b) case None => case Some(m) => match m case R => case W =>
      }
    }
  }

  /** A writer that already holds 'r' on its block: nothing is missing, so it gets past the loop without ever
      asking for 'w'. */
  lemma WriteWithReadToken()
    ensures AreRuns(map[Interval(0, 0) := R], 0, 0, [])
    ensures Filled(map[Interval(0, 0) := R], 0, 0, W, map[Interval(0, 0) := R])
    ensures At(map[Interval(0, 0) := R], 0) == Some(R)
  {
    AtKey(map[Interval(0, 0) := R], Interval(0, 0), 0);
    hide At;
  }

  /** Like `FilledAfter`, but the blocks of the runs still missing are as they were. */
  ghost predicate FilledBut(was: Tokens, first: nat, last: nat, mode: Mode, refused: bool, missing: seq<Interval>,
                            now: Tokens) {
    forall b: nat :: At(now, b) == if InRuns(missing, b) then None else Taken(was, first, last, mode, refused, b)
  }

  lemma GrantFillsRun(was: Tokens, first: nat, last: nat, mode: Mode, refused: bool, runs: seq<Interval>, t: Tokens,
                      u: Tokens)
    requires AreRuns(t, first, last, runs) && runs != [] && FilledBut(was, first, last, mode, refused, runs, t)
    requires forall b: nat :: InRuns(runs, b) ==> At(was, b) == None
    requires JoinedOn(t, runs[0], mode, u)
    ensures FilledBut(was, first, last, mode, refused, runs[1..], u)
  {
    forall b: nat
      ensures At(u, b) == if InRuns(runs[1..], b) then None else Taken(was, first, last, mode, refused, b)
    {
      assert At(u, b) == Joined(t, runs[0], mode, b);
      TailRuns(runs, b);
      RunsApart(t, first, last, runs, b);
      assert runs[0].Has(b) ==> first <= b <= last;
      hide At, InRuns, AreRuns;
    }
  }

  lemma RunsApart(t: Tokens, first: nat, last: nat, runs: seq<Interval>, b: nat)
    requires AreRuns(t, first, last, runs) && runs != []
    ensures runs[0].Has(b) ==> !InRuns(runs[1..], b)
  {
    hide At;
    if i :| 0 <= i < |runs[1..]| && runs[1..][i].Has(b) {
      assert runs[0].hi + 1 < runs[i + 1].lo;
    }
  }

  /** What block 0 does to the list: it leaves the run it was in. */
  lemma RefusalReduces(runs: seq<Interval>, first: nat, last: nat, t: Tokens, b: nat)
    requires AreRuns(t, first, last, runs)
    ensures InRuns(Reduced(runs, Nack), b) <==> InRuns(runs, b) && b != 0
  {
    hide At;
    if runs != [] {
      TailRuns(runs, b);
      RunsApart(t, first, last, runs, b);
      RunsApart(t, first, last, runs, 0);
      if runs[0].lo == 0 {
        if runs[0].hi > 0 {
          TailRuns([Interval(1, runs[0].hi)] + runs[1..], b);
          assert ([Interval(1, runs[0].hi)] + runs[1..])[1..] == runs[1..];
        }
      } else {
        StartsPastZero(runs, first, last, t);
      }
    }
  }

  lemma StartsPastZero(runs: seq<Interval>, first: nat, last: nat, t: Tokens)
    requires AreRuns(t, first, last, runs) && runs != [] && runs[0].lo > 0
    ensures !InRuns(runs, 0)
  {
    hide At;
    forall i | 0 <= i < |runs|
      ensures !runs[i].Has(0)
    {
      assert i > 0 ==> runs[0].hi + 1 < runs[i].lo;
    }
  }

  lemma RefusalKeepsRuns(t: Tokens, first: nat, last: nat, runs: seq<Interval>, mode: Mode, u: Tokens)
    requires AreRuns(t, first, last, runs) && JoinedOn(t, Interval(0, 0), mode, u)
    ensures AreRuns(u, first, last, Reduced(runs, Nack))
  {
    var less := Reduced(runs, Nack);
    forall b: nat | first <= b <= last
      ensures At(u, b) == None <==> InRuns(less, b)
    {
      RefusalReduces(runs, first, last, t, b);
      assert At(u, b) == Joined(t, Interval(0, 0), mode, b);
      hide At, InRuns, Reduced;
    }
    hide At, InRuns;
  }

  lemma RefusalFills(was: Tokens, first: nat, last: nat, mode: Mode, refused: bool, runs: seq<Interval>, t: Tokens,
                     u: Tokens)
    requires AreRuns(t, first, last, runs) && FilledBut(was, first, last, mode, refused, runs, t)
    requires forall b: nat :: InRuns(runs, b) ==> first <= b <= last && At(was, b) == None
    requires JoinedOn(t, Interval(0, 0), mode, u)
    ensures FilledBut(was, first, last, mode, true, Reduced(runs, Nack), u)
  {
    forall b: nat
      ensures At(u, b) == if InRuns(Reduced(runs, Nack), b) then None else Taken(was, first, last, mode, true, b)
    {
      RefusalReduces(runs, first, last, t, b);
      assert At(u, b) == Joined(t, Interval(0, 0), mode, b);
      hide At, InRuns, Reduced, AreRuns;
      match mode { case R => case W => }
    }
  }

  /** The acquire loop's invariant: after these replies the runs left are missing and the rest is filled in. */
  ghost predicate OnTheWay(was: Tokens, first: nat, last: nat, mode: Mode, needed: seq<Interval>, replies: seq<Reply>,
                           t: Tokens) {
    && AreRuns(was, first, last, needed)
    && AreRuns(t, first, last, Remaining(needed, replies))
    && FilledBut(was, first, last, mode, Nack in replies, Remaining(needed, replies), t)
    && (forall b: nat :: InRuns(Remaining(needed, replies), b) ==> InRuns(needed, b))
  }

  lemma SetOut(was: Tokens, first: nat, last: nat, mode: Mode, needed: seq<Interval>)
    requires AreRuns(was, first, last, needed) && first <= last + 1
    ensures OnTheWay(was, first, last, mode, needed, [], was)
  {
    hide At;
    forall b: nat
      ensures InRuns(needed, b) ==> first <= b <= last
    {
    }
  }

  /** The entry of a run is missing at the start of the loop as well. */
  lemma StillMissing(was: Tokens, first: nat, last: nat, mode: Mode, needed: seq<Interval>, replies: seq<Reply>,
                     t: Tokens)
    requires OnTheWay(was, first, last, mode, needed, replies, t)
    ensures forall b: nat :: InRuns(Remaining(needed, replies), b) ==> first <= b <= last && At(was, b) == None
  {
    hide At, Remaining;
    forall b: nat | InRuns(Remaining(needed, replies), b)
      ensures first <= b <= last && At(was, b) == None
    {
      var i :| 0 <= i < |needed| && needed[i].Has(b);
    }
  }

  lemma Advance(was: Tokens, first: nat, last: nat, mode: Mode, needed: seq<Interval>, replies: seq<Reply>, n: nat,
                t: Tokens, u: Tokens)
    requires n < |replies| && OnTheWay(was, first, last, mode, needed, replies[..n], t)
    requires Remaining(needed, replies[..n]) != []
    requires match replies[n]
             case LockingFailed => u == t
             case Granted => JoinedOn(t, Remaining(needed, replies[..n])[0], mode, u)
             case Nack => JoinedOn(t, Interval(0, 0), mode, u)
    ensures OnTheWay(was, first, last, mode, needed, replies[..n + 1], u)
  {
    var runs := Remaining(needed, replies[..n]);
    OneMoreReply(needed, replies, n);
    StillMissing(was, first, last, mode, needed, replies[..n], t);
    hide Remaining, FilledBut, At, JoinedOn;
    match replies[n] {
      case LockingFailed =>
      case Granted =>
        GrantTakesFirstRun(t, first, last, runs, mode, u);
        GrantFillsRun(was, first, last, mode, Nack in replies[..n], runs, t, u);
        forall b: nat { TailRuns(runs, b); }
      case Nack =>
        RefusalKeepsRuns(t, first, last, runs, mode, u);
        RefusalFills(was, first, last, mode, Nack in replies[..n], runs, t, u);
        forall b: nat { RefusalReduces(runs, first, last, t, b); }
    }
  }

  lemma Arrived(was: Tokens, first: nat, last: nat, mode: Mode, needed: seq<Interval>, replies: seq<Reply>, t: Tokens)
    requires OnTheWay(was, first, last, mode, needed, replies, t)
    ensures Remaining(needed, replies) == [] ==> FilledAfter(was, first, last, mode, Nack in replies, t)
    ensures forall b: nat :: At(t, b) == At(was, b) || At(t, b) == Taken(was, first, last, mode, Nack in replies, b)
  {
    StillMissing(was, first, last, mode, needed, replies, t);
    hide At, Remaining, AreRuns, Taken;
    if Remaining(needed, replies) == [] {
      assert forall b: nat :: !InRuns([], b);
    }
  }

  /** Clear the flag of every block of the runs. */
  method MarkMissing(have: array<bool>, first: nat, runs: seq<Interval>)
    requires forall r :: 0 <= r < |runs| ==> first <= runs[r].lo <= runs[r].hi < first + have.Length
    modifies have
    ensures forall k :: 0 <= k < have.Length ==> have[k] == (old(have[k]) && !InRuns(runs, first + k))
  {
    for r := 0 to |runs|
      invariant forall k :: 0 <= k < have.Length ==> have[k] == (old(have[k]) && !InRuns(runs[..r], first + k))
    {
      for i := runs[r].lo to runs[r].hi + 1
        invariant forall k :: 0 <= k < have.Length ==>
          have[k] == (old(have[k]) && !InRuns(runs[..r], first + k) && !(runs[r].lo <= first + k < i))
      {
        have[i - first] := false;
      }
      ExtendedRuns(runs[..r], runs[r]);
      assert runs[..r + 1] == runs[..r] + [runs[r]];
    }
    assert runs[..|runs|] == runs;
  }

  ghost predicate Marked(was: seq<bool>, first: nat, runs: seq<Interval>, now: seq<bool>) {
    |now| == |was| && forall k :: 0 <= k < |now| ==> now[k] == (was[k] && !InRuns(runs, first + k))
  }

  /** The flags tell the blocks outside the runs from those inside. */
  ghost predicate FlagsOutside(flags: seq<bool>, first: nat, runs: seq<Interval>) {
    forall k :: 0 <= k < |flags| ==> flags[k] == !InRuns(runs, first + k)
  }

  lemma MarkedFlags(was: seq<bool>, first: nat, runs: seq<Interval>, now: seq<bool>, needed: seq<Interval>)
    requires Marked(was, first, runs, now) && forall b: nat :: InRuns(runs, b) ==> InRuns(needed, b)
    requires FlagsOutside(was, first, needed) || (FlagsOutside(was, first, []) && runs == needed)
    ensures FlagsOutside(now, first, needed)
  {
    assert forall b: nat :: !InRuns([], b);
    hide InRuns;
  }

  /** One pass over the range: list the missing runs and clear their flags. */
  method ScanAndMark(entry: Entry, have: array<bool>, first: nat, last: nat) returns (runs: seq<Interval>)
    requires entry.Valid() && have.Length == last + 1 - first
    modifies have
    ensures AreRuns(entry.tokens, first, last, runs)
    ensures Marked(old(have[..]), first, runs, have[..])
  {
    runs := RequiredToken(entry, first, last);
    hide InRuns, At;
    MarkMissing(have, first, runs);
  }

  /** Block 0 cannot be added wrongly: no entry starts before it. */
  lemma BlockZeroIsExact(t: Tokens, mode: Mode)
    requires Separated(t)
    ensures AddIsExact(t, Interval(0, 0), mode)
  {
    if At(t, 0) == Some(W) {
      var k := AtHasKey(t, 0);
      assert k.lo == 0;
    }
    hide At;
  }

  /** One reply: a grant is added to the table, a busy file changes nothing, and a refusal adds block 0. */
  method HandleReply(entry: Entry, run: Interval, mode: Mode, reply: Reply)
    requires entry.Valid() && run.Proper() && Free(entry.tokens, run) && AddIsExact(entry.tokens, run, mode)
    modifies entry
    ensures entry.Valid() && Separated(entry.tokens)
    ensures match reply
            case LockingFailed => entry.tokens == old(entry.tokens)
            case Granted => JoinedOn(old(entry.tokens), run, mode, entry.tokens)
            case Nack => JoinedOn(old(entry.tokens), Interval(0, 0), mode, entry.tokens)
    ensures reply == Granted ==> exists e :: JoinsNeighbours(old(entry.tokens), run, mode, entry.tokens, e)
    ensures NoTwins(old(entry.tokens)) ==> NoTwins(entry.tokens)
  {
    assert run == Interval(run.lo, run.hi);
    BlockZeroIsExact(entry.tokens, mode);
    hide JoinedOn, Hangs, Clobbers, Free, NoTwins, JoinsNeighbours, AddedFree;
    match reply {
      case LockingFailed =>
      case Granted =>
        var outcome := entry.AddPermission(run.lo, run.hi, mode, 0);
      case Nack =>
        var outcome := entry.AddPermission(0, 0, mode, |entry.tokens|);
    }
  }

  /** The loop in `pfs_read` (mode 'r') and `pfs_write` (mode 'w'), fed with a finite list of replies. */
  method AskUntilHeld(entry: Entry, have: array<bool>, first: nat, last: nat, mode: Mode, replies: seq<Reply>,
                      ghost needed: seq<Interval>)
      returns (done: bool, used: nat)
    requires entry.Valid() && have.Length == last + 1 - first && last <= MAX_BLOCK
    requires FlagsOutside(have[..], first, []) && AreRuns(entry.tokens, first, last, needed)
    modifies entry, have
    ensures entry.Valid() && FlagsOutside(have[..], first, needed) && used <= |replies|
    ensures OnTheWay(old(entry.tokens), first, last, mode, needed, replies[..used], entry.tokens)
    ensures if done then Remaining(needed, replies[..used]) == []
            else Remaining(needed, replies[..used]) != [] && used == |replies|
    ensures used > 0 ==> Remaining(needed, replies[..used - 1]) != []
    ensures NoTwins(old(entry.tokens)) ==> NoTwins(entry.tokens)
  {
    ghost var was := entry.tokens;
    SetOut(was, first, last, mode, needed);
    done, used := false, 0;
    assert replies[..0] == [] && Remaining(needed, []) == needed;
    hide *;
    while true
      invariant entry.Valid() && used <= |replies| && (NoTwins(was) ==> NoTwins(entry.tokens))
      invariant OnTheWay(was, first, last, mode, needed, replies[..used], entry.tokens)
      invariant FlagsOutside(have[..], first, needed) ||
                (FlagsOutside(have[..], first, []) && Remaining(needed, replies[..used]) == needed)
      invariant used > 0 ==> Remaining(needed, replies[..used - 1]) != []
      decreases |replies| - used
    {
      ghost var flags := have[..];
      var runs := ScanAndMark(entry, have, first, last);
      RunsLeft(was, first, last, mode, needed, replies[..used], entry.tokens, runs);
      MarkedFlags(flags, first, runs, have[..], needed);
      if |runs| == 0 {
        done := true;
        break;
      }
      if used == |replies| {
        break;
      }
      ghost var before := entry.tokens;
      assert Separated(before) by { ValidEntry(entry); }
      MissingRunIsFree(before, first, last, runs, 0, mode);
      HandleReply(entry, runs[0], mode, replies[used]);
      Advance(was, first, last, mode, needed, replies, used, before, entry.tokens);
      used := used + 1;
    }
  }

  lemma ValidEntry(entry: Entry)
    requires entry.Valid()
    ensures Separated(entry.tokens)
  {
  }

  /** The token-acquiring part of a read or a write.

      It is done exactly when the replies leave no run missing, and it stops at the first reply after which
      none is.  `have[k]` says whether block `first + k` had a token on entry. */
  method AcquireTokens(entry: Entry, first: nat, last: nat, mode: Mode, replies: seq<Reply>)
      returns (have: array<bool>, done: bool, used: nat)
    requires entry.Valid() && first <= last + 1 && last <= MAX_BLOCK
    modifies entry
    ensures entry.Valid() && fresh(have) && have.Length == last + 1 - first && used <= |replies|
    ensures forall k :: 0 <= k < have.Length ==> (have[k] <==> At(old(entry.tokens), first + k).Some?)
    ensures forall runs :: AreRuns(old(entry.tokens), first, last, runs) ==>
              && (done <==> Remaining(runs, replies) == [])
              && (done ==> Remaining(runs, replies[..used]) == [])
              && (used > 0 ==> Remaining(runs, replies[..used - 1]) != [])
    ensures done ==> FilledAfter(old(entry.tokens), first, last, mode, Nack in replies[..used], entry.tokens)
    ensures forall b: nat :: At(entry.tokens, b) == At(old(entry.tokens), b) ||
              At(entry.tokens, b) == Taken(old(entry.tokens), first, last, mode, Nack in replies[..used], b)
    ensures NoTwins(old(entry.tokens)) ==> NoTwins(entry.tokens)
    ensures done && Nack !in replies[..used] ==>
              forall b: nat :: At(entry.tokens, b) ==
                if first <= b <= last && At(old(entry.tokens), b) == None then Some(mode) else At(old(entry.tokens), b)
  {
    ghost var was := entry.tokens;
    have := new bool[last + 1 - first](_ => true);
    assert FlagsOutside(have[..], first, []);
    ghost var needed := RunsExist(was, first, last + 1);
    hide *;
    done, used := AskUntilHeld(entry, have, first, last, mode, replies, needed);
    Arrived(was, first, last, mode, needed, replies[..used], entry.tokens);
    if done {
      EnoughIsEnough(needed, replies, used);
      FilledBlocks(was, first, last, mode, Nack in replies[..used], entry.tokens);
    }
    assert replies[..|replies|] == replies;
    HaveMeans(was, first, last, needed, have[..]);
  }

  lemma RunsLeft(was: Tokens, first: nat, last: nat, mode: Mode, needed: seq<Interval>, replies: seq<Reply>, t: Tokens,
                 runs: seq<Interval>)
    requires OnTheWay(was, first, last, mode, needed, replies, t) && AreRuns(t, first, last, runs)
    ensures runs == Remaining(needed, replies)
    ensures forall b: nat :: InRuns(runs, b) ==> InRuns(needed, b)
  {
    RunsAreUnique(t, first, last, runs, Remaining(needed, replies));
    hide AreRuns, FilledBut, Remaining;
  }

  lemma HaveMeans(was: Tokens, first: nat, last: nat, needed: seq<Interval>, flags: seq<bool>)
    requires AreRuns(was, first, last, needed) && FlagsOutside(flags, first, needed) && first + |flags| == last + 1
    ensures forall k :: 0 <= k < |flags| ==> (flags[k] <==> At(was, first + k).Some?)
    ensures forall runs :: AreRuns(was, first, last, runs) ==> runs == needed
  {
    forall runs | AreRuns(was, first, last, runs)
      ensures runs == needed
    {
      RunsAreUnique(was, first, last, runs, needed);
    }
  }
}
