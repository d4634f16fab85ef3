/** Block intervals and the interval-keyed maps built from them.

    The client's token table and the metadata manager's writer table are both a `std::map` keyed by
    intervals whose ordering calls two overlapping keys "equal".  Such a map is modelled as a Dafny
    `map<Interval, T>` whose keys are pairwise disjoint. */
module Intervals {

  datatype Option<+T> = None | Some(value: T)

  /** Block numbers are stored as 32-bit unsigned integers. */
  const MAX_BLOCK: nat := 0xFFFF_FFFF

  datatype Interval = Interval(lo: nat, hi: nat) {
    predicate Proper() {
      lo <= hi <= MAX_BLOCK
    }

    predicate Has(b: nat) {
      lo <= b <= hi
    }

    predicate Within(outer: Interval) {
      outer.lo <= lo && hi <= outer.hi
    }
  }

  /** Neither interval lies wholly before the other: key equality in the map, and `is_equal`. */
  predicate Overlaps(x: Interval, y: Interval) {
    !(x.hi < y.lo) && !(y.hi < x.lo)
  }

  /** What is left of `own` when `cut` is taken out of it, branch by branch as the server computes it. */
  function SubtractInterval(own: Interval, cut: Interval): seq<Interval> {
    if !Overlaps(own, cut) then
      [own]
    else if cut.lo <= own.lo && cut.hi >= own.hi then
      []
    else if cut.lo >= own.lo && cut.hi <= own.hi then
      (if own.lo != cut.lo then [Interval(own.lo, cut.lo - 1)] else []) +
      (if own.hi != cut.hi then [Interval(cut.hi + 1, own.hi)] else [])
    else if cut.lo < own.lo && cut.hi >= own.lo && cut.hi < own.hi then
      [Interval(cut.hi + 1, own.hi)]
    else if own.lo < cut.lo && own.hi >= cut.lo && own.hi < cut.hi then
      [Interval(own.lo, cut.lo - 1)]
    else
      []
  }

  /** The five branches leave no case out: the pieces are proper, lie inside `own`, miss each other, and
      cover exactly the blocks of `own` outside `cut`. */
  lemma SubtractIsDifference(own: Interval, cut: Interval)
    requires own.Proper() && cut.Proper()
    ensures forall p :: p in SubtractInterval(own, cut) ==> p.Proper() && p.Within(own) && !Overlaps(p, cut)
    ensures forall p, q :: p in SubtractInterval(own, cut) && q in SubtractInterval(own, cut) && p != q
              ==> !Overlaps(p, q)
    ensures forall b: nat :: own.Has(b) && !cut.Has(b)
              <==> exists p :: p in SubtractInterval(own, cut) && p.Has(b)
  {
    var pieces := SubtractInterval(own, cut);
    forall b: nat
      ensures own.Has(b) && !cut.Has(b) <==> exists p :: p in pieces && p.Has(b)
    {
      if own.Has(b) && !cut.Has(b) {
        if !Overlaps(own, cut) {
          assert pieces[0].Has(b);
        } else if b < cut.lo {
          assert pieces[0].Has(b);
        } else {
          assert pieces[|pieces| - 1].Has(b);
        }
      }
    }
  }

  // ------------------------------------------------------------------ interval-keyed maps

  /** The invariant of an interval-keyed map: proper, pairwise disjoint keys. */
  ghost predicate Separated<T>(m: map<Interval, T>) {
    && (forall k :: k in m ==> k.Proper())
    && (forall j, k :: j in m && k in m && j != k ==> !Overlaps(j, k))
  }

  lemma KeyIsProper<T>(m: map<Interval, T>, k: Interval)
    requires Separated(m) && k in m
    ensures k.Proper()
  {
  }

  /** The value the map gives to a single block. */
  ghost function At<T>(m: map<Interval, T>, b: nat): Option<T> {
    if exists k :: k in m && k.Has(b) then
      var k :| k in m && k.Has(b);
      Some(m[k])
    else
      None
  }

  lemma AtHasKey<T>(m: map<Interval, T>, b: nat) returns (k: Interval)
    requires At(m, b).Some?
    ensures k in m && k.Has(b) && At(m, b) == Some(m[k])
  {
    k :| k in m && k.Has(b) && At(m, b) == Some(m[k]);
  }

  lemma AtKey<T>(m: map<Interval, T>, k: Interval, b: nat)
    requires Separated(m) && k in m && k.Has(b)
    ensures At(m, b) == Some(m[k])
  {
    var j := AtHasKey(m, b);
    assert Overlaps(j, k);
  }

  /** The keys a look-up of `key` treats as equal to it. */
  function OverlapKeys<T>(m: map<Interval, T>, key: Interval): set<Interval> {
    set k | k in m && Overlaps(k, key)
  }

  /** The loops' measure: the overlapping keys become fewer. */
  lemma FewerOverlaps<T>(m: map<Interval, T>, key: Interval, it: Interval, n: map<Interval, T>, key': Interval)
    requires it in m && Overlaps(it, key) && !(it in n && Overlaps(it, key'))
    requires forall k :: k in n && Overlaps(k, key') ==> k in m && Overlaps(k, key)
    ensures OverlapKeys(n, key') < OverlapKeys(m, key)
  {
    assert OverlapKeys(n, key') <= OverlapKeys(m, key);
    assert it in OverlapKeys(m, key) && it !in OverlapKeys(n, key');
  }

  lemma SmallerSet<X>(a: set<X>, b: set<X>)
    requires a <= b
    ensures |a| <= |b| && (a < b ==> |a| < |b|)
  {
    assert b == a + (b - a);
  }

  predicate Leftmost<T>(m: map<Interval, T>, key: Interval, k: Interval) {
    k in m && Overlaps(k, key) && forall j :: j in m && Overlaps(j, key) ==> k.lo <= j.lo
  }

  lemma LeastStart(s: set<Interval>) returns (k: Interval)
    requires s != {}
    ensures k in s && forall j :: j in s ==> k.lo <= j.lo
  {
    k :| k in s;
    var rest := s - {k};
    if rest != {} {
      var r := LeastStart(rest);
      if r.lo < k.lo {
        k := r;
      }
      assert s == rest + {k} || s == rest + {k} + (s - rest);
    }
  }

  lemma SomeLeftmost<T>(m: map<Interval, T>, key: Interval)
    requires exists k :: k in m && Overlaps(k, key)
    ensures exists k :: Leftmost(m, key, k)
  {
    var k :| k in m && Overlaps(k, key);
    assert k in OverlapKeys(m, key);
    var l := LeastStart(OverlapKeys(m, key));
    assert forall j :: j in m && Overlaps(j, key) ==> j in OverlapKeys(m, key);
    assert Leftmost(m, key, l);
  }

  /** `find`: the leftmost entry that overlaps the key, if there is one. */
  function Find<T>(m: map<Interval, T>, key: Interval): (r: Option<Interval>)
    requires Separated(m)
    ensures r.None? <==> forall k :: k in m ==> !Overlaps(k, key)
    ensures r.Some? ==> Leftmost(m, key, r.value)
  {
    if exists k :: k in m && Overlaps(k, key) then
      SomeLeftmost(m, key);
      var l :| l in m && Leftmost(m, key, l);
      Some(l)
    else
      None
  }

  /** `insert`: nothing happens when the new key overlaps one that is there. */
  function Insert<T>(m: map<Interval, T>, k: Interval, v: T): map<Interval, T> {
    if exists j :: j in m && Overlaps(j, k) then m else m[k := v]
  }

  lemma AtErase<T>(m: map<Interval, T>, k: Interval)
    requires Separated(m) && k in m
    ensures Separated(m - {k})
    ensures forall b: nat :: At(m - {k}, b) == if k.Has(b) then None else At(m, b)
  {
    forall b: nat
      ensures At(m - {k}, b) == if k.Has(b) then None else At(m, b)
    {
      if At(m, b).Some? {
        var j := AtHasKey(m, b);
        AtKey(m, j, b);
        if j != k {
          AtKey(m - {k}, j, b);
        }
      }
    }
  }

  lemma AtInsert<T>(m: map<Interval, T>, k: Interval, v: T)
    requires Separated(m) && k.Proper()
    requires forall j :: j in m ==> !Overlaps(j, k)
    ensures Insert(m, k, v) == m[k := v] && Separated(m[k := v])
    ensures forall b: nat :: At(m[k := v], b) == if k.Has(b) then Some(v) else At(m, b)
  {
    var n := m[k := v];
    assert Separated(n);
    forall b: nat
      ensures At(n, b) == if k.Has(b) then Some(v) else At(m, b)
    {
      if k.Has(b) {
        AtKey(n, k, b);
      } else if At(m, b).Some? {
        var j := AtHasKey(m, b);
        AtKey(n, j, b);
      }
    }
  }

  /** One interval starts right after the other ends. */
  predicate Touches(x: Interval, y: Interval) {
    x.hi + 1 == y.lo || y.hi + 1 == x.lo
  }

  /** No two entries that touch have equal values: nothing is left to merge. */
  ghost predicate NoTwins<T>(m: map<Interval, T>) {
    forall j, k :: j in m && k in m && j.hi + 1 == k.lo ==> m[j] != m[k]
  }

  // ------------------------------------------------------------------ carving a range out of a map

  /** `now` is `was` with `cut` subtracted from every entry, values kept. */
  ghost predicate IsCarved<T>(was: map<Interval, T>, cut: Interval, now: map<Interval, T>) {
    && (forall p :: p in now ==>
          exists k :: k in was && p in SubtractInterval(k, cut) && now[p] == was[k])
    && (forall k, p :: k in was && p in SubtractInterval(k, cut) ==> p in now && now[p] == was[k])
  }

  /** The carved map is determined: whatever order the entries are visited in, the result is one map. */
  lemma CarvedIsUnique<T>(was: map<Interval, T>, cut: Interval, one: map<Interval, T>, two: map<Interval, T>)
    requires IsCarved(was, cut, one) && IsCarved(was, cut, two)
    ensures one == two
  {
    hide IsCarved;
    CarvedIsContained(was, cut, one, two);
    CarvedIsContained(was, cut, two, one);
    assert one.Keys == two.Keys;
  }

  lemma CarvedIsContained<T>(was: map<Interval, T>, cut: Interval, one: map<Interval, T>, two: map<Interval, T>)
    requires IsCarved(was, cut, one) && IsCarved(was, cut, two)
    ensures forall p :: p in one ==> p in two && two[p] == one[p]
  {
    hide SubtractInterval;
    forall p | p in one
      ensures p in two && two[p] == one[p]
    {
      var k :| k in was && p in SubtractInterval(k, cut) && one[p] == was[k];
    }
  }

  /** Carving clears exactly the blocks of `cut` and keeps every other block's value. */
  lemma CarvedAt<T>(was: map<Interval, T>, cut: Interval, now: map<Interval, T>)
    requires Separated(was) && cut.Proper() && IsCarved(was, cut, now)
    ensures Separated(now)
    ensures forall k :: k in now ==> !Overlaps(k, cut)
    ensures forall b: nat :: At(now, b) == if cut.Has(b) then None else At(was, b)
  {
    hide SubtractInterval;
    forall p | p in now
      ensures p.Proper() && !Overlaps(p, cut)
    {
      var k :| k in was && p in SubtractInterval(k, cut) && now[p] == was[k];
      SubtractIsDifference(k, cut);
    }
    forall p, q | p in now && q in now && p != q
      ensures !Overlaps(p, q)
    {
      var k :| k in was && p in SubtractInterval(k, cut) && now[p] == was[k];
      var j :| j in was && q in SubtractInterval(j, cut) && now[q] == was[j];
      SubtractIsDifference(k, cut);
      SubtractIsDifference(j, cut);
      if j != k {
        assert !Overlaps(j, k);
      }
    }
    forall b: nat
      ensures At(now, b) == if cut.Has(b) then None else At(was, b)
    {
      if At(now, b).Some? {
        var p := AtHasKey(now, b);
        var k :| k in was && p in SubtractInterval(k, cut) && now[p] == was[k];
        SubtractIsDifference(k, cut);
        AtKey(was, k, b);
      } else if At(was, b).Some? && !cut.Has(b) {
        var k := AtHasKey(was, b);
        SubtractIsDifference(k, cut);
        var p :| p in SubtractInterval(k, cut) && p.Has(b);
        AtKey(now, p, b);
      }
    }
  }

  /** Half-way through: every old entry is either untouched or already replaced by its pieces. */
  ghost predicate PartlyCarved<T>(was: map<Interval, T>, cut: Interval, now: map<Interval, T>) {
    && Separated(now)
    && (forall p :: p in now ==>
          exists k :: k in was && now[p] == was[k] && (p == k || p in SubtractInterval(k, cut)))
    && (forall k :: k in was ==>
          || (k in now && now[k] == was[k])
          || (forall p :: p in SubtractInterval(k, cut) ==> p in now && now[p] == was[k]))
  }

  /** Replace one overlapping entry by its pieces. */
  ghost predicate ReplacedByPieces<T>(m: map<Interval, T>, it: Interval, cut: Interval, n: map<Interval, T>) {
    && it in m
    && (forall p :: p in n <==> (p in m && p != it) || p in SubtractInterval(it, cut))
    && (forall p :: p in n ==> n[p] == if p in m && p != it then m[p] else m[it])
  }

  /** The pieces touch each other's entries only where the old entry did. */
  lemma PiecesKeepNoTwins<T>(m: map<Interval, T>, it: Interval, cut: Interval, n: map<Interval, T>)
    requires Separated(m) && NoTwins(m) && cut.Proper() && ReplacedByPieces(m, it, cut, n)
    ensures NoTwins(n)
  {
    KeyIsProper(m, it);
    SubtractIsDifference(it, cut);
    PiecesAreApart(it, cut);
    hide SubtractInterval;
    forall j, k | j in n && k in n && j.hi + 1 == k.lo
      ensures n[j] != n[k]
    {
      if j in m && j != it {
        assert !Overlaps(j, it);
        assert k in SubtractInterval(it, cut) ==> k.lo == it.lo;
      } else if k in m && k != it {
        assert !Overlaps(k, it);
        assert j.hi == it.hi;
      }
    }
  }

  lemma PiecesAreApart(own: Interval, cut: Interval)
    requires own.Proper() && cut.Proper()
    ensures forall p, q :: p in SubtractInterval(own, cut) && q in SubtractInterval(own, cut) ==> p.hi + 1 != q.lo
  {
  }

  lemma CarveStarts<T>(was: map<Interval, T>, cut: Interval)
    requires Separated(was)
    ensures PartlyCarved(was, cut, was)
  {
  }

  lemma NoPiece<T>(m: map<Interval, T>, it: Interval, cut: Interval)
    requires it in m && it.Proper() && it.Within(cut)
    ensures ReplacedByPieces(m, it, cut, m - {it})
  {
    assert SubtractInterval(it, cut) == [];
  }

  lemma RightPiece<T>(m: map<Interval, T>, it: Interval, cut: Interval)
    requires Separated(m) && it in m && cut.lo <= it.lo <= cut.hi < it.hi
    ensures ReplacedByPieces(m, it, cut, Insert(m - {it}, Interval(cut.hi + 1, it.hi), m[it]))
  {
    var part := Interval(cut.hi + 1, it.hi);
    assert SubtractInterval(it, cut) == [part];
    PartIsFree(m, it, part);
  }

  lemma LeftPiece<T>(m: map<Interval, T>, it: Interval, cut: Interval)
    requires Separated(m) && it in m && it.lo < cut.lo <= it.hi <= cut.hi
    ensures ReplacedByPieces(m, it, cut, Insert(m - {it}, Interval(it.lo, cut.lo - 1), m[it]))
  {
    var part := Interval(it.lo, cut.lo - 1);
    assert SubtractInterval(it, cut) == [part];
    PartIsFree(m, it, part);
  }

  lemma BothPieces<T>(m: map<Interval, T>, it: Interval, cut: Interval)
    requires Separated(m) && it in m && it.lo < cut.lo <= cut.hi < it.hi
    ensures ReplacedByPieces(m, it, cut, Insert(Insert(m - {it}, Interval(it.lo, cut.lo - 1), m[it]),
                                                Interval(cut.hi + 1, it.hi), m[it]))
  {
    var left, right := Interval(it.lo, cut.lo - 1), Interval(cut.hi + 1, it.hi);
    assert SubtractInterval(it, cut) == [left, right];
    PartIsFree(m, it, left);
    PartIsFree(m, it, right);
  }

  /** A part of an erased entry's range is free: the insert that follows is not dropped. */
  lemma PartIsFree<T>(m: map<Interval, T>, it: Interval, part: Interval)
    requires Separated(m) && it in m && part.Proper() && part.Within(it)
    ensures forall k :: k in m - {it} ==> !Overlaps(k, part)
  {
    forall k | k in m - {it}
      ensures !Overlaps(k, part)
    {
      assert !Overlaps(k, it);
    }
  }

  /** Replacing an entry by what is left of it outside `cut` changes no block outside `cut`. */
  lemma PiecesMeaning<T>(m: map<Interval, T>, it: Interval, cut: Interval, n: map<Interval, T>)
    requires Separated(m) && cut.Proper() && ReplacedByPieces(m, it, cut, n)
    ensures Separated(n)
    ensures forall b: nat :: !cut.Has(b) ==> At(n, b) == At(m, b)
    ensures forall b: nat :: cut.Has(b) && !it.Has(b) ==> At(n, b) == At(m, b)
    ensures forall k :: k in n && Overlaps(k, cut) ==> k in m && k != it && n[k] == m[k]
    ensures forall k :: k in m && k != it ==> k in n && n[k] == m[k]
    ensures forall p :: p in SubtractInterval(it, cut) ==> p in n && n[p] == m[it]
  {
    hide SubtractInterval;
    SubtractIsDifference(it, cut);
    forall p | p in SubtractInterval(it, cut)
      ensures p in n && n[p] == m[it]
    {
      assert p in m && p != it ==> !Overlaps(p, it);
    }
    forall p, q | p in n && q in n && p != q
      ensures !Overlaps(p, q)
    {
      assert p !in SubtractInterval(it, cut) ==> !Overlaps(it, p);
      assert q !in SubtractInterval(it, cut) ==> !Overlaps(it, q);
    }
    forall b: nat | !cut.Has(b) || !it.Has(b)
      ensures At(n, b) == At(m, b)
    {
      if it.Has(b) {
        AtKey(m, it, b);
        var p :| p in SubtractInterval(it, cut) && p.Has(b);
        assert p in m && p != it ==> !Overlaps(p, it);
        AtKey(n, p, b);
      } else {
        if At(n, b).Some? {
          var p := AtHasKey(n, b);
          if p in m && p != it {
            AtKey(m, p, b);
          }
        }
        if At(m, b).Some? {
          var k := AtHasKey(m, b);
          AtKey(n, k, b);
        }
      }
    }
  }

  lemma OverlappedIsUntouched<T>(was: map<Interval, T>, cut: Interval, m: map<Interval, T>, it: Interval)
    requires Separated(was) && cut.Proper() && PartlyCarved(was, cut, m) && it in m && Overlaps(it, cut)
    ensures it in was && was[it] == m[it]
    ensures forall k :: k in was && k != it ==> it !in SubtractInterval(k, cut)
  {
    var home :| home in was && m[it] == was[home] && (it == home || it in SubtractInterval(home, cut));
    forall k | k in was
      ensures it !in SubtractInterval(k, cut)
    {
      SubtractIsDifference(k, cut);
    }
  }

  lemma CarveOne<T>(was: map<Interval, T>, cut: Interval, m: map<Interval, T>, it: Interval, n: map<Interval, T>)
    requires Separated(was) && cut.Proper() && PartlyCarved(was, cut, m)
    requires it in m && Overlaps(it, cut) && ReplacedByPieces(m, it, cut, n)
    ensures PartlyCarved(was, cut, n) && Separated(n)
    ensures OverlapKeys(n, cut) < OverlapKeys(m, cut)
    ensures it in was && was[it] == m[it]
  {
    hide SubtractInterval;
    OverlappedIsUntouched(was, cut, m, it);
    PiecesMeaning(m, it, cut, n);
    FewerOverlaps(m, cut, it, n, cut);
    hide Separated, Overlaps;
    forall p | p in n
      ensures exists k :: k in was && n[p] == was[k] && (p == k || p in SubtractInterval(k, cut))
    {
      if p in m && p != it {
        var k :| k in was && m[p] == was[k] && (p == k || p in SubtractInterval(k, cut));
      }
    }
    forall k | k in was
      ensures || (k in n && n[k] == was[k])
              || (forall p :: p in SubtractInterval(k, cut) ==> p in n && n[p] == was[k])
    {
    }
  }

  lemma UncutIsWhole(k: Interval, cut: Interval)
    requires !Overlaps(k, cut)
    ensures SubtractInterval(k, cut) == [k]
  {
  }

  /** Once nothing overlaps `cut` any more, a half-carved map is the carved one. */
  lemma CarveDone<T>(was: map<Interval, T>, cut: Interval, now: map<Interval, T>)
    requires Separated(was) && cut.Proper() && PartlyCarved(was, cut, now)
    requires forall k :: k in now ==> !Overlaps(k, cut)
    ensures IsCarved(was, cut, now)
  {
    hide SubtractInterval, Overlaps, Separated;
    forall k | k in was && k in now {
      UncutIsWhole(k, cut);
    }
    forall p | p in now
      ensures exists k :: k in was && p in SubtractInterval(k, cut) && now[p] == was[k]
    {
      var k :| k in was && now[p] == was[k] && (p == k || p in SubtractInterval(k, cut));
    }
    forall k, p | k in was && p in SubtractInterval(k, cut)
      ensures p in now && now[p] == was[k]
    {
      PieceIsThere(was, cut, now, k, p);
    }
  }

  lemma PieceIsThere<T>(was: map<Interval, T>, cut: Interval, now: map<Interval, T>, k: Interval, p: Interval)
    requires PartlyCarved(was, cut, now) && k in was && p in SubtractInterval(k, cut)
    requires k in now ==> SubtractInterval(k, cut) == [k]
    ensures p in now && now[p] == was[k]
  {
    hide SubtractInterval, Overlaps, Separated;
  }

  // ------------------------------------------------------------------ a range given backwards

  /** An entry that holds both ends of a range given backwards, `start` behind `end`: the only kind that such
      a range "overlaps". */
  predicate Straddles(k: Interval, start: nat, end: nat) {
    k.lo <= end && start <= k.hi
  }

  /** What the removing loop does with such an entry: the part before `start` goes in first, and the part
      behind `end` only if it does not overlap it. */
  function SplitBackwards<T>(m: map<Interval, T>, k: Interval, start: nat, end: nat): map<Interval, T>
    requires k in m && end < start
  {
    Insert(Insert(m - {k}, Interval(k.lo, start - 1), m[k]), Interval(end + 1, k.hi), m[k])
  }

  ghost function CutBackwards<T>(m: map<Interval, T>, start: nat, end: nat): map<Interval, T>
    requires end < start
  {
    if exists k :: k in m && Straddles(k, start, end) then
      var k :| k in m && Straddles(k, start, end);
      SplitBackwards(m, k, start, end)
    else m
  }

  /** The blocks that lose their value when a range is removed backwards: from `start` to the end of the
      entry, unless the two ends are neighbours. */
  ghost predicate LostBackwards<T>(m: map<Interval, T>, start: nat, end: nat, b: nat) {
    end + 1 < start <= b && exists k :: k in m && Straddles(k, start, end) && k.Has(b)
  }

  lemma NothingStraddles<T>(m: map<Interval, T>, start: nat, end: nat)
    requires end < start && forall k :: k in m ==> !Overlaps(k, Interval(start, end))
    ensures CutBackwards(m, start, end) == m
  {
    forall k | k in m
      ensures !Straddles(k, start, end)
    {
      assert !Overlaps(k, Interval(start, end));
    }
  }

  lemma StraddlerIsUnique<T>(m: map<Interval, T>, start: nat, end: nat, j: Interval, k: Interval)
    requires Separated(m) && end < start && j in m && k in m && Straddles(j, start, end) && Straddles(k, start, end)
    ensures j == k
  {
    assert Overlaps(j, k);
  }

  lemma SplitBackwardsAt<T>(m: map<Interval, T>, k: Interval, start: nat, end: nat)
    requires Separated(m) && end < start && k in m && Straddles(k, start, end)
    ensures Separated(SplitBackwards(m, k, start, end))
    ensures CutBackwards(m, start, end) == SplitBackwards(m, k, start, end)
    ensures forall p :: p in SplitBackwards(m, k, start, end) ==> !Straddles(p, start, end)
    ensures forall p :: p in SplitBackwards(m, k, start, end) ==> p in m || p.Within(k)
    ensures forall b: nat :: At(SplitBackwards(m, k, start, end), b) ==
                             if end + 1 < start <= b && k.Has(b) then None else At(m, b)
  {
    var j :| j in m && Straddles(j, start, end) && CutBackwards(m, start, end) == SplitBackwards(m, j, start, end);
    StraddlerIsUnique(m, start, end, j, k);
    var left, right := Interval(k.lo, start - 1), Interval(end + 1, k.hi);
    forall p | p in m && p != k
      ensures !Straddles(p, start, end)
    {
      assert !Overlaps(p, k);
    }
    AtErase(m, k);
    PartIsFree(m, k, left);
    AtInsert(m - {k}, left, m[k]);
    forall b: nat | k.Has(b) {
      AtKey(m, k, b);
    }
    if end + 1 == start {
      PartIsFree(m, k, right);
      assert !Overlaps(left, right);
      AtInsert((m - {k})[left := m[k]], right, m[k]);
    } else {
      assert Overlaps(left, right);
    }
  }

  /** Removing a range backwards: which blocks lose their value, and that a second time changes nothing. */
  lemma CutBackwardsAt<T>(m: map<Interval, T>, start: nat, end: nat)
    requires Separated(m) && end < start
    ensures Separated(CutBackwards(m, start, end))
    ensures forall p :: p in CutBackwards(m, start, end) ==> !Straddles(p, start, end)
    ensures CutBackwards(CutBackwards(m, start, end), start, end) == CutBackwards(m, start, end)
    ensures forall p :: p in CutBackwards(m, start, end) ==> p in m || exists k :: k in m && p.Within(k)
    ensures forall b: nat :: At(CutBackwards(m, start, end), b) ==
                             if LostBackwards(m, start, end, b) then None else At(m, b)
  {
    if k :| k in m && Straddles(k, start, end) {
      SplitBackwardsAt(m, k, start, end);
      forall b: nat | LostBackwards(m, start, end, b)
        ensures k.Has(b)
      {
        var j :| j in m && Straddles(j, start, end) && j.Has(b);
        StraddlerIsUnique(m, start, end, j, k);
      }
      hide SplitBackwards;
    }
  }
}
