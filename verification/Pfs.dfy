/** The library calls: which blocks a byte range covers, and how a read puts its bytes together from the
    block cache and the striped file servers. */
module Pfs {
  import opened Intervals
  import opened Permissions
  import opened OpenFile
  import opened Acquire
  import opened Striping
  import opened ClientCache

  /** Bytes in a block. */
  const BLOCK_BYTES: nat := 1024

  // ------------------------------------------------------------------ bytes and blocks

  function FirstBlock(offset: nat): nat {
    offset / BLOCK_BYTES
  }

  /** Division truncates: an empty range at 0 still ends in block 0. */
  function LastBlock(offset: nat, nbyte: nat): nat {
    if offset + nbyte == 0 then 0 else (offset + nbyte - 1) / BLOCK_BYTES
  }

  ghost predicate WholeBlocks(blocks: seq<string>) {
    forall i :: 0 <= i < |blocks| ==> |blocks[i]| == BLOCK_BYTES
  }

  /** The bytes of consecutive blocks. */
  function Flat(blocks: seq<string>): string {
    if blocks == [] then "" else Flat(blocks[..|blocks| - 1]) + blocks[|blocks| - 1]
  }

  lemma BytePlace(n: nat, p: nat)
    ensures p < n * BLOCK_BYTES <==> p / BLOCK_BYTES < n
    ensures n * BLOCK_BYTES <= p < (n + 1) * BLOCK_BYTES ==>
              p / BLOCK_BYTES == n && p % BLOCK_BYTES == p - n * BLOCK_BYTES
  {
  }

  lemma {:induction false} FlatAt(blocks: seq<string>)
    requires WholeBlocks(blocks)
    ensures |Flat(blocks)| == |blocks| * BLOCK_BYTES
    ensures forall p :: 0 <= p < |Flat(blocks)| ==>
              p / BLOCK_BYTES < |blocks| && Flat(blocks)[p] == blocks[p / BLOCK_BYTES][p % BLOCK_BYTES]
    decreases |blocks|
  {
    if blocks != [] {
      var init, last := blocks[..|blocks| - 1], blocks[|blocks| - 1];
      FlatAt(init);
      assert Flat(blocks) == Flat(init) + last;
      hide Flat;
      forall p | 0 <= p < |Flat(blocks)|
        ensures p / BLOCK_BYTES < |blocks| && Flat(blocks)[p] == blocks[p / BLOCK_BYTES][p % BLOCK_BYTES]
      {
        BytePlace(|init|, p);
      }
    }
  }

  /** Two rows of whole blocks have the same bytes only if they are the same blocks. */
  lemma FlatIsInjective(x: seq<string>, y: seq<string>)
    requires WholeBlocks(x) && WholeBlocks(y) && Flat(x) == Flat(y)
    ensures x == y
  {
    FlatAt(x);
    FlatAt(y);
    forall i | 0 <= i < |x|
      ensures x[i] == y[i]
    {
      forall j | 0 <= j < BLOCK_BYTES
        ensures x[i][j] == y[i][j]
      {
        var p := i * BLOCK_BYTES + j;
        assert p / BLOCK_BYTES == i && p % BLOCK_BYTES == j;
        assert Flat(x)[p] == x[p / BLOCK_BYTES][p % BLOCK_BYTES] && Flat(y)[p] == y[p / BLOCK_BYTES][p % BLOCK_BYTES];
      }
    }
  }

  /** `substr`. */
  function Substr(s: string, pos: nat, n: nat): string
    requires pos <= |s|
  {
    s[pos..if pos + n <= |s| then pos + n else |s|]
  }

  /** A row of blocks cut out of a file is a stretch of the file's bytes. */
  lemma FlatOfPart(file: seq<string>, first: nat, end: nat)
    requires WholeBlocks(file) && first <= end <= |file|
    ensures |Flat(file)| == |file| * BLOCK_BYTES
    ensures Flat(file[first..end]) == Flat(file)[first * BLOCK_BYTES..end * BLOCK_BYTES]
  {
    FlatAt(file);
    FlatAt(file[first..end]);
    hide *;
    forall q: nat | q < (end - first) * BLOCK_BYTES
      ensures Flat(file[first..end])[q] == Flat(file)[first * BLOCK_BYTES + q]
    {
      ByteOfFlatPart(file, first, end, q);
    }
  }

  lemma ByteOfFlatPart(file: seq<string>, first: nat, end: nat, q: nat)
    requires WholeBlocks(file) && first <= end <= |file| && q < (end - first) * BLOCK_BYTES
    ensures q < |Flat(file[first..end])| && first * BLOCK_BYTES + q < |Flat(file)|
    ensures Flat(file[first..end])[q] == Flat(file)[first * BLOCK_BYTES + q]
  {
    FlatAt(file);
    FlatAt(file[first..end]);
    hide Flat;
    ByteOfPart(first, q);
    BytePlace(end - first, q);
  }

  lemma ByteOfPart(first: nat, q: nat)
    ensures (first * BLOCK_BYTES + q) / BLOCK_BYTES == first + q / BLOCK_BYTES
    ensures (first * BLOCK_BYTES + q) % BLOCK_BYTES == q % BLOCK_BYTES
  {
  }

  lemma RangeFits(offset: nat, nbyte: nat)
    ensures FirstBlock(offset) <= LastBlock(offset, nbyte) + 1
    ensures offset == FirstBlock(offset) * BLOCK_BYTES + offset % BLOCK_BYTES
    ensures offset + nbyte <= (LastBlock(offset, nbyte) + 1) * BLOCK_BYTES
  {
  }

  /** The blocks asked for are those that hold a byte of the range; an empty range asks for the block it lies in,
      and for none where it lies between two blocks. */
  lemma BlocksOfRange(offset: nat, nbyte: nat, b: nat)
    ensures nbyte > 0 ==>
              (FirstBlock(offset) <= b <= LastBlock(offset, nbyte) <==>
               b * 1024 < offset + nbyte && offset < (b + 1) * 1024)
    ensures nbyte == 0 ==>
              (FirstBlock(offset) <= b <= LastBlock(offset, nbyte) <==>
               b == offset / 1024 && (offset == 0 || offset % 1024 != 0))
  {
    assert offset == FirstBlock(offset) * 1024 + offset % 1024;
    if offset + nbyte > 0 {
      var end := offset + nbyte - 1;
      assert end == LastBlock(offset, nbyte) * 1024 + end % 1024;
    }
  }

  /** Cutting `off_first` bytes off the blocks that a range covers gives the range. */
  lemma RangeOfBlocks(file: seq<string>, offset: nat, nbyte: nat)
    requires WholeBlocks(file) && LastBlock(offset, nbyte) < |file|
    ensures FirstBlock(offset) <= LastBlock(offset, nbyte) + 1
    ensures var part := Flat(file[FirstBlock(offset)..LastBlock(offset, nbyte) + 1]);
            && offset + nbyte <= |Flat(file)| && offset % BLOCK_BYTES <= |part|
            && Substr(part, offset % BLOCK_BYTES, nbyte) == Flat(file)[offset..offset + nbyte]
  {
    RangeFits(offset, nbyte);
    var first, end := FirstBlock(offset), LastBlock(offset, nbyte) + 1;
    hide Flat, FirstBlock, LastBlock;
    FlatOfPart(file, first, end);
    CutTwice(Flat(file), first * BLOCK_BYTES, end * BLOCK_BYTES, offset, offset + nbyte);
  }

  lemma CutTwice(s: string, lo: nat, hi: nat, from: nat, to: nat)
    requires lo <= from <= to <= hi <= |s|
    ensures s[lo..hi][from - lo..to - lo] == s[from..to]
  {
    forall k | 0 <= k < to - from
      ensures s[lo..hi][from - lo..to - lo][k] == s[from..to][k]
    {
    }
  }

  predicate InRange(p: nat, offset: nat, nbyte: nat) {
    offset <= p < offset + nbyte
  }

  /** Byte `p` is in the part `start..end` of block `i`. */
  predicate InPart(p: nat, i: nat, start: int, end: int) {
    i * BLOCK_BYTES + start <= p <= i * BLOCK_BYTES + end
  }

  /** `find_buf_offset`: the part of block `i` that a byte range uses.  The parts of all the blocks tile the
      range: byte `p` is in the range and in block `i` just when it is in the part. */
  method FindBufOffset(i: nat, offset: nat, nbyte: nat, blockOffset: nat, endBlockOffset: nat)
      returns (bufStart: int, bufEnd: int)
    requires blockOffset == FirstBlock(offset) && endBlockOffset == LastBlock(offset, nbyte)
    requires blockOffset <= i <= endBlockOffset
    ensures -1 <= bufEnd < BLOCK_BYTES && 0 <= bufStart < BLOCK_BYTES
    ensures forall p: nat :: InPart(p, i, bufStart, bufEnd) <==> InRange(p, offset, nbyte) && p / BLOCK_BYTES == i
  {
    if i == endBlockOffset {
      bufEnd := if offset + nbyte == 0 then -1 else (offset + nbyte - 1) % BLOCK_BYTES;
    } else {
      bufEnd := BLOCK_BYTES - 1;
    }
    if i == blockOffset {
      bufStart := offset % BLOCK_BYTES;
    } else {
      bufStart := 0;
    }
    assert offset == blockOffset * BLOCK_BYTES + offset % BLOCK_BYTES;
    assert offset + nbyte > 0 ==>
      offset + nbyte - 1 == endBlockOffset * BLOCK_BYTES + (offset + nbyte - 1) % BLOCK_BYTES;
  }

  /** A write takes byte `j` of block `i` from `i - block_offset + j` in the caller's buffer.  That is the byte
      meant only in the first block of an aligned range, or in the second block of one that starts at the
      last byte of a block. */
  lemma WriteIndexIsRightIff(offset: nat, i: nat, j: nat)
    requires FirstBlock(offset) <= i && j < BLOCK_BYTES
    ensures i - FirstBlock(offset) + j == i * BLOCK_BYTES + j - offset <==>
            || (i == FirstBlock(offset) && offset % BLOCK_BYTES == 0)
            || (i == FirstBlock(offset) + 1 && offset % BLOCK_BYTES == BLOCK_BYTES - 1)
  {
    var first, skip := FirstBlock(offset), offset % BLOCK_BYTES;
    assert offset == first * BLOCK_BYTES + skip;
  }

  /** A write of two blocks from offset 0: block 1 starts with byte 1 of the buffer instead of byte 1024. */
  lemma WrongWriteIndex()
    ensures FirstBlock(0) == 0 && LastBlock(0, 2048) == 1
    ensures 1 - FirstBlock(0) + 0 == 1 && 1 * BLOCK_BYTES + 0 - 0 == 1024
  {
  }

  // ------------------------------------------------------------------ the servers' side

  /** A file of whole blocks, striped: each server's blocks in the order of their offsets. */
  function Striped(file: seq<string>, width: nat): seq<seq<string>>
    requires width > 0
  {
    seq(width, s requires 0 <= s < width =>
      seq(CountOn(|file|, s, width), w requires 0 <= w < CountOn(|file|, s, width) =>
        BlockOf(file, s, w, width)))
  }

  function BlockOf(file: seq<string>, server: nat, within: nat, width: nat): string
    requires width > 0 && server < width && within < CountOn(|file|, server, width)
  {
    PrefixHasNoGaps(|file|, server, within, width);
    file[BlockAt(server, within, width)]
  }

  /** Asking the block's server for the block's offset gives the block. */
  lemma StripedReadIsFlatRead(file: seq<string>, width: nat, b: nat)
    requires width > 0 && b < |file|
    ensures ServerOf(b, width) < width && OffsetWithin(b, width) < |Striped(file, width)[ServerOf(b, width)]|
    ensures Striped(file, width)[ServerOf(b, width)][OffsetWithin(b, width)] == file[b]
  {
    StripingIsBijective(width);
    PrefixHasNoGaps(|file|, ServerOf(b, width), OffsetWithin(b, width), width);
  }

  // ------------------------------------------------------------------ the cache's keys

  /** Block numbers kept in a cache key; the rest of the key is the file's hash. */
  const KEY_SPAN: nat := 0x40_0000

  /** The key of a block, apart from the file's part. */
  function KeyOf(b: nat): LBA {
    b % KEY_SPAN
  }

  /** Two blocks of a file share a key exactly when their numbers differ by a multiple of 4194304. */
  lemma SharedKeys(b: nat, c: nat)
    ensures KeyOf(b) == KeyOf(c) <==> (b - c) % 4194304 == 0
  {
    assert b == (b / 4194304) * 4194304 + b % 4194304;
    assert c == (c / 4194304) * 4194304 + c % 4194304;
  }

  /** What a read does to the cached data, block by block from `first`: a block with a token and a copy is
      taken from the cache; any other is fetched and inserted under the key of its offset on the server. */
  predicate IsHit(cached: map<LBA, string>, have: seq<bool>, first: nat, n: nat)
    requires n < |have|
  {
    have[n] && KeyOf(first + n) in cached
  }

  function CachedAfter(cached: map<LBA, string>, have: seq<bool>, file: seq<string>, width: nat, first: nat, n: nat):
      (after: map<LBA, string>)
    requires width > 0 && n <= |have| && first + |have| <= |file|
    ensures forall k :: k in cached ==> k in after && after[k] == cached[k]
  {
    if n == 0 then cached
    else
      var before := CachedAfter(cached, have, file, width, first, n - 1);
      var key := KeyOf(OffsetWithin(first + n - 1, width));
      if IsHit(before, have, first, n - 1) || key in before then before else before[key := file[first + n - 1]]
  }

  /** Blocks fetched, each of which takes a block from the free list. */
  function Fetches(cached: map<LBA, string>, have: seq<bool>, first: nat, n: nat): nat
    requires n <= |have|
  {
    if n == 0 then 0 else Fetches(cached, have, first, n - 1) + if IsHit(cached, have, first, n - 1) then 0 else 1
  }

  /** The block the read delivers in place `n`. */
  function Seen(cached: map<LBA, string>, have: seq<bool>, file: seq<string>, first: nat, n: nat): string
    requires n < |have| && first + |have| <= |file|
  {
    if IsHit(cached, have, first, n) then cached[KeyOf(first + n)] else file[first + n]
  }

  function AllSeen(cached: map<LBA, string>, have: seq<bool>, file: seq<string>, first: nat): (s: seq<string>)
    requires first + |have| <= |file|
    ensures |s| == |have|
  {
    seq(|have|, n requires 0 <= n < |have| => Seen(cached, have, file, first, n))
  }

  /** Every copy that the read will take from the cache is the file's block. */
  ghost predicate HitsAreCurrent(cached: map<LBA, string>, have: seq<bool>, file: seq<string>, first: nat)
    requires first + |have| <= |file|
  {
    forall n :: 0 <= n < |have| && IsHit(cached, have, first, n) ==> cached[KeyOf(first + n)] == file[first + n]
  }

  /** The read delivers the file's blocks exactly when its hits are current. */
  lemma SeenIsFlatIff(cached: map<LBA, string>, have: seq<bool>, file: seq<string>, first: nat)
    requires WholeBlocks(file) && first + |have| <= |file|
    requires forall k :: k in cached ==> |cached[k]| == BLOCK_BYTES
    ensures Flat(AllSeen(cached, have, file, first)) == Flat(file[first..first + |have|]) <==>
            HitsAreCurrent(cached, have, file, first)
  {
    var seen, meant := AllSeen(cached, have, file, first), file[first..first + |have|];
    if Flat(seen) == Flat(meant) {
      FlatIsInjective(seen, meant);
      forall n | 0 <= n < |have| && IsHit(cached, have, first, n)
        ensures cached[KeyOf(first + n)] == file[first + n]
      {
        assert seen[n] == meant[n];
      }
    }
    if HitsAreCurrent(cached, have, file, first) {
      assert seen == meant;
    }
  }

  lemma KeysDiffer(x: nat, b: nat)
    requires x < b < KEY_SPAN
    ensures KeyOf(x) != KeyOf(b) && KeyOf(b) == b
  {
  }

  /** Inside one read, what has been inserted never turns a later block into a hit: the keys inserted are
      behind the block that the loop has reached. */
  lemma {:induction false} HitsAreOldHits(cached: map<LBA, string>, have: seq<bool>, file: seq<string>, width: nat,
                                          first: nat, n: nat, b: nat)
    requires width > 0 && n <= |have| && first + |have| <= |file| && first + n <= b < KEY_SPAN
    ensures KeyOf(b) in CachedAfter(cached, have, file, width, first, n) <==> KeyOf(b) in cached
  {
    if n > 0 {
      HitsAreOldHits(cached, have, file, width, first, n - 1, b);
      OffsetIsBlockIff(first + n - 1, width);
      KeysDiffer(OffsetWithin(first + n - 1, width), b);
      hide KeyOf, OffsetWithin, IsHit;
    }
  }

  lemma {:induction false} FetchesGrow(cached: map<LBA, string>, have: seq<bool>, first: nat, m: nat, n: nat)
    requires m <= n <= |have|
    ensures Fetches(cached, have, first, m) <= Fetches(cached, have, first, n)
  {
    if m < n {
      FetchesGrow(cached, have, first, m, n - 1);
    }
  }

  // ------------------------------------------------------------------ a read

  function DataOf(used: Used): map<LBA, string> {
    map k | k in used :: used[k].data
  }

  /** Each server's address leads to its part of the file. */
  ghost predicate Serve(servers: map<Server, seq<string>>, file: seq<string>, width: nat)
    requires width > 0
  {
    forall s :: 0 <= s < width ==>
      && AddressOf(s).Some? && AddressOf(s).value in servers
      && servers[AddressOf(s).value] == Striped(file, width)[s]
  }

  /** `readFromFileServer`, for a server that answers with the whole block.  Asked for the place of block `i`
      it delivers block `i`, but the block it returns calls itself by the offset: under the key of block `i`
      only in the first strip or with a single server. */
  method ReadFromFileServer(servers: map<Server, seq<string>>, server: Server, within: nat,
                            ghost file: seq<string>, ghost width: nat, ghost i: nat) returns (b: Block)
    requires width > 0 && Serve(servers, file, width) && i < |file|
    requires (Some(server), within) == CorrespondingServer(i, width)
    ensures b.data == file[i] && b.status == Clean && b.blockAdr == KeyOf(OffsetWithin(i, width))
    ensures i < KEY_SPAN ==> (b.blockAdr == KeyOf(i) <==> width == 1 || i < STRIP_SIZE)
  {
    ServedBlock(servers, server, within, file, width, i);
    KeyOfFetched(i, width);
    hide *;
    b := Block(KeyOf(within), servers[server][within], Clean, 0);
  }

  lemma ServedBlock(servers: map<Server, seq<string>>, server: Server, within: nat, file: seq<string>, width: nat,
                    i: nat)
    requires width > 0 && Serve(servers, file, width) && i < |file|
    requires (Some(server), within) == CorrespondingServer(i, width)
    ensures within == OffsetWithin(i, width)
    ensures server in servers && within < |servers[server]| && servers[server][within] == file[i]
  {
    StripedReadIsFlatRead(file, width, i);
    hide OffsetWithin, ServerOf, Striped;
    assert AddressOf(ServerOf(i, width)) == Some(server);
  }

  lemma KeyOfFetched(i: nat, width: nat)
    requires width > 0
    ensures i < KEY_SPAN ==> (KeyOf(OffsetWithin(i, width)) == KeyOf(i) <==> width == 1 || i < STRIP_SIZE)
  {
    OffsetIsBlockIff(i, width);
    hide OffsetWithin;
  }

  /** `lookupBlockInCache`, then `getBlockFromCache`. */
  method CopyFromCache(cache: Cache, i: nat) returns (hit: bool, data: string)
    modifies cache
    ensures hit <==> KeyOf(i) in DataOf(old(cache.used))
    ensures hit ==> data == DataOf(old(cache.used))[KeyOf(i)]
    ensures hit ==> OnlyStamps(old(cache.View()), KeyOf(i), cache.View())
    ensures hit && InOrder(old(cache.View())) ==>
              KeyOf(i) in cache.used && forall k :: k in cache.used && k != KeyOf(i) ==>
                cache.used[k].accessTime < cache.used[KeyOf(i)].accessTime
    ensures !hit ==> cache.View() == old(cache.View())
    ensures DataOf(cache.used) == DataOf(old(cache.used)) && cache.free == old(cache.free)
  {
    ghost var was := cache.View();
    hit, data := KeyOf(i) in cache.used, "";
    if hit {
      if InOrder(was) {
        TouchOnlyStamps(was, KeyOf(i));
        StampedIsNewest(was, KeyOf(i), Touched(was, KeyOf(i)));
      }
      hide InOrder;
      var bt := cache.GetBlock(KeyOf(i));
      data := bt.value.data;
    }
  }

  /** Block `i` from its server, and into the cache if a block is free there. */
  method FetchBlock(cache: Cache, servers: map<Server, seq<string>>, width: nat, i: nat, ghost file: seq<string>)
      returns (ok: bool, data: string)
    requires width > 0 && Serve(servers, file, width) && i < |file|
    modifies cache
    ensures ok <==> old(cache.free) > 0
    ensures data == file[i]
    ensures ok ==> cache.free == old(cache.free) - 1
    ensures ok ==> var key := KeyOf(OffsetWithin(i, width));
                   var before := DataOf(old(cache.used));
                   DataOf(cache.used) == if key in before then before else before[key := file[i]]
    ensures ok ==> OnlyStores(old(cache.View()), Block(KeyOf(OffsetWithin(i, width)), file[i], Clean, 0), cache.View())
    ensures !ok ==> cache.View() == old(cache.View())
  {
    StripingIsBijective(width);
    assert AddressOf(ServerOf(i, width)).Some?;
    var (server, within) := CorrespondingServer(i, width);
    hide Serve, OffsetWithin, ServerOf, KeyOf;
    var bt := ReadFromFileServer(servers, server.value, within, file, width, i);
    data := bt.data;
    ok := cache.InsertSingleBlock(bt);
  }

  /** One turn of the loop: the block from the cache, if it had a token on entry and is there, or fetched. */
  method ReadBlock(cache: Cache, have: bool, servers: map<Server, seq<string>>, width: nat, i: nat,
                   ghost file: seq<string>)
      returns (ok: bool, data: string)
    requires width > 0 && Serve(servers, file, width) && i < |file|
    modifies cache
    ensures var before, key := DataOf(old(cache.used)), KeyOf(OffsetWithin(i, width));
            var hit := have && KeyOf(i) in before;
            && (ok <==> hit || old(cache.free) > 0)
            && (ok ==> cache.free == old(cache.free) - if hit then 0 else 1)
            && data == (if hit then before[KeyOf(i)] else file[i])
            && (ok ==> DataOf(cache.used) == if hit || key in before then before else before[key := file[i]])
    ensures var was, now, key := old(cache.View()), cache.View(), KeyOf(OffsetWithin(i, width));
            if have && KeyOf(i) in DataOf(old(cache.used)) then OnlyStamps(was, KeyOf(i), now)
            else if ok then OnlyStores(was, Block(key, file[i], Clean, 0), now)
            else now == was
  {
    hide *;
    var hit := false;
    if have {
      hit, data := CopyFromCache(cache, i);
    }
    if !have || !hit {
      ok, data := FetchBlock(cache, servers, width, i, file);
    } else {
      ok := true;
    }
  }

  /** Every block of the cache, and the order of access, once a read has come through its first `n` blocks: a
      block that was there and is read under a token has the next access time in the order of reading; every other
      block that was there is as it was; what is new is clean and was inserted during the read. */
  ghost predicate Stamped(s0: State, have: seq<bool>, first: nat, n: nat, s: State)
    requires n <= |have|
  {
    && s.lastAccess == s0.lastAccess + n
    && (forall k :: k in s0.used ==> k in s.used && s.used[k] == ReadInTurn(s0, have, first, n, k))
    && (forall k :: k in s.used && k !in s0.used ==>
          s.used[k].status == Clean && s.used[k].blockAdr == k && s0.lastAccess <= s.used[k].accessTime < s.lastAccess)
    && (InOrder(s0) ==> InOrder(s))
  }

  /** The block under key `k` once it had its turn in the read, if it has one among the first `n`. */
  ghost function ReadInTurn(s0: State, have: seq<bool>, first: nat, n: nat, k: LBA): Block
    requires n <= |have| && k in s0.used
  {
    if first <= k < first + n && have[k - first] then s0.used[k].(accessTime := s0.lastAccess + (k - first))
    else s0.used[k]
  }

  lemma NextTurn(s0: State, have: seq<bool>, first: nat, n: nat, k: LBA)
    requires n < |have| && k in s0.used
    ensures ReadInTurn(s0, have, first, n + 1, k) ==
            if have[n] && k == first + n then s0.used[k].(accessTime := s0.lastAccess + n)
            else ReadInTurn(s0, have, first, n, k)
    ensures k == first + n ==> ReadInTurn(s0, have, first, n, k) == s0.used[k]
  {
  }

  lemma StampedHit(s0: State, have: seq<bool>, first: nat, n: nat, s: State, s': State)
    requires n < |have| && first + |have| <= KEY_SPAN && Stamped(s0, have, first, n, s)
    requires have[n] && first + n in s0.used && OnlyStamps(s, first + n, s')
    ensures Stamped(s0, have, first, n + 1, s')
  {
    hide InOrder, ReadInTurn, OnlyStamps;
    StampedBlock(s, first + n, s');
    NextTurn(s0, have, first, n, first + n);
    forall k | k in s0.used
      ensures k in s'.used && s'.used[k] == ReadInTurn(s0, have, first, n + 1, k)
    {
      NextTurn(s0, have, first, n, k);
    }
  }

  lemma StampedBlock(s: State, a: LBA, s': State)
    requires a in s.used && OnlyStamps(s, a, s')
    ensures s'.used == s.used[a := s.used[a].(accessTime := s.lastAccess)] && s'.lastAccess == s.lastAccess + 1
    ensures InOrder(s) ==> InOrder(s')
  {
    if InOrder(s) {
      StampedIsNewest(s, a, s');
    }
    hide InOrder;
  }

  lemma StampedFetch(s0: State, have: seq<bool>, first: nat, n: nat, s: State, b: Block, s': State)
    requires n < |have| && first + |have| <= KEY_SPAN && Stamped(s0, have, first, n, s)
    requires !(have[n] && first + n in s0.used) && b.status == Clean && OnlyStores(s, b, s')
    ensures Stamped(s0, have, first, n + 1, s')
  {
    if InOrder(s0) {
      StoredKeepsOrder(s, b, s');
    }
    hide InOrder, ReadInTurn;
    forall k | k in s0.used
      ensures k in s'.used && s'.used[k] == ReadInTurn(s0, have, first, n + 1, k)
    {
      NextTurn(s0, have, first, n, k);
    }
  }

  lemma OlderGoesFirst(s: State, s': State, k: nat, c: nat)
    requires Harvested(s, s') && k in s.used && k !in s'.used && c in s.used && s.used[c].status == Clean
    requires s.used[c].accessTime < s.used[k].accessTime
    ensures c !in s'.used
  {
    HarvestTakesTheOldest(s, s');
    hide Harvested;
  }

  lemma TurnTimes(s0: State, have: seq<bool>, first: nat, k: nat, c: nat)
    requires InOrder(s0) && k in s0.used && c in s0.used
    requires first <= k < first + |have| && have[k - first] && !(first <= c < first + |have| && have[c - first])
    ensures ReadInTurn(s0, have, first, |have|, c) == s0.used[c]
    ensures s0.used[c].accessTime < s0.lastAccess <= ReadInTurn(s0, have, first, |have|, k).accessTime
  {
  }

  /** The harvester after a read: it takes a block that the read delivered from the cache only once it has taken
      every clean block that the read left alone. */
  lemma ReadBlocksGoLast(s0: State, have: seq<bool>, first: nat, s: State, s': State, k: nat, c: nat)
    requires InOrder(s0) && Stamped(s0, have, first, |have|, s) && Harvested(s, s')
    requires first <= k < first + |have| && have[k - first] && k in s0.used && k !in s'.used
    requires c in s0.used && s0.used[c].status == Clean && !(first <= c < first + |have| && have[c - first])
    ensures c !in s'.used
  {
    TurnTimes(s0, have, first, k, c);
    hide ReadInTurn, InOrder, Harvested;
    OlderGoesFirst(s, s', k, c);
  }

  /** How far the gathering loop is after `n` blocks: the bytes so far, the data now cached, the free blocks
      used up. */
  ghost predicate Gathered(cached: map<LBA, string>, have: seq<bool>, file: seq<string>, width: nat, first: nat, n: nat,
                           response: string, now: map<LBA, string>, spent: nat)
    requires width > 0 && n <= |have| && first + |have| <= |file|
  {
    && response == Flat(AllSeen(cached, have, file, first)[..n])
    && now == CachedAfter(cached, have, file, width, first, n)
    && spent == Fetches(cached, have, first, n)
  }

  lemma GatherStarts(cached: map<LBA, string>, have: seq<bool>, file: seq<string>, width: nat, first: nat)
    requires width > 0 && first + |have| <= |file|
    ensures Gathered(cached, have, file, width, first, 0, "", cached, 0)
  {
  }

  lemma GatheredAll(cached: map<LBA, string>, have: seq<bool>, file: seq<string>, width: nat, first: nat,
                    response: string, now: map<LBA, string>, spent: nat)
    requires width > 0 && first + |have| <= |file|
    requires Gathered(cached, have, file, width, first, |have|, response, now, spent)
    ensures response == Flat(AllSeen(cached, have, file, first))
    ensures now == CachedAfter(cached, have, file, width, first, |have|)
    ensures spent == Fetches(cached, have, first, |have|)
  {
    var seen := AllSeen(cached, have, file, first);
    assert seen[..|have|] == seen;
  }

  lemma GatherOne(cached: map<LBA, string>, have: seq<bool>, file: seq<string>, width: nat, first: nat, n: nat,
                  response: string, now: map<LBA, string>, spent: nat)
    requires width > 0 && n < |have| && first + |have| <= |file| && first + |have| <= KEY_SPAN
    requires Gathered(cached, have, file, width, first, n, response, now, spent)
    ensures var key := KeyOf(OffsetWithin(first + n, width));
            var hit := have[n] && KeyOf(first + n) in now;
            && Gathered(cached, have, file, width, first, n + 1,
                        response + (if hit then now[KeyOf(first + n)] else file[first + n]),
                        if hit || key in now then now else now[key := file[first + n]],
                        spent + if hit then 0 else 1)
            && spent + (if hit then 0 else 1) <= Fetches(cached, have, first, |have|)
            && (KeyOf(first + n) in now <==> first + n in cached) && KeyOf(first + n) == first + n
  {
    assert KeyOf(first + n) == first + n;
    HitsAreOldHits(cached, have, file, width, first, n, first + n);
    FetchesGrow(cached, have, first, n + 1, |have|);
    SeenOneMore(cached, have, file, first, n);
    var key := KeyOf(OffsetWithin(first + n, width));
    var hit := have[n] && KeyOf(first + n) in now;
    assert hit <==> IsHit(cached, have, first, n);
    assert hit ==> now[KeyOf(first + n)] == cached[KeyOf(first + n)];
    assert CachedAfter(cached, have, file, width, first, n + 1) ==
      if hit || key in now then now else now[key := file[first + n]];
    assert Fetches(cached, have, first, n + 1) == spent + if hit then 0 else 1;
    hide KeyOf, OffsetWithin, AllSeen, Flat, IsHit, CachedAfter, Fetches;
  }

  lemma SeenOneMore(cached: map<LBA, string>, have: seq<bool>, file: seq<string>, first: nat, n: nat)
    requires n < |have| && first + |have| <= |file|
    ensures var seen := AllSeen(cached, have, file, first);
            Flat(seen[..n + 1]) == Flat(seen[..n]) + Seen(cached, have, file, first, n)
  {
    var seen := AllSeen(cached, have, file, first);
    assert seen[..n + 1][..n] == seen[..n] && seen[..n + 1][n] == seen[n];
  }

  /** The loop that gathers the blocks of a read. */
  method GatherBlocks(cache: Cache, have: array<bool>, servers: map<Server, seq<string>>, width: nat,
                      first: nat, last: nat, ghost file: seq<string>)
      returns (ok: bool, response: string, ghost turns: nat)
    requires width > 0 && Serve(servers, file, width)
    requires first + have.Length == last + 1 <= |file| && last < KEY_SPAN
    modifies cache
    ensures if ok then turns == have.Length else turns < have.Length && cache.free == 0
    ensures Stamped(old(cache.View()), have[..], first, turns, cache.View())
    ensures ok <==> Fetches(DataOf(old(cache.used)), have[..], first, have.Length) <= old(cache.free)
    ensures ok ==> cache.free <= old(cache.free) &&
                   Gathered(DataOf(old(cache.used)), have[..], file, width, first, have.Length,
                            response, DataOf(cache.used), old(cache.free) - cache.free)
  {
    ghost var cached, flags, room, was := DataOf(cache.used), have[..], cache.free, cache.View();
    response, ok, turns := "", true, 0;
    assert Stamped(was, flags, first, 0, was);
    GatherStarts(cached, flags, file, width, first);
    hide *;
    for i := first to last + 1
      invariant ok && cache.free <= room && turns == i - first
      invariant Stamped(was, flags, first, turns, cache.View())
      invariant Gathered(cached, flags, file, width, first, i - first, response, DataOf(cache.used), room - cache.free)
    {
      var data;
      ok, data := GatherNext(cache, have, servers, width, first, i, file, cached, room, response, was);
      response := response + data;
      if !ok {
        return;
      }
      turns := turns + 1;
    }
    GatheredAll(cached, flags, file, width, first, response, DataOf(cache.used), room - cache.free);
  }

  /** One turn of the loop, told by how far it has come. */
  method GatherNext(cache: Cache, have: array<bool>, servers: map<Server, seq<string>>, width: nat, first: nat, i: nat,
                    ghost file: seq<string>, ghost cached: map<LBA, string>, ghost room: nat, ghost response: string,
                    ghost was: State)
      returns (ok: bool, data: string)
    requires width > 0 && Serve(servers, file, width)
    requires first + have.Length <= |file| && first + have.Length <= KEY_SPAN && first <= i < first + have.Length
    requires cache.free <= room
    requires Gathered(cached, have[..], file, width, first, i - first, response, DataOf(cache.used), room - cache.free)
    requires cached == DataOf(was.used) && Stamped(was, have[..], first, i - first, cache.View())
    modifies cache
    ensures if ok then Stamped(was, have[..], first, i - first + 1, cache.View())
            else cache.View() == old(cache.View()) && cache.free == 0
    ensures ok ==> cache.free <= room
    ensures ok ==> Gathered(cached, have[..], file, width, first, i - first + 1, response + data,
                            DataOf(cache.used), room - cache.free)
    ensures !ok ==> Fetches(cached, have[..], first, have.Length) > room
  {
    hide Gathered, Stamped, Serve, Fetches, OffsetWithin, KeyOf, OnlyStamps, OnlyStores, InOrder;
    GatherOne(cached, have[..], file, width, first, i - first, response, DataOf(cache.used), room - cache.free);
    ghost var before, key := cache.View(), KeyOf(OffsetWithin(i, width));
    ghost var hit := have[i - first] && i in was.used;
    ok, data := ReadBlock(cache, have[i - first], servers, width, i, file);
    if hit {
      StampedHit(was, have[..], first, i - first, before, cache.View());
    } else if ok {
      StampedFetch(was, have[..], first, i - first, before, Block(key, file[i], Clean, 0), cache.View());
    }
  }

  lemma StampedInOrder(s0: State, have: seq<bool>, first: nat, n: nat, s: State)
    requires n <= |have| && Stamped(s0, have, first, n, s)
    ensures InOrder(s0) ==> InOrder(s)
  {
  }

  // ------------------------------------------------------------------ a whole read

  /** The bytes; or still waiting for tokens; or the error of a cache with no free block. */
  datatype ReadOutcome = Bytes(bytes: string) | WaitingForTokens | NoFreeBlock

  ghost function HeldOnEntry(t: Tokens, first: nat, last: nat): seq<bool>
    requires first <= last + 1
  {
    seq(last + 1 - first, k requires 0 <= k < last + 1 - first => At(t, first + k).Some?)
  }

  ghost predicate WholeData(cached: map<LBA, string>) {
    forall k :: k in cached ==> |cached[k]| == BLOCK_BYTES
  }

  lemma SeenFillsRange(cached: map<LBA, string>, have: seq<bool>, file: seq<string>, offset: nat, nbyte: nat)
    requires WholeBlocks(file) && WholeData(cached) && LastBlock(offset, nbyte) < |file|
    requires FirstBlock(offset) + |have| == LastBlock(offset, nbyte) + 1
    ensures var seen := Flat(AllSeen(cached, have, file, FirstBlock(offset)));
            && offset % BLOCK_BYTES <= |seen|
            && (HitsAreCurrent(cached, have, file, FirstBlock(offset)) ==>
                  && offset + nbyte <= |Flat(file)|
                  && Substr(seen, offset % BLOCK_BYTES, nbyte) == Flat(file)[offset..offset + nbyte])
  {
    var first := FirstBlock(offset);
    var seen, part := AllSeen(cached, have, file, first), file[first..first + |have|];
    RangeOfBlocks(file, offset, nbyte);
    SeenIsFlatIff(cached, have, file, first);
    assert WholeBlocks(seen) && WholeBlocks(part);
    FlatAt(seen);
    FlatAt(part);
    hide Flat;
  }

  lemma {:induction false} WholeAfter(cached: map<LBA, string>, have: seq<bool>, file: seq<string>, width: nat,
                                      first: nat, n: nat)
    requires width > 0 && n <= |have| && first + |have| <= |file| && WholeBlocks(file) && WholeData(cached)
    ensures WholeData(CachedAfter(cached, have, file, width, first, n))
  {
    if n > 0 {
      WholeAfter(cached, have, file, width, first, n - 1);
    }
  }

  /** `pfs_read`, given the replies that the metadata manager sends to its token requests.

      It waits exactly as long as the replies leave a run missing; then it delivers the
      blocks that the cache held under tokens it had on entry, and the file's own blocks for the rest.  The
      bytes are the file's when those copies were current. */
  method PfsRead(entry: Entry, cache: Cache, servers: map<Server, seq<string>>, width: nat, ghost file: seq<string>,
                 offset: nat, nbyte: nat, replies: seq<Reply>)
      returns (r: ReadOutcome, used: nat)
    requires entry.Valid() && width > 0 && WholeBlocks(file) && Serve(servers, file, width)
    requires LastBlock(offset, nbyte) < |file| && LastBlock(offset, nbyte) < KEY_SPAN
    requires WholeData(DataOf(cache.used))
    modifies entry, cache
    ensures entry.Valid() && FirstBlock(offset) <= LastBlock(offset, nbyte) + 1
    ensures forall runs :: AreRuns(old(entry.tokens), FirstBlock(offset), LastBlock(offset, nbyte), runs) ==>
              (r == WaitingForTokens <==> Remaining(runs, replies) != [])
    ensures used <= |replies|
    ensures r != WaitingForTokens ==>
              FilledAfter(old(entry.tokens), FirstBlock(offset), LastBlock(offset, nbyte), R, Nack in replies[..used],
                          entry.tokens)
    ensures InOrder(old(cache.View())) ==> InOrder(cache.View())
    ensures var first := FirstBlock(offset);
            var have := HeldOnEntry(old(entry.tokens), first, LastBlock(offset, nbyte));
            && (r == WaitingForTokens ==> cache.View() == old(cache.View()))
            && (r == NoFreeBlock ==>
                  && cache.free == 0
                  && exists n: nat :: n < |have| && Stamped(old(cache.View()), have, first, n, cache.View()))
            && (r.Bytes? ==> Stamped(old(cache.View()), have, first, |have|, cache.View()))
    ensures var first := FirstBlock(offset);
            var cached := DataOf(old(cache.used));
            var have := HeldOnEntry(old(entry.tokens), first, LastBlock(offset, nbyte));
            && (r == NoFreeBlock ==> Fetches(cached, have, first, |have|) > old(cache.free))
            && (r.Bytes? ==>
                  && Fetches(cached, have, first, |have|) <= old(cache.free)
                  && DataOf(cache.used) == CachedAfter(cached, have, file, width, first, |have|)
                  && WholeData(DataOf(cache.used))
                  && offset % BLOCK_BYTES <= |Flat(AllSeen(cached, have, file, first))|
                  && r.bytes == Substr(Flat(AllSeen(cached, have, file, first)), offset % BLOCK_BYTES, nbyte)
                  && (HitsAreCurrent(cached, have, file, first) ==>
                        offset + nbyte <= |Flat(file)| && r.bytes == Flat(file)[offset..offset + nbyte]))
  {
    var blockOffset, endBlockOffset := FirstBlock(offset), LastBlock(offset, nbyte);
    RangeFits(offset, nbyte);
    ghost var was, cached, free, before := entry.tokens, DataOf(cache.used), cache.free, cache.View();
    var have, done;
    have, done, used := AcquireTokens(entry, blockOffset, endBlockOffset, R, replies);
    ghost var held := HeldOnEntry(was, blockOffset, endBlockOffset);
    assert have[..] == held;
    hide *;
    if !done {
      return WaitingForTokens, used;
    }
    var ok, response;
    ghost var turns;
    ok, response, turns := GatherBlocks(cache, have, servers, width, blockOffset, endBlockOffset, file);
    StampedInOrder(before, held, blockOffset, turns, cache.View());
    if !ok {
      return NoFreeBlock, used;
    }
    GatheredAll(cached, held, file, width, blockOffset, response, DataOf(cache.used), free - cache.free);
    SeenFillsRange(cached, held, file, offset, nbyte);
    WholeAfter(cached, held, file, width, blockOffset, |held|);
    return Bytes(Substr(response, offset % BLOCK_BYTES, nbyte)), used;
  }

  // ------------------------------------------------------------------ what reads leave in the cache

  /** Every cached copy is the file's block of that number: then every hit is current. */
  ghost predicate HoldsFile(cached: map<LBA, string>, file: seq<string>) {
    forall k :: k in cached ==> k < |file| && cached[k] == file[k]
  }

  lemma HoldingFileIsCurrent(cached: map<LBA, string>, have: seq<bool>, file: seq<string>, first: nat)
    requires HoldsFile(cached, file) && first + |have| <= |file| <= KEY_SPAN
    ensures HitsAreCurrent(cached, have, file, first)
  {
  }

  lemma OwnKey(b: nat, width: nat)
    requires width > 0 && b < KEY_SPAN && (width == 1 || b < STRIP_SIZE)
    ensures KeyOf(OffsetWithin(b, width)) == b
  {
    OffsetIsBlockIff(b, width);
    hide OffsetWithin;
  }

  /** A block cached under its own number keeps a true cache true. */
  lemma OneMoreIsTrue(cached: map<LBA, string>, have: seq<bool>, file: seq<string>, width: nat, first: nat, n: nat)
    requires width > 0 && 0 < n <= |have| && first + |have| <= |file|
    requires HoldsFile(CachedAfter(cached, have, file, width, first, n - 1), file)
    requires KeyOf(OffsetWithin(first + n - 1, width)) == first + n - 1
    ensures HoldsFile(CachedAfter(cached, have, file, width, first, n), file)
  {
    hide OffsetWithin, KeyOf, IsHit;
    var before := CachedAfter(cached, have, file, width, first, n - 1);
    var after := CachedAfter(cached, have, file, width, first, n);
    assert after == before || after == before[first + n - 1 := file[first + n - 1]];
    hide CachedAfter;
  }

  /** With one server the offset is the block number, and reads keep the cache true to the file. */
  lemma {:induction false} OneServerKeepsFile(cached: map<LBA, string>, have: seq<bool>, file: seq<string>,
                                              first: nat, n: nat)
    requires HoldsFile(cached, file) && n <= |have| && first + |have| <= |file| <= KEY_SPAN
    ensures HoldsFile(CachedAfter(cached, have, file, 1, first, n), file)
  {
    if n > 0 {
      OneServerKeepsFile(cached, have, file, first, n - 1);
      OwnKey(first + n - 1, 1);
      OneMoreIsTrue(cached, have, file, 1, first, n);
    }
  }

  /** With two servers or more, a fetched block past the first strip is cached under another block's number,
      and the next read of that block under a token gets the wrong block. */
  lemma MiskeyedBlock(file: seq<string>, width: nat, b: nat)
    requires width > 1 && STRIP_SIZE <= b < |file| <= KEY_SPAN
    ensures var other := OffsetWithin(b, width);
            && other < b
            && CachedAfter(map[], [false], file, width, b, 1) == map[other := file[b]]
            && Seen(CachedAfter(map[], [false], file, width, b, 1), [true], file, other, 0) == file[b]
  {
    var other := OffsetWithin(b, width);
    OffsetIsBlockIff(b, width);
    var empty: map<LBA, string> := map[];
    assert CachedAfter(empty, [false], file, width, b, 0) == empty;
    assert CachedAfter(empty, [false], file, width, b, 1) == map[other := file[b]];
  }

  /** A file that fits into the first strip: every block is cached under its own number. */
  lemma {:induction false} OneStripKeepsFile(cached: map<LBA, string>, have: seq<bool>, file: seq<string>, width: nat,
                                             first: nat, n: nat)
    requires width > 0 && HoldsFile(cached, file) && n <= |have| && first + |have| <= |file| <= STRIP_SIZE
    ensures HoldsFile(CachedAfter(cached, have, file, width, first, n), file)
  {
    if n > 0 {
      OneStripKeepsFile(cached, have, file, width, first, n - 1);
      OwnKey(first + n - 1, width);
      OneMoreIsTrue(cached, have, file, width, first, n);
    }
  }

  /** Every read of every file of `size` blocks keeps every true cache true. */
  ghost predicate ReadsKeep(size: nat, width: nat)
    requires width > 0
  {
    forall cached, have: seq<bool>, file: seq<string>, first: nat ::
      WholeBlocks(file) && |file| == size && first + |have| <= size && HoldsFile(cached, file) ==>
        HoldsFile(CachedAfter(cached, have, file, width, first, |have|), file)
  }

  /** A file of `size` blocks of which block `b` is unlike the others. */
  lemma OddBlock(size: nat, b: nat) returns (file: seq<string>)
    requires b < size
    ensures WholeBlocks(file) && |file| == size && forall k :: 0 <= k < size && k != b ==> file[k] != file[b]
  {
    var x, y := seq(BLOCK_BYTES, _ => 'x'), seq(BLOCK_BYTES, _ => 'y');
    assert x[0] != y[0];
    file := seq(size, k => if k == b then y else x);
  }

  /** Reads of the files of a size keep caches true exactly when the files are on one server, or fit into the
      first strip. */
  lemma ReadsKeepFileIff(size: nat, width: nat)
    requires width > 0 && size <= KEY_SPAN
    ensures ReadsKeep(size, width) <==> width == 1 || size <= STRIP_SIZE
  {
    if width == 1 || size <= STRIP_SIZE {
      forall cached, have: seq<bool>, file: seq<string>, first: nat |
          WholeBlocks(file) && |file| == size && first + |have| <= size && HoldsFile(cached, file)
        ensures HoldsFile(CachedAfter(cached, have, file, width, first, |have|), file)
      {
        if width == 1 {
          OneServerKeepsFile(cached, have, file, first, |have|);
        } else {
          OneStripKeepsFile(cached, have, file, width, first, |have|);
        }
      }
    } else {
      var file := OddBlock(size, STRIP_SIZE);
      var empty: map<LBA, string> := map[];
      MiskeyedBlock(file, width, STRIP_SIZE);
      assert HoldsFile(empty, file) && STRIP_SIZE + |[false]| <= size;
      assert !HoldsFile(CachedAfter(empty, [false], file, width, STRIP_SIZE, |[false]|), file);
    }
  }

  /** Read a block without a token, and read it again under the new one: the second read is right exactly
      when the first did not find an outdated copy under the block's number. */
  lemma RereadIsRightIff(cached: map<LBA, string>, file: seq<string>, width: nat, b: nat)
    requires width > 0 && b < |file| <= KEY_SPAN
    ensures Seen(cached, [false], file, b, 0) == file[b]
    ensures Seen(CachedAfter(cached, [false], file, width, b, 1), [true], file, b, 0) == file[b] <==>
            (b in cached ==> cached[b] == file[b])
  {
    OffsetIsBlockIff(b, width);
    assert KeyOf(b) == b;
    assert CachedAfter(cached, [false], file, width, b, 0) == cached;
  }

  /** How an outdated copy comes about, for a block that is cached under its own number: it is read, its
      token is revoked (the copy stays), and another client changes it.  The next read fetches the new block,
      whose insert is dropped; the one after that, under the new token, delivers the old block again. */
  lemma OutdatedCopy(before: seq<string>, after: seq<string>, width: nat, b: nat)
    requires width > 0 && b < |before| == |after| <= KEY_SPAN && (width == 1 || b < STRIP_SIZE)
    requires before[b] != after[b]
    ensures var first := CachedAfter(map[], [false], before, width, b, 1);
            var second := CachedAfter(first, [false], after, width, b, 1);
            && Seen(map[], [false], before, b, 0) == before[b]
            && Seen(first, [false], after, b, 0) == after[b]
            && Seen(second, [true], after, b, 0) == before[b] != after[b]
  {
    OffsetIsBlockIff(b, width);
    assert KeyOf(b) == b;
    var empty: map<LBA, string> := map[];
    assert CachedAfter(empty, [false], before, width, b, 0) == empty;
    var first := CachedAfter(empty, [false], before, width, b, 1);
    assert first == map[b := before[b]];
    RereadIsRightIff(first, after, width, b);
    assert CachedAfter(first, [false], after, width, b, 0) == first;
  }

  // ------------------------------------------------------------------ which files are always read rightly

  /** One read by a client: its first block, and for each block whether it had a token on entry. */
  datatype Read = Read(first: nat, have: seq<bool>)

  predicate Reads(r: Read, b: nat) {
    r.first <= b < r.first + |r.have|
  }

  /** Reads of a file of `size` blocks by a client that starts without tokens: it may have one on a block
      only if it has read the block before. */
  ghost predicate PossibleReads(calls: seq<Read>, size: nat) {
    && (forall n :: 0 <= n < |calls| ==> calls[n].first + |calls[n].have| <= size)
    && (forall n, k :: 0 <= n < |calls| && 0 <= k < |calls[n].have| && calls[n].have[k] ==>
          exists m :: 0 <= m < n && Reads(calls[m], calls[n].first + k))
  }

  /** What is cached before read `n`, starting from nothing. */
  ghost function CachedBefore(calls: seq<Read>, n: nat, file: seq<string>, width: nat): map<LBA, string>
    requires width > 0 && n <= |calls| && PossibleReads(calls, |file|)
  {
    if n == 0 then map[]
    else
      var r := calls[n - 1];
      CachedAfter(CachedBefore(calls, n - 1, file, width), r.have, file, width, r.first, |r.have|)
  }

  ghost predicate Delivered(calls: seq<Read>, n: nat, file: seq<string>, width: nat)
    requires width > 0 && n < |calls| && PossibleReads(calls, |file|)
  {
    var r := calls[n];
    AllSeen(CachedBefore(calls, n, file, width), r.have, file, r.first) == file[r.first..r.first + |r.have|]
  }

  ghost predicate AllDelivered(calls: seq<Read>, file: seq<string>, width: nat)
    requires width > 0 && PossibleReads(calls, |file|)
  {
    forall n :: 0 <= n < |calls| ==> Delivered(calls, n, file, width)
  }

  /** All reads of all files of `size` blocks deliver the file's blocks. */
  ghost predicate ReadsDeliver(size: nat, width: nat)
    requires width > 0
  {
    forall file: seq<string>, calls: seq<Read> ::
      WholeBlocks(file) && |file| == size && PossibleReads(calls, |file|) ==> AllDelivered(calls, file, width)
  }

  lemma {:induction false} CacheStaysTrue(calls: seq<Read>, n: nat, file: seq<string>, width: nat)
    requires width > 0 && n <= |calls| && PossibleReads(calls, |file|)
    requires |file| <= KEY_SPAN && (width == 1 || |file| <= STRIP_SIZE)
    ensures HoldsFile(CachedBefore(calls, n, file, width), file)
  {
    if n > 0 {
      CacheStaysTrue(calls, n - 1, file, width);
      var r, cached := calls[n - 1], CachedBefore(calls, n - 1, file, width);
      if width == 1 {
        OneServerKeepsFile(cached, r.have, file, r.first, |r.have|);
      } else {
        OneStripKeepsFile(cached, r.have, file, width, r.first, |r.have|);
      }
    }
  }

  /** Block 4 is fetched, block 0 is fetched, and block 0 is read again under its token. */
  const WRONG_READS := [Read(STRIP_SIZE, [false]), Read(0, [false]), Read(0, [true])]

  lemma WrongReadsArePossible(size: nat)
    requires size > STRIP_SIZE
    ensures PossibleReads(WRONG_READS, size)
  {
    assert Reads(WRONG_READS[1], 0);
  }

  lemma WrongReadsGoWrong(file: seq<string>, width: nat)
    requires width > 1 && STRIP_SIZE < |file| <= KEY_SPAN && file[0] != file[STRIP_SIZE]
    ensures PossibleReads(WRONG_READS, |file|) && !Delivered(WRONG_READS, 2, file, width)
  {
    WrongReadsArePossible(|file|);
    var first := CachedBefore(WRONG_READS, 1, file, width);
    OffsetOfFifthBlock(width);
    MiskeyedBlock(file, width, STRIP_SIZE);
    assert CachedBefore(WRONG_READS, 0, file, width) == map[];
    assert first == map[0 := file[STRIP_SIZE]];
    var second := CachedBefore(WRONG_READS, 2, file, width);
    assert second == CachedAfter(first, [false], file, width, 0, 1);
    assert 0 in second && second[0] == file[STRIP_SIZE];
    assert AllSeen(second, [true], file, 0)[0] == file[STRIP_SIZE];
  }

  lemma OffsetOfFifthBlock(width: nat)
    requires width > 1
    ensures OffsetWithin(STRIP_SIZE, width) == 0
  {
    EarlierRow(1, 1 / width, 1 % width, width);
  }

  /** Every read a client can make of any file of the size delivers the file's blocks exactly when the files
      are on one server, or fit into the first strip. */
  lemma ReadsDeliverIff(size: nat, width: nat)
    requires width > 0 && size <= KEY_SPAN
    ensures ReadsDeliver(size, width) <==> width == 1 || size <= STRIP_SIZE
  {
    if width == 1 || size <= STRIP_SIZE {
      forall file: seq<string>, calls: seq<Read> |
          WholeBlocks(file) && |file| == size && PossibleReads(calls, |file|)
        ensures AllDelivered(calls, file, width)
      {
        TrueCacheDelivers(calls, file, width);
      }
    } else {
      var file := OddBlock(size, STRIP_SIZE);
      WrongReadsGoWrong(file, width);
      assert !AllDelivered(WRONG_READS, file, width);
    }
  }

  lemma TrueCacheDelivers(calls: seq<Read>, file: seq<string>, width: nat)
    requires width > 0 && PossibleReads(calls, |file|)
    requires |file| <= KEY_SPAN && (width == 1 || |file| <= STRIP_SIZE)
    ensures AllDelivered(calls, file, width)
  {
    forall n | 0 <= n < |calls|
      ensures Delivered(calls, n, file, width)
    {
      var r := calls[n];
      CacheStaysTrue(calls, n, file, width);
      HoldingFileIsCurrent(CachedBefore(calls, n, file, width), r.have, file, r.first);
      hide CachedBefore;
      assert AllSeen(CachedBefore(calls, n, file, width), r.have, file, r.first) == file[r.first..r.first + |r.have|];
    }
  }
}
