/** How the blocks of a file are laid out over the file servers. */
module Striping {
  import opened Intervals

  /** Blocks that go to one server before the next server's turn. */
  const STRIP_SIZE: nat := 4

  const NUM_FILE_SERVERS: nat := 5

  function ServerOf(b: nat, width: nat): nat
    requires width > 0
  {
    (b / STRIP_SIZE) % width
  }

  function OffsetWithin(b: nat, width: nat): nat
    requires width > 0
  {
    ((b / STRIP_SIZE) / width) * STRIP_SIZE + b % STRIP_SIZE
  }

  /** The block that a server keeps at an offset. */
  function BlockAt(server: nat, within: nat, width: nat): nat {
    ((within / STRIP_SIZE) * width + server) * STRIP_SIZE + within % STRIP_SIZE
  }

  lemma MulBounds(k: int, d: nat)
    ensures k >= 1 ==> k * d >= d
    ensures k <= -1 ==> k * d + d <= 0
  {
    if k >= 1 {
      assert k * d == (k - 1) * d + d;
    }
    if k <= -1 {
      assert k * d == (k + 1) * d - d;
    }
  }

  lemma DivMod(q: nat, r: nat, d: nat)
    requires r < d
    ensures (q * d + r) / d == q && (q * d + r) % d == r
  {
    var n := q * d + r;
    assert n == (n / d) * d + n % d;
    assert (n / d - q) * d == r - n % d;
    MulBounds(n / d - q, d);
  }

  lemma PlaceOfBlock(b: nat, width: nat)
    requires width > 0
    ensures ServerOf(b, width) < width && BlockAt(ServerOf(b, width), OffsetWithin(b, width), width) == b
  {
    var strip := b / STRIP_SIZE;
    DivMod(strip / width, b % STRIP_SIZE, STRIP_SIZE);
    assert (strip / width) * width + strip % width == strip;
  }

  lemma BlockOfPlace(s: nat, w: nat, width: nat)
    requires s < width
    ensures ServerOf(BlockAt(s, w, width), width) == s && OffsetWithin(BlockAt(s, w, width), width) == w
  {
    var row := w / STRIP_SIZE;
    DivMod(row * width + s, w % STRIP_SIZE, STRIP_SIZE);
    DivMod(row, s, width);
  }

  /** Striping is a bijection between blocks and pairs of a server and an offset on it. */
  lemma StripingIsBijective(width: nat)
    requires width > 0
    ensures forall b: nat ::
              ServerOf(b, width) < width && BlockAt(ServerOf(b, width), OffsetWithin(b, width), width) == b
    ensures forall s: nat, w: nat :: s < width ==>
              ServerOf(BlockAt(s, w, width), width) == s && OffsetWithin(BlockAt(s, w, width), width) == w
  {
    hide *;
    forall b: nat {
      PlaceOfBlock(b, width);
    }
    forall s: nat, w: nat | s < width {
      BlockOfPlace(s, w, width);
    }
  }

  /** On one server, later blocks have larger offsets. */
  lemma OffsetsGrow(b: nat, c: nat, width: nat)
    requires width > 0 && b < c && ServerOf(b, width) == ServerOf(c, width)
    ensures OffsetWithin(b, width) < OffsetWithin(c, width)
  {
    OffsetIsCount(b, width);
    OffsetIsCount(c, width);
    CountGrows(b, b + 1, ServerOf(b, width), width);
    CountGrows(b + 1, c, ServerOf(b, width), width);
  }

  // ------------------------------------------------------------------ the first blocks of a file

  /** How many of the first `n` blocks are on the server. */
  function CountOn(n: nat, server: nat, width: nat): nat
    requires width > 0
  {
    if n == 0 then 0 else CountOn(n - 1, server, width) + if ServerOf(n - 1, width) == server then 1 else 0
  }

  lemma {:induction false} CountGrows(m: nat, n: nat, server: nat, width: nat)
    requires width > 0 && m <= n
    ensures CountOn(m, server, width) <= CountOn(n, server, width)
    decreases n - m
  {
    if m < n {
      CountGrows(m, n - 1, server, width);
    }
  }

  /** With `rows` full rounds behind it, a server before the current one has one strip more than a server
      after it. */
  function CountByRounds(rows: nat, turn: nat, rest: nat, server: nat): nat {
    rows * STRIP_SIZE + if server < turn then STRIP_SIZE else if server == turn then rest else 0
  }

  lemma NextStrip(strip: nat, width: nat)
    requires width > 0
    ensures if strip % width + 1 < width
            then (strip + 1) / width == strip / width && (strip + 1) % width == strip % width + 1
            else (strip + 1) / width == strip / width + 1 && (strip + 1) % width == 0
  {
    var row, turn := strip / width, strip % width;
    assert strip == row * width + turn;
    if turn + 1 < width {
      DivMod(row, turn + 1, width);
    } else {
      assert strip + 1 == (row + 1) * width + 0;
      DivMod(row + 1, 0, width);
    }
  }

  lemma {:induction false} CountInClosedForm(n: nat, server: nat, width: nat)
    requires width > 0 && server < width
    ensures CountOn(n, server, width) ==
            CountByRounds((n / STRIP_SIZE) / width, (n / STRIP_SIZE) % width, n % STRIP_SIZE, server)
  {
    if n == 0 {
      DivMod(0, 0, width);
    } else {
      CountInClosedForm(n - 1, server, width);
      var strip := (n - 1) / STRIP_SIZE;
      if n % STRIP_SIZE == 0 {
        assert n / STRIP_SIZE == strip + 1;
        NextStrip(strip, width);
      } else {
        assert n / STRIP_SIZE == strip;
      }
    }
  }

  /** A block's offset is the number of earlier blocks on its server. */
  lemma OffsetIsCount(b: nat, width: nat)
    requires width > 0
    ensures OffsetWithin(b, width) == CountOn(b, ServerOf(b, width), width)
  {
    CountInClosedForm(b, ServerOf(b, width), width);
  }

  /** The first `n` blocks of a file fill each server from offset 0 without a gap, and nothing else. */
  lemma PrefixHasNoGaps(n: nat, server: nat, within: nat, width: nat)
    requires width > 0 && server < width
    ensures within < CountOn(n, server, width) <==> BlockAt(server, within, width) < n
  {
    var b := BlockAt(server, within, width);
    StripingIsBijective(width);
    assert ServerOf(b, width) == server && OffsetWithin(b, width) == within;
    OffsetIsCount(b, width);
    if b < n {
      CountGrows(b + 1, n, server, width);
    } else {
      CountGrows(n, b, server, width);
    }
  }

  /** No server has more than one strip more than another. */
  lemma LoadIsBalanced(n: nat, s: nat, t: nat, width: nat)
    requires width > 0 && s < width && t < width
    ensures CountOn(n, s, width) <= CountOn(n, t, width) + STRIP_SIZE
  {
    CountInClosedForm(n, s, width);
    CountInClosedForm(n, t, width);
  }

  /** The blocks on the first `k` servers together. */
  function TotalOn(n: nat, k: nat, width: nat): nat
    requires width > 0
  {
    if k == 0 then 0 else TotalOn(n, k - 1, width) + CountOn(n, k - 1, width)
  }

  lemma {:induction false} TotalStep(n: nat, k: nat, width: nat)
    requires width > 0
    ensures TotalOn(n + 1, k, width) == TotalOn(n, k, width) + if ServerOf(n, width) < k then 1 else 0
  {
    if k > 0 {
      TotalStep(n, k - 1, width);
    }
  }

  /** Every block is on one server and none is counted twice. */
  lemma {:induction false} NothingIsLost(n: nat, width: nat)
    requires width > 0
    ensures TotalOn(n, width, width) == n
  {
    if n == 0 {
      NoneYet(width, width);
    } else {
      NothingIsLost(n - 1, width);
      TotalStep(n - 1, width, width);
      StripingIsBijective(width);
      assert ServerOf(n - 1, width) < width;
    }
  }

  lemma {:induction false} NoneYet(k: nat, width: nat)
    requires width > 0
    ensures TotalOn(0, k, width) == 0
  {
    if k > 0 {
      NoneYet(k - 1, width);
    }
  }

  // ------------------------------------------------------------------ the servers' addresses

  datatype Server = Server(address: string, port: nat)

  /** The addresses that the program knows; any other server number leaves the caller's variables unset. */
  function AddressOf(server: nat): Option<Server> {
    match server
    case 0 => Some(Server("130.203.59.10", 1111))
    case 1 => Some(Server("130.203.40.73", 2222))
    case 2 => Some(Server("130.203.40.73", 3333))
    case 3 => Some(Server("130.203.40.73", 4444))
    case 4 => Some(Server("130.203.40.73", 5555))
    case _ => None
  }

  function CorrespondingServer(b: nat, width: nat): (Option<Server>, nat)
    requires width > 0
  {
    (AddressOf(ServerOf(b, width)), OffsetWithin(b, width))
  }

  /** Every block of every file has a server exactly when the file is striped over at most five, and then
      no two blocks share a place. */
  lemma EveryBlockHasAPlaceIff(width: nat)
    requires width > 0
    ensures (forall b: nat :: CorrespondingServer(b, width).0.Some?) <==> width <= NUM_FILE_SERVERS
    ensures width <= NUM_FILE_SERVERS ==>
              forall b: nat, c: nat :: CorrespondingServer(b, width) == CorrespondingServer(c, width) ==> b == c
  {
    StripingIsBijective(width);
    if width > NUM_FILE_SERVERS {
      var b := BlockAt(NUM_FILE_SERVERS, 0, width);
      assert ServerOf(b, width) == NUM_FILE_SERVERS;
      assert CorrespondingServer(b, width).0.None?;
    } else {
      forall b: nat, c: nat | CorrespondingServer(b, width) == CorrespondingServer(c, width)
        ensures b == c
      {
        SameAddressSameServer(ServerOf(b, width), ServerOf(c, width));
        assert BlockAt(ServerOf(b, width), OffsetWithin(b, width), width) == b;
        assert BlockAt(ServerOf(c, width), OffsetWithin(c, width), width) == c;
      }
    }
  }

  lemma SameAddressSameServer(s: nat, t: nat)
    requires s < NUM_FILE_SERVERS && t < NUM_FILE_SERVERS && AddressOf(s) == AddressOf(t)
    ensures s == t
  {
  }

  lemma MulGrows(row: nat, width: nat)
    requires width > 1
    ensures row * width >= 2 * row
  {
    assert row * width == row * (width - 2) + row * 2;
  }

  lemma EarlierRow(strip: nat, row: nat, turn: nat, width: nat)
    requires turn < width && strip == row * width + turn
    ensures row <= strip
    ensures row == strip <==> width == 1 || strip == 0
  {
    if width > 1 {
      MulGrows(row, width);
    }
  }

  /** A block's offset is its own number only in the first strip, or with a single server. */
  lemma OffsetIsBlockIff(b: nat, width: nat)
    requires width > 0
    ensures OffsetWithin(b, width) <= b
    ensures OffsetWithin(b, width) == b <==> width == 1 || b < STRIP_SIZE
  {
    var strip := b / STRIP_SIZE;
    assert strip == (strip / width) * width + strip % width;
    EarlierRow(strip, strip / width, strip % width, width);
    assert b == strip * STRIP_SIZE + b % STRIP_SIZE;
    assert OffsetWithin(b, width) == (strip / width) * STRIP_SIZE + b % STRIP_SIZE;
  }

  /** Blocks by number: the first strip ends with block 3, block 4 opens the second server, and block 8 comes
      back to the first. */
  lemma Placements()
    ensures CorrespondingServer(3, 2) == (Some(Server("130.203.59.10", 1111)), 3)
    ensures CorrespondingServer(4, 2) == (Some(Server("130.203.40.73", 2222)), 0)
    ensures CorrespondingServer(8, 2) == (Some(Server("130.203.59.10", 1111)), 4)
    ensures CorrespondingServer(19, 5) == (Some(Server("130.203.40.73", 5555)), 3)
    ensures CorrespondingServer(12, 4) == (Some(Server("130.203.40.73", 4444)), 0)
    ensures CorrespondingServer(11, 3) == (Some(Server("130.203.40.73", 3333)), 3)
    ensures CorrespondingServer(23, 6) == (None, 3)
  {
  }
}
