/** The optional value used where the program leaves a field `undefined`. */
module Wrappers {
  datatype Option<+T> = None | Some(value: T)
}

/**
  Pipe tiles as bit masks, and their rotation (src/Pipes.js).

  A tile is stored in the board's `map` as the 32-bit two's-complement pattern
  of the JavaScript number held there: every value the program stores comes
  from a table constant or from a bitwise operator, so it is a signed 32-bit
  integer, and `bv32` captures it exactly. Bit 0 is Up, bit 1 Left, bit 2 Down,
  bit 3 Right; only those four bits are sides, but the program never masks the
  higher bits away.
*/
module PipeMask {
  import opened Wrappers

  type Tile = bv32

  /** A side of a cell, as a bit index: 0 Up, 1 Left, 2 Down, 3 Right. */
  type Side = s: nat | s < 4

  const Up: Tile := 0x1
  const Left: Tile := 0x2
  const Down: Tile := 0x4
  const Right: Tile := 0x8

  /** The `Direction` table: the bit of each side, indexed like `offset`. */
  function Bit(s: Side): Tile {
    if s == 0 then Up else if s == 1 then Left else if s == 2 then Down else Right
  }

  /**
    `x << n` and the unsigned `x >>> n` on 32 bits, for the shift amounts the
    program uses, written with literal amounts so that they stay bit-vector
    operations.
  */
  function Shl(x: Tile, n: nat): Tile
    requires n <= 4
  {
    if n == 0 then x else if n == 1 then x << 1 else if n == 2 then x << 2
    else if n == 3 then x << 3 else x << 4
  }

  function Shr(x: Tile, n: nat): Tile
    requires n <= 4
  {
    if n == 0 then x else if n == 1 then x >> 1 else if n == 2 then x >> 2
    else if n == 3 then x >> 3 else x >> 4
  }

  /** The `Direction` table agrees with `1 << side`, the walk's bit test. */
  lemma BitIsShift(s: Side)
    ensures Bit(s) == Shl(1, s)
  {
  }

  /**
    JavaScript `tile & (1 << side)` is truthy, written with one literal mask
    per side.
  */
  predicate HasSide(t: Tile, s: Side) {
    if s == 0 then t & 1 != 0 else if s == 1 then t & 2 != 0
    else if s == 2 then t & 4 != 0 else t & 8 != 0
  }

  /** The test is the one the program writes, `tile & (1 << side)`. */
  lemma HasSideIsBitTest(t: Tile, s: Side)
    ensures HasSide(t, s) <==> t & Shl(1, s) != 0
  {
  }

  /** The low nibble: the four bits that name sides. */
  function Low(t: Tile): Tile {
    t & 0xF
  }

  /** How many of the four sides are open. */
  function BitCount(t: Tile): nat {
    CountSides(HasSide(t, 0), HasSide(t, 1), HasSide(t, 2), HasSide(t, 3))
  }

  function CountSides(up: bool, left: bool, down: bool, right: bool): nat {
    (if up then 1 else 0) + (if left then 1 else 0) + (if down then 1 else 0) + (if right then 1 else 0)
  }

  /** Tiles dealt to ordinary cells: the six two-side pieces and the cross. */
  const PlaceablePipes: seq<Tile> := [0x3, 0x6, 0xC, 0x9, 0x5, 0xA, 0xF]

  /** Tiles dealt to the start cell: one open side each. */
  const StartPipes: seq<Tile> := [0x1, 0x2, 0x4, 0x8]

  lemma PlaceablePipesAreTwoSidedOrCross(t: Tile)
    ensures t in PlaceablePipes <==> t < 16 && (BitCount(t) == 2 || t == 0xF)
  {
  }

  lemma StartPipesAreOneSided(t: Tile)
    ensures t in StartPipes <==> t < 16 && BitCount(t) == 1
  {
  }

  /** JavaScript's sign-propagating `x >> n` on a 32-bit integer. */
  function Sar(x: Tile, n: nat): (r: Tile)
    requires n <= 4
  {
    if x & 0x8000_0000 == 0 then Shr(x, n) else !Shr(!x, n)
  }

  /**
    `rotatePipe` exactly as written: `(pipe << turns) | (pipe >> (4 - turns))`
    on 32-bit integers, with no mask. `turns` is 0 to 3 at every call site.
  */
  function RotatePipe(pipe: Tile, turns: nat): Tile
    requires turns < 4
  {
    Shl(pipe, turns) | Sar(pipe, 4 - turns)
  }

  /**
    The evidently intended rotation: the same shift-and-or, masked to the four
    side bits, so that a tile never carries anything above bit 3. The board
    and the maze cleanup rotate with it.
  */
  function RotateMasked(pipe: Tile, turns: nat): Tile
    requires turns < 4
  {
    RotatePipe(pipe, turns) & 0xF
  }

  /** Rotating a side by `turns` quarter turns: Up -> Left -> Down -> Right -> Up. */
  function Turn(s: Side, turns: nat): Side {
    (s + turns) % 4
  }

  /**
    On a four-bit tile the masked rotation is the cyclic rotation of the
    nibble: side `s` of the input becomes side `s + turns` of the output.
  */
  lemma RotateMaskedIsCyclic(pipe: Tile, turns: nat, s: Side)
    requires pipe < 16 && turns < 4
    ensures RotateMasked(pipe, turns) < 16
    ensures HasSide(RotateMasked(pipe, turns), Turn(s, turns)) == HasSide(pipe, s)
  {
  }

  /** Composition of masked rotations adds the turns modulo 4. */
  lemma RotateMaskedCompose(pipe: Tile, a: nat, b: nat)
    requires pipe < 16 && a < 4 && b < 4
    ensures RotateMasked(RotateMasked(pipe, a), b) == RotateMasked(pipe, (a + b) % 4)
  {
    RotateMaskedIsRotate4(pipe, a);
    RotateMaskedIsRotate4(RotateMasked(pipe, a), b);
    RotateMaskedIsRotate4(pipe, (a + b) % 4);
    Rotate4Compose(pipe, a, b);
  }

  lemma RotateMaskedIsRotate4(p: Tile, turns: nat)
    requires p < 16 && turns < 4
    ensures RotateMasked(p, turns) == Rotate4(p, turns) < 16
  {
  }

  /** The masked rotation of a four-bit tile, one number of turns at a time. */
  function Rotate4(p: Tile, turns: nat): Tile
    requires turns < 4
  {
    if turns == 0 then p & 0xF
    else if turns == 1 then ((p << 1) | (p >> 3)) & 0xF
    else if turns == 2 then ((p << 2) | (p >> 2)) & 0xF
    else ((p << 3) | (p >> 1)) & 0xF
  }

  lemma Rotate4Compose(p: Tile, a: nat, b: nat)
    requires p < 16 && a < 4 && b < 4
    ensures Rotate4(Rotate4(p, a), b) == Rotate4(p, (a + b) % 4)
  {
  }

  /** Zero turns, and a left click followed by a right click, restore the tile. */
  lemma RotateMaskedIdentities(pipe: Tile)
    requires pipe < 16
    ensures RotateMasked(pipe, 0) == pipe
    ensures RotateMasked(RotateMasked(pipe, 3), 1) == pipe
    ensures RotateMasked(RotateMasked(pipe, 1), 3) == pipe
  {
    RotateMaskedCompose(pipe, 3, 1);
    RotateMaskedCompose(pipe, 1, 3);
  }

  /** Rotation keeps the number of open sides. */
  lemma RotateMaskedKeepsBitCount(pipe: Tile, turns: nat)
    requires pipe < 16 && turns < 4
    ensures BitCount(RotateMasked(pipe, turns)) == BitCount(pipe)
  {
    RotateMaskedIsCyclic(pipe, turns, 0);
    RotateMaskedIsCyclic(pipe, turns, 1);
    RotateMaskedIsCyclic(pipe, turns, 2);
    RotateMaskedIsCyclic(pipe, turns, 3);
    var r := RotateMasked(pipe, turns);
    var up, left, down, right := HasSide(pipe, 0), HasSide(pipe, 1), HasSide(pipe, 2), HasSide(pipe, 3);
    if turns == 0 {
      assert BitCount(r) == CountSides(up, left, down, right);
    } else if turns == 1 {
      assert BitCount(r) == CountSides(right, up, left, down);
    } else if turns == 2 {
      assert BitCount(r) == CountSides(down, right, up, left);
    } else {
      assert BitCount(r) == CountSides(left, down, right, up);
    }
  }

  /** The as-written rotation never turns a tile with an open bit into the empty tile. */
  lemma RotatePipeNonZero(pipe: Tile, turns: nat)
    requires pipe != 0 && turns < 4
    ensures RotatePipe(pipe, turns) != 0
  {
    if pipe & 0x8000_0000 != 0 {
      SarKeepsSign(pipe, 4 - turns);
    } else if turns == 0 {
      assert RotatePipe(pipe, 0) == pipe | (pipe >> 4);
    } else if turns == 1 {
      NonZeroAfterTurn1(pipe);
    } else if turns == 2 {
      NonZeroAfterTurn2(pipe);
    } else {
      NonZeroAfterTurn3(pipe);
    }
  }

  /** A negative tile stays negative under `>>`. */
  lemma SarKeepsSign(x: Tile, n: nat)
    requires x & 0x8000_0000 != 0 && n <= 4
    ensures Sar(x, n) & 0x8000_0000 != 0
  {
  }

  lemma NonZeroAfterTurn1(p: Tile)
    requires p != 0 && p & 0x8000_0000 == 0
    ensures RotatePipe(p, 1) != 0
  {
    assert RotatePipe(p, 1) == (p << 1) | (p >> 3);
  }

  lemma NonZeroAfterTurn2(p: Tile)
    requires p != 0 && p & 0x8000_0000 == 0
    ensures RotatePipe(p, 2) != 0
  {
    assert RotatePipe(p, 2) == (p << 2) | (p >> 2);
  }

  lemma NonZeroAfterTurn3(p: Tile)
    requires p != 0 && p & 0x8000_0000 == 0
    ensures RotatePipe(p, 3) != 0
  {
    assert RotatePipe(p, 3) == (p << 3) | (p >> 1);
  }

  /**
    On a four-bit tile the as-written rotation moves each side `s` to side
    `s + turns`, but it keeps the shifted-out copy above bit 3: `0b0011`
    turned three times is `0b11001`, not `0b1001`.
  */
  lemma RotatePipeOnNibble(pipe: Tile, turns: nat, s: Side)
    requires pipe < 16 && turns < 4
    ensures HasSide(RotatePipe(pipe, turns), Turn(s, turns)) == HasSide(pipe, s)
    ensures RotatePipe(pipe, turns) < 128
    ensures RotatePipe(pipe, turns) != 0 <==> pipe != 0
    ensures RotatePipe(0x3, 3) == 0x19
  {
  }

  /**
    A left click then a right click (or the reverse) gives a four-bit tile's
    sides back, though not its value: the high copies stay.
  */
  lemma ClickThenUnclickRestoresSides(pipe: Tile)
    requires pipe < 16
    ensures Low(RotatePipe(RotatePipe(pipe, 3), 1)) == pipe
    ensures Low(RotatePipe(RotatePipe(pipe, 1), 3)) == pipe
  {
    FourBitTileIsConsistent(pipe);
    RotatePipeKeepsConsistent(pipe, 3);
    RotatePipeKeepsConsistent(pipe, 1);
    RotatePipeConsistentNibble(RotatePipe(pipe, 3), 1);
    RotatePipeConsistentNibble(RotatePipe(pipe, 1), 3);
    RotateMaskedIdentities(pipe);
  }

  /**
    The as-written rotation of a consistent tile keeps its number of open
    sides.
  */
  lemma RotatePipeKeepsBitCount(pipe: Tile, turns: nat)
    requires Consistent(pipe) && turns < 4
    ensures BitCount(RotatePipe(pipe, turns)) == BitCount(pipe)
  {
    RotatePipeConsistentNibble(pipe, turns);
    RotateMaskedKeepsBitCount(Low(pipe), turns);
    LowKeepsSides(pipe);
    LowKeepsSides(RotatePipe(pipe, turns));
  }

  lemma LowKeepsSides(t: Tile)
    ensures Low(t) < 16 && BitCount(Low(t)) == BitCount(t)
  {
  }

  /** `n` copied into all eight nibbles of a 32-bit word. */
  function Spread(n: Tile): Tile {
    n | (n << 4) | (n << 8) | (n << 12) | (n << 16) | (n << 20) | (n << 24) | (n << 28)
  }

  /**
    Every bit `k` above bit 3 is set only if bit `k % 4` is set: the higher
    bits are stale copies of the sides, left behind by unmasked rotations.
  */
  predicate Consistent(t: Tile) {
    t & !Spread(Low(t)) == 0
  }

  lemma FourBitTileIsConsistent(t: Tile)
    requires t < 16
    ensures Consistent(t) && t & 0x8000_0000 == 0
  {
  }

  /**
    The as-written rotation of a consistent tile has the masked rotation as its
    low nibble (the high bits only add copies of sides already present).
  */
  lemma RotatePipeConsistentNibble(pipe: Tile, turns: nat)
    requires Consistent(pipe) && turns < 4
    ensures Low(RotatePipe(pipe, turns)) == RotateMasked(Low(pipe), turns)
  {
  }

  /**
    While bit 31 is clear, the as-written rotation keeps the tile consistent.
    Once a rotation carries a bit into bit 31, the next sign-propagating shift
    fills the top bits with ones, and the invariant no longer holds.
  */
  lemma RotatePipeKeepsConsistent(pipe: Tile, turns: nat)
    requires Consistent(pipe) && pipe & 0x8000_0000 == 0 && turns < 4
    ensures Consistent(RotatePipe(pipe, turns))
  {
    if turns == 0 {
      Turn0KeepsConsistent(pipe);
    } else if turns == 1 {
      Turn1KeepsConsistent(pipe);
    } else if turns == 2 {
      Turn2KeepsConsistent(pipe);
    } else {
      Turn3KeepsConsistent(pipe);
    }
  }

  // The bit-level core of the lemma above, one number of turns at a time.

  lemma Turn0KeepsConsistent(p: Tile)
    requires Consistent(p) && p & 0x8000_0000 == 0
    ensures Consistent(RotatePipe(p, 0))
  {
    assert RotatePipe(p, 0) == p | (p >> 4);
  }

  lemma Turn1KeepsConsistent(p: Tile)
    requires Consistent(p) && p & 0x8000_0000 == 0
    ensures Consistent(RotatePipe(p, 1))
  {
    assert RotatePipe(p, 1) == (p << 1) | (p >> 3);
  }

  lemma Turn2KeepsConsistent(p: Tile)
    requires Consistent(p) && p & 0x8000_0000 == 0
    ensures Consistent(RotatePipe(p, 2))
  {
    assert RotatePipe(p, 2) == (p << 2) | (p >> 2);
  }

  lemma Turn3KeepsConsistent(p: Tile)
    requires Consistent(p) && p & 0x8000_0000 == 0
    ensures Consistent(RotatePipe(p, 3))
  {
    assert RotatePipe(p, 3) == (p << 3) | (p >> 1);
  }

  /** The tile after `n` clicks of the same kind, with the as-written rotation. */
  function Clicks(pipe: Tile, turns: nat, n: nat): Tile
    requires turns < 4
    decreases n
  {
    if n == 0 then pipe else Clicks(RotatePipe(pipe, turns), turns, n - 1)
  }

  /** The tile after the same clicks with the masked rotation. */
  function ClicksMasked(pipe: Tile, turns: nat, n: nat): Tile
    requires turns < 4
    decreases n
  {
    if n == 0 then pipe else ClicksMasked(RotateMasked(pipe, turns), turns, n - 1)
  }

  /**
    With the mask, `n` clicks on a four-bit tile rotate it by `turns * n`
    quarter turns, so every fourth click of a kind gives the tile back.
  */
  lemma {:induction false} ClicksMaskedRotateByTotal(pipe: Tile, turns: nat, n: nat)
    requires pipe < 16 && turns < 4
    ensures ClicksMasked(pipe, turns, n) == RotateMasked(pipe, (turns * n) % 4)
    decreases n
  {
    if n == 0 {
      RotateMaskedIsRotate4(pipe, 0);
    } else {
      var p1 := RotateMasked(pipe, turns);
      var k := (turns * (n - 1)) % 4;
      RotateMaskedIsRotate4(pipe, turns);
      assert ClicksMasked(pipe, turns, n) == ClicksMasked(p1, turns, n - 1);
      ClicksMaskedRotateByTotal(p1, turns, n - 1);
      RotateMaskedCompose(pipe, turns, k);
      assert (turns + k) % 4 == (turns * n) % 4 by {
        TurnsAddUp(turns, n);
      }
    }
  }

  lemma TurnsAddUp(turns: nat, n: nat)
    requires n > 0
    ensures (turns + (turns * (n - 1)) % 4) % 4 == (turns * n) % 4
  {
    assert turns * n == turns + turns * (n - 1);
  }

  /**
    Ten left clicks followed by ten right clicks on the corner `0b0011` make
    it `0xFFFFFFFF`, whose low nibble is the cross, although forty quarter
    turns should give the corner back, as the masked rotation does.
  */
  lemma TwentyClicksMakeACross()
    ensures Clicks(Clicks(0x3, 3, 10), 1, 10) == 0xFFFF_FFFF
    ensures BitCount(Clicks(Clicks(0x3, 3, 10), 1, 10)) == 4
  {
    TenLeftClicks();
    TenRightClicks();
    assert BitCount(0xFFFF_FFFF) == 4;
  }

  /** The same twenty clicks with the masked rotation give the corner back. */
  lemma TwentyMaskedClicksRestore()
    ensures ClicksMasked(ClicksMasked(0x3, 3, 10), 1, 10) == 0x3
  {
    ClicksMaskedRotateByTotal(0x3, 3, 10);
    assert ClicksMasked(0x3, 3, 10) == 0xC by {
      RotateMaskedIsRotate4(0x3, 2);
    }
    ClicksMaskedRotateByTotal(0xC, 1, 10);
    RotateMaskedIsRotate4(0xC, 2);
  }

  lemma TenLeftClicks()
    ensures Clicks(0x3, 3, 10) == 0xCCCC_CCCC
  {
    assert Clicks(0x3, 3, 10) == Clicks(0x19, 3, 9) by { assert RotatePipe(0x3, 3) == 0x19; }
    assert Clicks(0x19, 3, 9) == Clicks(0xCC, 3, 8) by { assert RotatePipe(0x19, 3) == 0xCC; }
    assert Clicks(0xCC, 3, 8) == Clicks(0x666, 3, 7) by { assert RotatePipe(0xCC, 3) == 0x666; }
    assert Clicks(0x666, 3, 7) == Clicks(0x3333, 3, 6) by { assert RotatePipe(0x666, 3) == 0x3333; }
    assert Clicks(0x3333, 3, 6) == Clicks(0x1_9999, 3, 5) by { assert RotatePipe(0x3333, 3) == 0x1_9999; }
    assert Clicks(0x1_9999, 3, 5) == Clicks(0xC_CCCC, 3, 4) by { assert RotatePipe(0x1_9999, 3) == 0xC_CCCC; }
    assert Clicks(0xC_CCCC, 3, 4) == Clicks(0x66_6666, 3, 3) by { assert RotatePipe(0xC_CCCC, 3) == 0x66_6666; }
    assert Clicks(0x66_6666, 3, 3) == Clicks(0x333_3333, 3, 2) by { assert RotatePipe(0x66_6666, 3) == 0x333_3333; }
    assert Clicks(0x333_3333, 3, 2) == Clicks(0x1999_9999, 3, 1) by { assert RotatePipe(0x333_3333, 3) == 0x1999_9999; }
    assert Clicks(0x1999_9999, 3, 1) == Clicks(0xCCCC_CCCC, 3, 0) by { assert RotatePipe(0x1999_9999, 3) == 0xCCCC_CCCC; }
  }

  lemma TenRightClicks()
    ensures Clicks(0xCCCC_CCCC, 1, 10) == 0xFFFF_FFFF
  {
    assert Clicks(0xCCCC_CCCC, 1, 10) == Clicks(0xF999_9999, 1, 9) by { assert RotatePipe(0xCCCC_CCCC, 1) == 0xF999_9999; }
    assert Clicks(0xF999_9999, 1, 9) == Clicks(0xFF33_3333, 1, 8) by { assert RotatePipe(0xF999_9999, 1) == 0xFF33_3333; }
    assert Clicks(0xFF33_3333, 1, 8) == Clicks(0xFFE6_6666, 1, 7) by { assert RotatePipe(0xFF33_3333, 1) == 0xFFE6_6666; }
    assert Clicks(0xFFE6_6666, 1, 7) == Clicks(0xFFFC_CCCC, 1, 6) by { assert RotatePipe(0xFFE6_6666, 1) == 0xFFFC_CCCC; }
    assert Clicks(0xFFFC_CCCC, 1, 6) == Clicks(0xFFFF_9999, 1, 5) by { assert RotatePipe(0xFFFC_CCCC, 1) == 0xFFFF_9999; }
    assert Clicks(0xFFFF_9999, 1, 5) == Clicks(0xFFFF_F333, 1, 4) by { assert RotatePipe(0xFFFF_9999, 1) == 0xFFFF_F333; }
    assert Clicks(0xFFFF_F333, 1, 4) == Clicks(0xFFFF_FE66, 1, 3) by { assert RotatePipe(0xFFFF_F333, 1) == 0xFFFF_FE66; }
    assert Clicks(0xFFFF_FE66, 1, 3) == Clicks(0xFFFF_FFCC, 1, 2) by { assert RotatePipe(0xFFFF_FE66, 1) == 0xFFFF_FFCC; }
    assert Clicks(0xFFFF_FFCC, 1, 2) == Clicks(0xFFFF_FFF9, 1, 1) by { assert RotatePipe(0xFFFF_FFCC, 1) == 0xFFFF_FFF9; }
    assert Clicks(0xFFFF_FFF9, 1, 1) == Clicks(0xFFFF_FFFF, 1, 0) by { assert RotatePipe(0xFFFF_FFF9, 1) == 0xFFFF_FFFF; }
  }

  /**
    `Math.log2(tile & -tile)` is an index of `offset` only when the lowest set
    bit is one of the four sides; otherwise the program has no first exit.
  */
  function LowestSide(t: Tile): (r: Option<Side>)
    ensures r.Some? <==> Low(t) != 0
    ensures r.Some? ==> HasSide(t, r.value)
    ensures r.Some? ==> forall s: Side :: s < r.value ==> !HasSide(t, s)
  {
    if Low(t) == 0 then None
    else if HasSide(t, 0) then Some(0)
    else if HasSide(t, 1) then Some(1)
    else if HasSide(t, 2) then Some(2)
    else Some(3)
  }

  /** The lowest side is the bit that `tile & -tile` isolates. */
  lemma LowestSideIsLowestBit(t: Tile)
    requires LowestSide(t).Some?
    ensures t & -t == Bit(LowestSide(t).value)
  {
    if t & 1 != 0 {
    } else if t & 2 != 0 {
    } else if t & 4 != 0 {
    } else {
    }
  }
}
