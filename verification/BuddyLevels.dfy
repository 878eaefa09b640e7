/** The levels and addresses that the kernel's buddy allocator computes for the blocks of its tree. */
module BuddyLevels {
  import opened Arithmetic

  const TREE_DEPTH := 16
  const TREE_SIZE := 0x1_ffff
  const TWO32 := 0x1_0000_0000

  /** 2^16 pages of 4096 bytes. */
  const REGION := 0x1000_0000

  // ---------- the tree

  /** Block x of level l has the two blocks 2 * x + 1 and 2 * x + 2 of the next level as its halves. */
  function Level(x: nat): nat {
    if x == 0 then 0 else 1 + Level((x - 1) / 2)
  }

  /** The blocks of a level stand one behind the other. */
  lemma {:induction false} LevelRange(x: nat)
    ensures Pow2(Level(x)) <= x + 1 < 2 * Pow2(Level(x))
  {
    if x > 0 {
      LevelRange((x - 1) / 2);
    }
  }

  lemma {:induction false} Pow2Monotone(a: nat, b: nat)
    requires a <= b
    ensures Pow2(a) <= Pow2(b)
  {
    if a < b {
      Pow2Monotone(a, b - 1);
    }
  }

  lemma Powers()
    ensures Pow2(11) == 0x800 && Pow2(16) == 0x1_0000 && Pow2(17) == 0x2_0000 && Pow2(28) == REGION
  {
    assert Pow2(4) == 16;
    Pow2Add(4, 4);
    Pow2Add(8, 3);
    Pow2Add(8, 8);
    Pow2Add(16, 1);
    Pow2Add(16, 8);
    Pow2Add(24, 4);
  }

  lemma DeepestLevel(x: nat)
    requires x < TREE_SIZE
    ensures Level(x) <= TREE_DEPTH
  {
    LevelRange(x);
    if Level(x) > TREE_DEPTH {
      Pow2Monotone(17, Level(x));
      Powers();
      assert false;
    }
  }

  // ---------- what the allocator computes

  /** Thirty-two minus the number of leading zeros. */
  function Log2ui(bits: nat): nat {
    if bits == 0 then 0 else 1 + Log2ui(bits / 2)
  }

  function GetLevel(x: nat): nat {
    Log2ui(x + 1)
  }

  /** The logarithm counts one bit too many, and so every level is one too high. */
  lemma {:induction false} GetLevelIs(x: nat)
    ensures GetLevel(x) == Level(x) + 1
  {
    if x > 0 {
      GetLevelIs((x - 1) / 2);
      assert (x + 1) / 2 == (x - 1) / 2 + 1;
    }
  }

  function BlockSize(level: nat): int
    requires level <= TREE_DEPTH + 12
  {
    Pow2(TREE_DEPTH + 12 - level)
  }

  /** In 32 bits. */
  function GetIndex(x: nat, level: nat): nat {
    (x + 1 - Pow2(level)) % TWO32
  }

  /** The distance of a block's address from the start of the region. */
  function AddressOffset(x: nat): int
    requires x < TREE_SIZE
  {
    DeepestLevel(x);
    GetLevelIs(x);
    GetIndex(x, GetLevel(x)) * BlockSize(GetLevel(x))
  }

  /** Where the block starts. */
  function BlockOffset(x: nat): int
    requires x < TREE_SIZE
  {
    DeepestLevel(x);
    LevelRange(x);
    (x + 1 - Pow2(Level(x))) * BlockSize(Level(x))
  }

  /** Every block lies inside the region, and every address computed for a block lies behind it. */
  lemma AddressOutside(x: nat)
    requires x < TREE_SIZE
    ensures Level(x) <= TREE_DEPTH && BlockOffset(x) + BlockSize(Level(x)) <= REGION <= AddressOffset(x)
  {
    DeepestLevel(x);
    LevelRange(x);
    GetLevelIs(x);
    hide Log2ui, Level, Pow2;
    var l := Level(x);
    Inside(x + 1 - Pow2(l), l);
    Outside(x, l);
  }

  lemma Inside(i: nat, l: nat)
    requires l <= TREE_DEPTH && i < Pow2(l)
    ensures i * BlockSize(l) + BlockSize(l) <= REGION
  {
    hide Pow2;
    Powers();
    Pow2Add(l, 28 - l);
    MulMonotone(Pow2(l), i + 1, BlockSize(l));
    assert (i + 1) * BlockSize(l) == i * BlockSize(l) + BlockSize(l);
  }

  lemma Outside(x: nat, l: nat)
    requires l <= TREE_DEPTH && x + 1 < 2 * Pow2(l) && Pow2(l) <= x + 1
    ensures GetIndex(x, l + 1) * BlockSize(l + 1) >= REGION
  {
    assert Pow2(l + 1) == 2 * Pow2(l);
    Powers();
    Pow2Monotone(l, 16);
    Pow2Monotone(11, 27 - l);
    hide Pow2;
    WrappedIndex(x, l);
    Product(GetIndex(x, l + 1), BlockSize(l + 1));
  }

  lemma Product(a: nat, b: nat)
    requires a >= TWO32 - 0x1_0000 && b >= 0x800
    ensures a * b >= REGION
  {
    MulMonotone(a, TWO32 - 0x1_0000, b);
  }

  lemma WrappedIndex(x: nat, l: nat)
    requires Pow2(l) <= x + 1 < Pow2(l + 1) <= 0x2_0000 && Pow2(l + 1) == 2 * Pow2(l)
    ensures GetIndex(x, l + 1) >= TWO32 - 0x1_0000
  {
    hide Pow2;
    DivModUnique(x + 1 - Pow2(l + 1), TWO32, -1, x + 1 - Pow2(l + 1) + TWO32);
  }

  /** For 2^k pages the search starts with blocks of twice as many, and for the whole region in front of the lists. */
  lemma {:induction false} StartLevel(k: nat)
    ensures TREE_DEPTH - Log2ui(Pow2(k)) == TREE_DEPTH - k - 1
  {
    if k > 0 {
      StartLevel(k - 1);
    }
  }
}
