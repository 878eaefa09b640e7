/** Order in an AVL tree: what searching needs, what inserting keeps, and how the kernel compares its memory regions. */
module AvlOrder {
  import opened Machine
  import opened AvlTrees

  /** Less than, equal to or greater than, by the sign. */
  type Comparison = (Word, Word) -> int

  ghost predicate Sorted(cmp: Comparison, s: seq<Word>) {
    forall i, j :: 0 <= i < j < |s| ==> cmp(s[i], s[j]) < 0
  }

  /** What a comparison must keep on the nodes of a tree and a new one; comparing equal need not be transitive. */
  ghost predicate Ordering(cmp: Comparison, xs: set<Word>) {
    && (forall x, y :: x in xs && y in xs ==> (cmp(x, y) < 0 <==> cmp(y, x) > 0))
    && (forall x, y, z :: x in xs && y in xs && z in xs && cmp(x, y) < 0 && cmp(y, z) < 0 ==> cmp(x, z) < 0)
  }

  /** What is searched for compares greater with the nodes at the front, less with those at the end, and equal in between. */
  ghost predicate Falling(key: Word -> int, s: seq<Word>) {
    forall i, j :: 0 <= i < j < |s| ==> (key(s[i]) < 0 ==> key(s[j]) < 0) && (key(s[j]) > 0 ==> key(s[i]) > 0)
  }

  function Against(cmp: Comparison, x: Word): Word -> int {
    (y: Word) => cmp(x, y)
  }

  lemma SortedFalls(cmp: Comparison, s: seq<Word>, xs: set<Word>, x: Word)
    requires Sorted(cmp, s) && Ordering(cmp, xs) && x in xs && forall y :: y in s ==> y in xs
    ensures Falling(Against(cmp, x), s)
  {
    forall i, j | 0 <= i < j < |s|
      ensures Against(cmp, x)(s[i]) < 0 ==> Against(cmp, x)(s[j]) < 0
      ensures Against(cmp, x)(s[j]) > 0 ==> Against(cmp, x)(s[i]) > 0
    {
      assert s[i] in xs && s[j] in xs && cmp(s[i], s[j]) < 0;
    }
  }

  // ---------- searching

  /** The nodes before the hole compare below what is searched for, and those behind it above. */
  ghost predicate Splits(key: Word -> int, c: Context) {
    (forall y :: y in Before(c) ==> key(y) > 0) && (forall y :: y in After(c) ==> key(y) < 0)
  }

  lemma SearchStep(key: Word -> int, c: Context, t: Tree, s: Side)
    requires t.Node? && Falling(key, Before(c) + InOrder(t) + After(c)) && Splits(key, c)
    requires if s.Left? then key(t.at) < 0 else key(t.at) > 0
    ensures Splits(key, Under(s, t.at, t.bal, Child(t, s.Other()), c))
  {
    Middle(key, Before(c), InOrder(t.left), t.at, InOrder(t.right), After(c));
  }

  lemma Middle(key: Word -> int, b: seq<Word>, l: seq<Word>, x: Word, r: seq<Word>, a: seq<Word>)
    requires Falling(key, b + (l + [x] + r) + a)
    ensures key(x) > 0 ==> forall y :: y in l ==> key(y) > 0
    ensures key(x) < 0 ==> forall y :: y in r ==> key(y) < 0
  {
    var all, m := b + (l + [x] + r) + a, |b| + |l|;
    assert all[m] == x;
    forall y | y in l && key(x) > 0
      ensures key(y) > 0
    {
      var i :| 0 <= i < |l| && l[i] == y;
      assert all[|b| + i] == y;
    }
    forall y | y in r && key(x) < 0
      ensures key(y) < 0
    {
      var i :| 0 <= i < |r| && r[i] == y;
      assert all[m + 1 + i] == y;
    }
  }

  /** At the end of a search without a result nothing compares equal. */
  lemma SearchedAll(key: Word -> int, c: Context)
    requires Splits(key, c)
    ensures forall y :: y in Before(c) + After(c) ==> key(y) != 0
  {
  }

  // ---------- inserting

  /** The sequence s' is s with x at position k. */
  ghost predicate InsertedAt(s: seq<Word>, s': seq<Word>, x: Word, k: nat) {
    k <= |s| && s' == s[..k] + [x] + s[k..]
  }

  /** And x compares greater with what is in front of it, less with what is behind it. */
  ghost predicate Placed(key: Word -> int, s: seq<Word>, k: nat) {
    && k <= |s| && (forall i :: 0 <= i < k ==> key(s[i]) > 0) && (forall i :: k <= i < |s| ==> key(s[i]) < 0)
  }

  lemma PlacedAt(key: Word -> int, c: Context, x: Word)
    ensures InsertedAt(Before(c) + After(c), Before(c) + [x] + After(c), x, |Before(c)|)
    ensures Splits(key, c) ==> Placed(key, Before(c) + After(c), |Before(c)|)
  {
    var s := Before(c) + After(c);
    assert s[..|Before(c)|] == Before(c) && s[|Before(c)|..] == After(c);
  }

  /** A new node in its place keeps the order. */
  lemma InsertKeepsSorted(cmp: Comparison, s: seq<Word>, s': seq<Word>, x: Word, k: nat, xs: set<Word>)
    requires Sorted(cmp, s) && Ordering(cmp, xs) && x in xs && (forall y :: y in s ==> y in xs)
    requires InsertedAt(s, s', x, k) && Placed(Against(cmp, x), s, k)
    ensures Sorted(cmp, s')
  {
    forall i, j | 0 <= i < j < |s'|
      ensures cmp(s'[i], s'[j]) < 0
    {
      WithAt(s, x, k, i);
      WithAt(s, x, k, j);
      if i == k {
        assert Against(cmp, x)(s[j - 1]) < 0;
      } else if j == k {
        assert Against(cmp, x)(s[i]) > 0 && s[i] in xs;
      }
    }
  }

  lemma WithAt(s: seq<Word>, x: Word, k: nat, i: nat)
    requires k <= |s| && i <= |s|
    ensures (s[..k] + [x] + s[k..])[i] == if i < k then s[i] else if i == k then x else s[i - 1]
  {
  }

  lemma RemoveKeepsSorted(cmp: Comparison, s: seq<Word>, s': seq<Word>, x: Word)
    requires Sorted(cmp, s) && Removed(s, s', x)
    ensures Sorted(cmp, s')
  {
    var k :| 0 <= k < |s| && s[k] == x && s' == s[..k] + s[k + 1..];
    forall i, j | 0 <= i < j < |s'|
      ensures cmp(s'[i], s'[j]) < 0
    {
      WithoutAt(s, k, i);
      WithoutAt(s, k, j);
    }
  }

  lemma WithoutAt(s: seq<Word>, k: nat, i: nat)
    requires k < |s| && i + 1 < |s|
    ensures (s[..k] + s[k + 1..])[i] == s[if i < k then i else i + 1]
  {
  }

  // ---------- memory regions

  /** A region's size is in pages, in 32 bits, and its address in bytes. */
  type ValidRegion = r: Region | r.Valid() witness Region(0, 0)

  datatype Region = Region(address: Word, extent: int) {
    predicate Valid() {
      0 <= extent < 0x1_0000_0000
    }

    /** The sum that the comparison forms wraps at 64 bits. */
    function Sum(): Word
      requires Valid()
    {
      if address + extent < TWO64 then address + extent else address + extent - TWO64
    }

    ghost predicate NoWrap() {
      Valid() && address + extent < TWO64
    }

    /** The first byte behind the pages of the region. */
    function End(): int {
      address + 4096 * extent
    }
  }

  function CompareRegions(r1: ValidRegion, r2: ValidRegion): int
  {
    (if r1.Sum() < r2.address then -1 else 0) + (if r2.Sum() < r1.address then 1 else 0)
  }

  function CompareAddress(address: Word, r: ValidRegion): int {
    (if address < r.address then -1 else 0) + (if address > r.address then 1 else 0)
  }

  function RegionOrder(region: Word -> ValidRegion): Comparison {
    (x: Word, y: Word) => CompareRegions(region(x), region(y))
  }

  function AddressKey(address: Word, region: Word -> ValidRegion): Word -> int {
    (x: Word) => CompareAddress(address, region(x))
  }

  /** Regions are ordered as insertion needs, wrapping sums included. */
  lemma RegionsOrdered(region: Word -> ValidRegion, xs: set<Word>)
    ensures Ordering(RegionOrder(region), xs)
  {
    forall x, y, z | RegionOrder(region)(x, y) < 0 && RegionOrder(region)(y, z) < 0
      ensures RegionOrder(region)(x, z) < 0
    {
      RegionsTransitive(region(x), region(y), region(z));
    }
  }

  lemma RegionsTransitive(r1: ValidRegion, r2: ValidRegion, r3: ValidRegion)
    requires CompareRegions(r1, r2) < 0 && CompareRegions(r2, r3) < 0
    ensures CompareRegions(r1, r3) < 0
  {
  }

  /** A search for a region among sorted ones is a falling one, so that insertion finds it a place or one that compares equal. */
  lemma RegionsFall(region: Word -> ValidRegion, s: seq<Word>, x: Word)
    requires Sorted(RegionOrder(region), s)
    ensures Falling(Against(RegionOrder(region), x), s)
  {
    var xs := (set y | y in s) + {x};
    RegionsOrdered(region, xs);
    SortedFalls(RegionOrder(region), s, xs, x);
  }

  /** And behind an insertion they are sorted again. */
  lemma RegionsStaySorted(region: Word -> ValidRegion, s: seq<Word>, s': seq<Word>, x: Word, k: nat)
    requires Sorted(RegionOrder(region), s) && InsertedAt(s, s', x, k) && Placed(Against(RegionOrder(region), x), s, k)
    ensures Sorted(RegionOrder(region), s')
  {
    var xs := (set y | y in s) + {x};
    RegionsOrdered(region, xs);
    InsertKeepsSorted(RegionOrder(region), s, s', x, k, xs);
  }

  /** Regions compare equal exactly when neither starts behind the other's sum, or each does. */
  lemma CompareEqualIff(r1: ValidRegion, r2: ValidRegion)
    ensures CompareRegions(r1, r2) == 0 <==> (r1.Sum() < r2.address <==> r2.Sum() < r1.address)
    ensures r1.NoWrap() && r2.NoWrap() ==>
              (CompareRegions(r1, r2) == 0 <==> r1.address <= r2.Sum() && r2.address <= r1.Sum())
  {
  }

  /** Without wrapping, looking up an address in their order works, and finds the region that starts there. */
  lemma AddressesFall(region: Word -> ValidRegion, s: seq<Word>, address: Word)
    requires Sorted(RegionOrder(region), s) && forall x :: x in s ==> region(x).NoWrap()
    ensures Falling(AddressKey(address, region), s)
    ensures forall x :: AddressKey(address, region)(x) == 0 <==> region(x).address == address
  {
    forall i, j | 0 <= i < j < |s|
      ensures region(s[i]).address < region(s[j]).address
    {
      assert RegionOrder(region)(s[i], s[j]) < 0 && s[i] in s;
    }
  }

  /** A region whose sum wraps can come before one with a lower address. */
  lemma WrappedOutOfOrder()
    ensures var r1, r2 := Region(TWO64 - 2, 5), Region(TWO64 - 10, 9);
            r1.Valid() && r2.Valid() && CompareRegions(r1, r2) < 0 && r1.address > r2.address
  {
  }

  ghost predicate PagesOverlap(r1: Region, r2: Region) {
    r1.address < r2.End() && r2.address < r1.End()
  }

  /**
   The comparison takes the page counts for byte counts: regions whose pages overlap compare as different, so that both are
   accepted, exactly when one starts behind the other's sum and in front of its end.
   */
  lemma OverlapUnseenIff(r1: ValidRegion, r2: ValidRegion)
    requires r1.NoWrap() && r2.NoWrap()
    ensures PagesOverlap(r1, r2) && CompareRegions(r1, r2) != 0
       <==> r1.Sum() < r2.address < r1.End() || r2.Sum() < r1.address < r2.End()
  {
  }
}
