/**
 A bound, computable before paging starts, on the pages that the page tables of a list of contiguous ranges take.
 */
module Budget {
  import opened Arithmetic
  import opened Machine
  import opened PageTables
  import opened Paging
  import opened Runs

  /** `pages` consecutive pages from `virt` on, mapped to consecutive frames from `phys` on. */
  datatype Range = Range(phys: Word, virt: Word, pages: nat)

  function PhysAt(r: Range, k: nat): Word {
    Add64(r.phys, k * 4096 % TWO64)
  }

  function VirtAt(r: Range, k: nat): Word {
    Add64(r.virt, k * 4096 % TWO64)
  }

  function RangeRequests(r: Range): (reqs: seq<Request>)
    ensures |reqs| == r.pages
  {
    seq(r.pages, k requires 0 <= k => Request(PhysAt(r, k), VirtAt(r, k)))
  }

  /** The requests of several ranges, one range after the other. */
  function Flatten(ranges: seq<Range>): seq<Request> {
    if ranges == [] then []
    else Flatten(ranges[..|ranges| - 1]) + RangeRequests(ranges[|ranges| - 1])
  }

  /** Tables at one depth, for n consecutive pages when a table entry at that depth covers `span` pages. */
  function LevelBound(n: nat, span: nat): nat
    requires span > 0
  {
    if n == 0 then 0 else (n + span - 2) / span + 1
  }

  function RangeBound(n: nat): nat {
    LevelBound(n, 0x800_0000) + LevelBound(n, 0x4_0000) + LevelBound(n, 512)
  }

  function TableBudget(ranges: seq<Range>): nat {
    if ranges == [] then 0
    else TableBudget(ranges[..|ranges| - 1]) + RangeBound(ranges[|ranges| - 1].pages)
  }

  /** Byte addresses wrap at 2^64, page numbers at 2^52, so what is kept of a page number does not see the wrap. */
  lemma PageOfWrapped(base: Word, k: nat)
    ensures Add64(base, k * 4096 % TWO64) / 4096 == (base / 4096 + k) % 0x10_0000_0000_0000
  {
    WrapAdd(base, k * 4096, TWO64);
    WrapDiv(base + k * 4096, 4096, 0x10_0000_0000_0000);
    AddMultiple(base, k, 4096);
  }

  /** Virtual page numbers of a range count up from the first, wrapping at 2^36. */
  lemma RangePage(r: Range, k: nat)
    ensures VpnOfAddress(VirtAt(r, k)) == (r.virt / 4096 + k) % 0x10_0000_0000
  {
    PageOfWrapped(r.virt, k);
    WrapWrap(r.virt / 4096 + k, 0x10_0000_0000, 0x1_0000);
  }

  lemma RangeFrame(r: Range, k: nat)
    ensures FrameOfAddress(PhysAt(r, k)) == (r.phys / 4096 + k) % 0x100_0000_0000
  {
    PageOfWrapped(r.phys, k);
    WrapWrap(r.phys / 4096 + k, 0x100_0000_0000, 0x1000);
  }

  /** The tables at `depth` on the way to a set of pages. */
  ghost function Level(vpns: set<Vpn>, depth: nat): set<Node>
    requires 1 <= depth <= 3
  {
    set v | v in vpns :: PathNode(v, depth)
  }

  lemma TablesByLevel(vpns: set<Vpn>)
    ensures Tables(vpns) == {Node(0, 0)} + Level(vpns, 1) + Level(vpns, 2) + Level(vpns, 3)
  {
    forall x | x in Tables(vpns)
      ensures x in {Node(0, 0)} + Level(vpns, 1) + Level(vpns, 2) + Level(vpns, 3)
    {
      if x != Node(0, 0) {
        var v: Vpn, k: nat :| v in vpns && 1 <= k <= 3 && x == PathNode(v, k);
        assert x in Level(vpns, k);
      }
    }
    forall k: nat, x | 1 <= k <= 3 && x in Level(vpns, k)
      ensures x in Tables(vpns)
    {
    }
  }

  lemma SizeMonotone<T>(a: set<T>, b: set<T>)
    requires a <= b
    ensures |a| <= |b|
  {
    assert b == a + (b - a);
  }

  /** A set covered by the images of lo..hi - 1 has at most hi - lo members. */
  lemma {:induction false} CoveredByInterval<T>(s: set<T>, f: int -> T, lo: int, hi: int)
    requires lo <= hi
    requires forall x :: x in s ==> exists t :: lo <= t < hi && f(t) == x
    ensures |s| <= hi - lo
    decreases hi - lo
  {
    if lo < hi {
      CoveredByInterval(s - {f(hi - 1)}, f, lo, hi - 1);
      SizeMonotone(s, (s - {f(hi - 1)}) + {f(hi - 1)});
    }
  }

  /** Pages covered by one table entry at `depth`. */
  function Span(depth: nat): (d: nat)
    requires 1 <= depth <= 3
    ensures 0 < d <= 0x800_0000
  {
    if depth == 1 then 0x800_0000 else if depth == 2 then 0x4_0000 else 512
  }

  lemma PrefixOfWrapped(x: nat, depth: nat)
    requires 1 <= depth <= 3
    ensures Prefix(x % 0x10_0000_0000, depth) == x / Span(depth) % (0x10_0000_0000 / Span(depth))
  {
    WrapDiv(x, 0x800_0000, 512);
    WrapDiv(x, 0x4_0000, 0x4_0000);
    WrapDiv(x, 512, 0x800_0000);
  }

  /** The entries that n pages from q on use at one depth, before wrapping: an interval no longer than LevelBound. */
  lemma EntryInterval(q: nat, n: nat, depth: nat)
    requires 1 <= depth <= 3 && n > 0
    ensures 0 <= (q + n - 1) / Span(depth) + 1 - q / Span(depth) <= LevelBound(n, Span(depth))
  {
  }

  lemma EntryInInterval(q: nat, n: nat, k: nat, depth: nat)
    requires 1 <= depth <= 3 && k < n
    ensures q / Span(depth) <= (q + k) / Span(depth) < (q + n - 1) / Span(depth) + 1
  {
  }

  /** A range of n pages touches at most LevelBound(n) tables of each depth. */
  lemma LevelOfRange(r: Range, depth: nat)
    requires 1 <= depth <= 3
    ensures |Level(Pages(RangeRequests(r)), depth)| <= LevelBound(r.pages, Span(depth))
  {
    hide Span, LevelBound, Prefix, VpnOfAddress, VirtAt, PhysAt;
    var level := Level(Pages(RangeRequests(r)), depth);
    if r.pages > 0 {
      var q := r.virt / 4096;
      var f := (t: int) => Node(depth, t % (0x10_0000_0000 / Span(depth)));
      var lo, hi := q / Span(depth), (q + r.pages - 1) / Span(depth) + 1;
      forall x | x in level
        ensures exists t :: lo <= t < hi && f(t) == x
      {
        var k: nat :| k < r.pages && x == PathNode(RangeRequests(r)[k].Page(), depth);
        RangePage(r, k);
        PrefixOfWrapped(q + k, depth);
        EntryInInterval(q, r.pages, k, depth);
        assert f((q + k) / Span(depth)) == x;
      }
      EntryInterval(q, r.pages, depth);
      CoveredByInterval(level, f, lo, hi);
    } else {
      assert level == {};
    }
  }

  /** Adding a contiguous range to any map adds at most RangeBound tables. */
  lemma RangeNeed(vpns: set<Vpn>, r: Range)
    ensures Need(vpns, RangeRequests(r)) <= RangeBound(r.pages)
  {
    var p := Pages(RangeRequests(r));
    var a, b, c := Level(p, 1), Level(p, 2), Level(p, 3);
    TablesByLevel(vpns);
    TablesByLevel(vpns + p);
    forall depth: nat | 1 <= depth <= 3
      ensures Level(vpns + p, depth) == Level(vpns, depth) + Level(p, depth)
    {
    }
    SizeMonotone(Tables(vpns + p), Tables(vpns) + (a + b + c));
    LevelOfRange(r, 1);
    LevelOfRange(r, 2);
    LevelOfRange(r, 3);
  }

  lemma PagesAppend(a: seq<Request>, b: seq<Request>)
    ensures Pages(a + b) == Pages(a) + Pages(b)
  {
    forall q | q in b
      ensures q in a + b
    {
    }
  }

  /** The budget bounds the tables that any list of ranges needs. */
  lemma {:induction false} BudgetSuffices(vpns: set<Vpn>, ranges: seq<Range>)
    ensures Need(vpns, Flatten(ranges)) <= TableBudget(ranges)
    decreases |ranges|
  {
    hide Tables, RangeRequests, RangeBound;
    if ranges == [] {
      assert vpns + Pages([]) == vpns;
    } else {
      var front, last := ranges[..|ranges| - 1], ranges[|ranges| - 1];
      BudgetSuffices(vpns, front);
      PagesAppend(Flatten(front), RangeRequests(last));
      RangeNeed(vpns + Pages(Flatten(front)), last);
      assert vpns + (Pages(Flatten(front)) + Pages(RangeRequests(last))) == vpns + Pages(Flatten(front)) + Pages(RangeRequests(last));
    }
  }
}
