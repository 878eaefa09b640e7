/** UnpackDevicePath: nodes padded so that each starts on an aligned offset. */
module DevicePathUnpack {
  import opened DevicePaths
  import opened DevicePathOps

  const MIN_ALIGNMENT_SIZE := 4
  const TYPE_UNPACKED := 0x80

  function AlignSize(n: nat): nat {
    if n % MIN_ALIGNMENT_SIZE != 0 then MIN_ALIGNMENT_SIZE - n % MIN_ALIGNMENT_SIZE else 0
  }

  function Rounded(n: nat): (r: nat)
    ensures n <= r < n + MIN_ALIGNMENT_SIZE && r % MIN_ALIGNMENT_SIZE == 0
  {
    n + AlignSize(n)
  }

  function Zeros(n: nat): (z: seq<Byte>)
    ensures |z| == n && forall k :: 0 <= k < n ==> z[k] == 0
  {
    seq(n, _ => 0 as Byte)
  }

  /** The node with its data padded and its type marked. */
  function Padded(n: Node): Node {
    Node(n.typ % 128 + TYPE_UNPACKED, n.sub, n.data + Zeros(AlignSize(n.Length())))
  }

  function PaddedAll(nodes: seq<Node>): (r: seq<Node>)
    ensures |r| == |nodes| && forall k :: 0 <= k < |nodes| ==> r[k] == Padded(nodes[k])
  {
    seq(|nodes|, k requires 0 <= k < |nodes| => Padded(nodes[k]))
  }

  /** The bytes the second pass leaves for a node: the length field keeps the low 16 bits of the padded length. */
  function PaddedBytes(n: Node): (b: seq<Byte>)
    requires n.Valid()
    ensures |b| == Rounded(n.Length())
  {
    var size := Rounded(n.Length());
    [n.typ % 128 + TYPE_UNPACKED, n.sub, size % 256, size / 256 % 256] + n.data + Zeros(AlignSize(n.Length()))
  }

  function Unpacked(nodes: seq<Node>): seq<Byte>
    requires AllValid(nodes)
  {
    if nodes == [] then [] else PaddedBytes(nodes[0]) + Unpacked(nodes[1..])
  }

  lemma {:induction false} UnpackedAppend(a: seq<Node>, b: seq<Node>)
    requires AllValid(a) && AllValid(b)
    ensures AllValid(a + b) && Unpacked(a + b) == Unpacked(a) + Unpacked(b)
  {
    hide PaddedBytes;
    if a == [] {
      assert a + b == b;
    } else {
      AppendFirst(a, b);
      UnpackedAppend(a[1..], b);
      AppendAssociative(PaddedBytes(a[0]), Unpacked(a[1..]), Unpacked(b));
    }
  }

  /** Bytes of the first i padded nodes. */
  function PaddedOffset(nodes: seq<Node>, i: nat): nat
    requires AllValid(nodes) && i <= |nodes|
  {
    |Unpacked(nodes[..i])|
  }

  lemma UnpackedNext(nodes: seq<Node>, i: nat)
    requires AllValid(nodes) && i < |nodes|
    ensures Unpacked(nodes[..i + 1]) == Unpacked(nodes[..i]) + PaddedBytes(nodes[i])
    ensures PaddedOffset(nodes, i + 1) == PaddedOffset(nodes, i) + Rounded(nodes[i].Length()) <= |Unpacked(nodes)|
  {
    hide PaddedBytes, Unpacked;
    SplitAround(nodes, i);
    UnpackedOne(nodes[i]);
    UnpackedAppend(nodes[..i], [nodes[i]]);
    UnpackedAppend(nodes[..i] + [nodes[i]], nodes[i + 1..]);
  }

  lemma UnpackedOne(n: Node)
    requires n.Valid()
    ensures Unpacked([n]) == PaddedBytes(n)
  {
    assert [n][1..] == [];
  }

  /** The first pass, which aligns the running total. */
  method PaddedSize(b: array<Byte>, ghost path: seq<Node>) returns (size: nat)
    requires Holds(b[..], path)
    ensures AllValid(path) && size == |Unpacked(path)| && size % MIN_ALIGNMENT_SIZE == 0
  {
    hide Encode, Unpacked, WellFormed;
    WellFormedIs(b[..], path);
    var src := 0;
    size := 0;
    ghost var k := 0;
    Start(path);
    while true
      invariant k < |path| && src == Offset(path, k)
      invariant size == PaddedOffset(path, k) && size % MIN_ALIGNMENT_SIZE == 0
      decreases |path| - k
    {
      NodeAt(b[..], path, k);
      UnpackedNext(path, k);
      EndIsLast(path, k);
      SumRounded(size, path[k].Length());
      size := size + LengthField(b[..], src);
      size := size + AlignSize(size);
      k := k + 1;
      if b[src] % 128 == END_DEVICE_PATH_TYPE && b[src + 1] == END_ENTIRE_SUBTYPE {
        break;
      }
      src := src + LengthField(b[..], src);
    }
    assert path[..|path|] == path;
  }

  lemma WellFormedIs(b: seq<Byte>, path: seq<Node>)
    requires Holds(b, path)
    ensures WellFormed(path) && AllValid(path) && path != []
  {
  }

  lemma Start(path: seq<Node>)
    requires AllValid(path)
    ensures Offset(path, 0) == 0 && PaddedOffset(path, 0) == 0 && Unpacked(path[..0]) == []
  {
  }

  /** Aligning the total is aligning each node. */
  lemma SumRounded(total: nat, n: nat)
    requires total % MIN_ALIGNMENT_SIZE == 0
    ensures total + n + AlignSize(total + n) == total + Rounded(n)
    ensures (total + Rounded(n)) % MIN_ALIGNMENT_SIZE == 0
  {
  }

  /** One round of the second pass. */
  method UnpackNode(r: array<Byte>, dest: nat, b: array<Byte>, src: nat, ghost n: Node) returns (size: nat)
    requires r != b && n.Valid() && dest + Rounded(n.Length()) <= r.Length && src + n.Length() <= b.Length
    requires b[src..src + n.Length()] == n.Bytes()
    requires forall j :: dest <= j < r.Length ==> r[j] == 0
    modifies r
    ensures size == Rounded(n.Length())
    ensures r[..dest + size] == old(r[..dest]) + PaddedBytes(n)
    ensures forall j :: dest + size <= j < r.Length ==> r[j] == 0
  {
    HeaderOf(b[..], src, n);
    size := LengthField(b[..], src);
    ghost var was := r[..];
    CopyMem(r, dest, b, src, size);
    ghost var copied := r[..];
    Copied(was, copied, dest, n);
    size := size + AlignSize(size);
    r[dest + 2] := size % 256;
    r[dest + 3] := size / 256 % 256;
    r[dest] := r[dest] % 128 + TYPE_UNPACKED;
    Rewritten(was, copied, r[..], dest, n);
  }

  lemma Copied(was: seq<Byte>, copied: seq<Byte>, dest: nat, n: Node)
    requires n.Valid() && dest + n.Length() <= |was| == |copied|
    requires copied[..dest + n.Length()] == was[..dest] + n.Bytes() && copied[dest + n.Length()..] == was[dest + n.Length()..]
    ensures forall j :: 0 <= j < |was| ==>
              copied[j] == if dest <= j < dest + n.Length() then n.Bytes()[j - dest] else was[j]
  {
    hide Node.Bytes;
    var end := dest + n.Length();
    forall j | 0 <= j < |was|
      ensures copied[j] == if dest <= j < end then n.Bytes()[j - dest] else was[j]
    {
      if j < end {
        assert copied[j] == copied[..end][j] == (was[..dest] + n.Bytes())[j];
      } else {
        assert copied[j] == copied[end..][j - end] == was[end..][j - end];
      }
    }
  }

  lemma Rewritten(was: seq<Byte>, copied: seq<Byte>, r: seq<Byte>, dest: nat, n: Node)
    requires n.Valid() && |was| == |copied| == |r| && dest + Rounded(n.Length()) <= |was|
    requires forall j :: dest <= j < |was| ==> was[j] == 0
    requires forall j :: 0 <= j < |was| ==>
               copied[j] == if dest <= j < dest + n.Length() then n.Bytes()[j - dest] else was[j]
    requires var size := Rounded(n.Length());
             r == copied[dest + 2 := size % 256][dest + 3 := size / 256 % 256][dest := copied[dest] % 128 + TYPE_UNPACKED]
    ensures r[..dest + Rounded(n.Length())] == was[..dest] + PaddedBytes(n)
    ensures forall j :: dest + Rounded(n.Length()) <= j < |was| ==> r[j] == 0
  {
    var size := Rounded(n.Length());
    hide Rounded, AlignSize;
    forall j | 0 <= j < dest + size
      ensures r[j] == (was[..dest] + PaddedBytes(n))[j]
    {
    }
  }

  method UnpackDevicePath(b: array<Byte>, ghost path: seq<Node>) returns (r: array<Byte>)
    requires Holds(b[..], path)
    ensures fresh(r) && AllValid(path) && r[..] == Unpacked(path)
  {
    hide Encode, Unpacked, WellFormed, PaddedBytes, Rounded;
    WellFormedIs(b[..], path);
    var total := PaddedSize(b, path);
    r := new Byte[total](_ => 0);
    var src, dest := 0, 0;
    ghost var k := 0;
    Start(path);
    while true
      invariant k < |path| && src == Offset(path, k) && dest == PaddedOffset(path, k) <= r.Length
      invariant r[..dest] == Unpacked(path[..k])
      invariant forall j :: dest <= j < r.Length ==> r[j] == 0
      decreases |path| - k
    {
      NodeAt(b[..], path, k);
      UnpackedNext(path, k);
      EndIsLast(path, k);
      var size := UnpackNode(r, dest, b, src, path[k]);
      dest := dest + size;
      k := k + 1;
      if b[src] % 128 == END_DEVICE_PATH_TYPE && b[src + 1] == END_ENTIRE_SUBTYPE {
        break;
      }
      src := src + LengthField(b[..], src);
    }
    assert path[..|path|] == path;
    assert r[..] == r[..dest];
  }

  // ---------- what the unpacked bytes say

  /** Padded lengths fit the length field. */
  predicate Fits(nodes: seq<Node>) {
    forall k :: 0 <= k < |nodes| ==> nodes[k].Length() <= 0xfffc
  }

  /** A padded node keeps masked type, subtype and payload; a marker stays a marker. */
  lemma PaddedKeeps(n: Node)
    ensures 0x80 <= Padded(n).typ && Padded(n).typ % 128 == n.typ % 128 && Padded(n).sub == n.sub && n.data <= Padded(n).data
    ensures Padded(n).Length() % 4 == 0 && Padded(n).Length() - n.Length() in {0, 1, 2, 3}
    ensures forall k :: |n.data| <= k < |Padded(n).data| ==> Padded(n).data[k] == 0
    ensures Padded(n).Length() == Rounded(n.Length())
    ensures n.data == [] ==> Padded(n).data == []
    ensures n.Length() <= 0xfffc ==> Padded(n).Valid() && Padded(n).Bytes() == PaddedBytes(n)
  {
    FieldFits(n.Length());
    if n.Length() <= 0xfffc {
      AppendAssociative([n.typ % 128 + TYPE_UNPACKED, n.sub, Rounded(n.Length()) % 256, Rounded(n.Length()) / 256], n.data,
                        Zeros(AlignSize(n.Length())));
    }
  }

  lemma FieldFits(n: nat)
    ensures n <= 0xfffc ==> Rounded(n) < 0x1_0000 && Rounded(n) / 256 % 256 == Rounded(n) / 256
    ensures 0xfffc < n < 0x1_0000 ==> Rounded(n) == 0x1_0000
  {
  }

  lemma {:induction false} UnpackedIsEncode(nodes: seq<Node>)
    requires AllValid(nodes) && Fits(nodes)
    ensures AllValid(PaddedAll(nodes)) && Unpacked(nodes) == Encode(PaddedAll(nodes))
  {
    hide Padded, PaddedBytes, Node.Bytes;
    forall k | 0 <= k < |nodes|
      ensures PaddedAll(nodes)[k].Valid()
    {
      PaddedKeeps(nodes[k]);
    }
    if nodes != [] {
      PaddedKeeps(nodes[0]);
      UnpackedIsEncode(nodes[1..]);
      assert PaddedAll(nodes)[1..] == PaddedAll(nodes[1..]);
    }
  }

  lemma PaddedWellFormed(path: seq<Node>)
    requires WellFormed(path) && Fits(path)
    ensures WellFormed(PaddedAll(path))
  {
    hide Padded, Node.Bytes;
    forall k | 0 <= k < |path|
      ensures PaddedAll(path)[k].Valid()
      ensures PaddedAll(path)[k].typ % 128 == path[k].typ % 128 && PaddedAll(path)[k].sub == path[k].sub
      ensures path[k].data == [] ==> PaddedAll(path)[k].data == []
    {
      PaddedKeeps(path[k]);
    }
  }

  /** Every padded node starts on an aligned offset. */
  lemma {:induction false} PaddedAligned(nodes: seq<Node>, i: nat)
    requires AllValid(nodes) && i <= |nodes|
    ensures PaddedOffset(nodes, i) % 4 == 0
  {
    if i == 0 {
      Start(nodes);
    } else {
      hide Unpacked, PaddedBytes, Rounded;
      PaddedAligned(nodes, i - 1);
      UnpackedNext(nodes, i - 1);
      SumRounded(PaddedOffset(nodes, i - 1), nodes[i - 1].Length());
    }
  }

  /** A padded length of 0x10000 leaves zero in the length field, where no path goes on. */
  lemma TooLong(b: seq<Byte>, n: Node, p: seq<Node>)
    requires n.Valid() && n.Length() > 0xfffc && PaddedBytes(n) <= b
    ensures !Holds(b, p)
  {
    FieldFits(n.Length());
    assert PaddedBytes(n)[2] == 0 && PaddedBytes(n)[3] == 0;
    if Holds(b, p) {
      HoldsRest(b, p);
      HeaderOf(b, 0, p[0]);
      assert false;
    }
  }

  /** A padded node that fits is read back, and the walk goes on behind it. */
  lemma ReadBack(b: seq<Byte>, n: Node, p: seq<Node>)
    requires n.Valid() && n.Length() <= 0xfffc && PaddedBytes(n) <= b && !n.End()
    ensures Holds(b, p) ==> |p| > 1 && Holds(b[|PaddedBytes(n)|..], p[1..])
  {
    hide Padded, PaddedBytes, Holds, Node.Bytes, Rounded;
    PaddedKeeps(n);
    if Holds(b, p) {
      HoldsRest(b, p);
      HoldsNonempty(b, p);
      NodeUnique(b, Padded(n), p[0]);
    }
  }

  lemma {:induction false} Unreadable(path: seq<Node>, b: seq<Byte>, p: seq<Node>)
    requires WellFormed(path) && !Fits(path) && Unpacked(path) <= b
    ensures !Holds(b, p)
    decreases |path|
  {
    hide Holds, PaddedBytes, Padded;
    PrefixOfPrefix(b, PaddedBytes(path[0]), Unpacked(path[1..]));
    if path[0].Length() > 0xfffc {
      TooLong(b, path[0], p);
    } else {
      assert !Fits(path[1..]);
      EndIsLast(path, 0);
      ReadBack(b, path[0], p);
      if |p| > 1 {
        Unreadable(path[1..], b[|PaddedBytes(path[0])|..], p[1..]);
      }
    }
  }

  /**
   The unpacked bytes hold the padded path when every length is at most 0xfffc.  Otherwise they hold no path: the first
   node that is too long has zero in its length field.
   */
  lemma UnpackedReadable(path: seq<Node>)
    requires WellFormed(path)
    ensures Fits(path) ==> Holds(Unpacked(path), PaddedAll(path))
    ensures !Fits(path) ==> forall p :: !Holds(Unpacked(path), p)
  {
    hide Encode, Unpacked, PaddedAll;
    if Fits(path) {
      UnpackedIsEncode(path);
      PaddedWellFormed(path);
    } else {
      forall p
        ensures !Holds(Unpacked(path), p)
      {
        Unreadable(path, Unpacked(path), p);
      }
    }
  }
}
