/**
 Device paths: byte strings of variable-length nodes, as a list of nodes and as bytes.
 */
module DevicePaths {
  import Machine

  type Byte = Machine.Byte

  const END_DEVICE_PATH_TYPE: Byte := 0x7f
  const END_ENTIRE_SUBTYPE: Byte := 0xff
  const END_INSTANCE_SUBTYPE: Byte := 0x01

  datatype Node = Node(typ: Byte, sub: Byte, data: seq<Byte>) {
    /** The length field counts the four header bytes. */
    function Length(): nat {
      |data| + 4
    }

    /** The node fits its 16-bit length field. */
    predicate Valid() {
      Length() < 0x1_0000
    }

    predicate EndType() {
      typ % 128 == END_DEVICE_PATH_TYPE
    }

    predicate End() {
      EndType() && sub == END_ENTIRE_SUBTYPE
    }

    function Bytes(): (b: seq<Byte>)
      requires Valid()
      ensures |b| == Length()
    {
      [typ, sub, Length() % 256, Length() / 256] + data
    }
  }

  const END_NODE := Node(END_DEVICE_PATH_TYPE, END_ENTIRE_SUBTYPE, [])
  const END_INSTANCE_NODE := Node(END_DEVICE_PATH_TYPE, END_INSTANCE_SUBTYPE, [])

  predicate AllValid(nodes: seq<Node>) {
    forall k :: 0 <= k < |nodes| ==> nodes[k].Valid()
  }

  function Encode(nodes: seq<Node>): seq<Byte>
    requires AllValid(nodes)
  {
    if nodes == [] then [] else nodes[0].Bytes() + Encode(nodes[1..])
  }

  lemma AppendFirst<T>(a: seq<T>, b: seq<T>)
    requires a != []
    ensures a + b != [] && (a + b)[0] == a[0] && (a + b)[1..] == a[1..] + b
  {
  }

  lemma AppendAssociative<T>(a: seq<T>, b: seq<T>, c: seq<T>)
    ensures a + (b + c) == a + b + c
  {
  }

  lemma {:induction false} EncodeAppend(a: seq<Node>, b: seq<Node>)
    requires AllValid(a) && AllValid(b)
    ensures AllValid(a + b) && Encode(a + b) == Encode(a) + Encode(b)
  {
    hide Node.Bytes;
    if a == [] {
      assert a + b == b;
    } else {
      AppendFirst(a, b);
      EncodeAppend(a[1..], b);
      AppendAssociative(a[0].Bytes(), Encode(a[1..]), Encode(b));
    }
  }

  /** Byte offset of node i. */
  function Offset(nodes: seq<Node>, i: nat): nat
    requires i <= |nodes| && AllValid(nodes)
  {
    |Encode(nodes[..i])|
  }

  /** A complete device path: one or more instances, each closed by an end node of four bytes, the last by the end of it all. */
  ghost predicate WellFormed(path: seq<Node>) {
    && path != [] && AllValid(path)
    && path[|path| - 1].End()
    && (forall i :: 0 <= i < |path| && path[i].EndType() ==> path[i].data == [])
    && (forall i :: 0 <= i < |path| - 1 && path[i].EndType() ==> path[i].sub == END_INSTANCE_SUBTYPE)
  }

  /** A buffer that starts with the bytes of a path. */
  ghost predicate Holds(b: seq<Byte>, path: seq<Node>) {
    WellFormed(path) && Encode(path) <= b
  }

  lemma EncodeThree(before: seq<Node>, n: Node, behind: seq<Node>)
    requires AllValid(before) && n.Valid() && AllValid(behind)
    ensures AllValid(before + [n]) && AllValid(before + [n] + behind)
    ensures Encode(before + [n]) == Encode(before) + n.Bytes()
    ensures Encode(before + [n] + behind) == Encode(before) + n.Bytes() + Encode(behind)
  {
    hide Node.Bytes, Encode;
    EncodeOne(n);
    EncodeAppend(before, [n]);
    EncodeAppend(before + [n], behind);
  }

  lemma EncodeAt(path: seq<Node>, i: nat)
    requires AllValid(path) && i < |path|
    ensures Encode(path) == Encode(path[..i]) + path[i].Bytes() + Encode(path[i + 1..])
    ensures Encode(path[..i + 1]) == Encode(path[..i]) + path[i].Bytes()
  {
    hide Node.Bytes, Encode;
    SplitAround(path, i);
    EncodeThree(path[..i], path[i], path[i + 1..]);
  }

  lemma SplitAround<T>(s: seq<T>, i: nat)
    requires i < |s|
    ensures s[..i + 1] == s[..i] + [s[i]]
    ensures s == s[..i] + [s[i]] + s[i + 1..]
  {
  }

  lemma PrefixSlices(b: seq<Byte>, x: seq<Byte>, y: seq<Byte>, z: seq<Byte>)
    requires x + y + z <= b
    ensures b[..|x|] == x && b[|x|..|x| + |y|] == y
  {
  }

  lemma EncodeOne(n: Node)
    requires n.Valid()
    ensures Encode([n]) == n.Bytes()
  {
    assert [n][1..] == [];
  }

  /** The length field as NextDevicePathNode reads it. */
  function LengthField(b: seq<Byte>, o: nat): nat
    requires o + 4 <= |b|
  {
    (b[o + 2] as int) + 256 * (b[o + 3] as int)
  }

  /** A node's bytes anywhere in a buffer show its header. */
  lemma HeaderOf(b: seq<Byte>, o: nat, n: Node)
    requires n.Valid() && o + n.Length() <= |b| && b[o..o + n.Length()] == n.Bytes()
    ensures b[o] == n.typ && b[o + 1] == n.sub && LengthField(b, o) == n.Length()
  {
    var s := b[o..o + n.Length()];
    assert s[0] == b[o] && s[1] == b[o + 1] && s[2] == b[o + 2] && s[3] == b[o + 3];
  }

  /** What a buffer shows at the offset of node i. */
  lemma NodeAt(b: seq<Byte>, path: seq<Node>, i: nat)
    requires Holds(b, path) && i < |path|
    ensures var o := Offset(path, i);
            && Offset(path, i + 1) == o + path[i].Length() <= |Encode(path)| <= |b|
            && b[..o] == Encode(path[..i])
            && b[o..o + path[i].Length()] == path[i].Bytes()
            && b[o] == path[i].typ && b[o + 1] == path[i].sub && LengthField(b, o) == path[i].Length()
  {
    hide Node.Bytes, LengthField, Encode, WellFormed;
    assert AllValid(path) by { WellFormedValid(path); }
    EncodeAt(path, i);
    PrefixSlices(b, Encode(path[..i]), path[i].Bytes(), Encode(path[i + 1..]));
    HeaderOf(b, Offset(path, i), path[i]);
  }

  lemma WellFormedValid(path: seq<Node>)
    requires WellFormed(path)
    ensures AllValid(path)
  {
  }

  /** The walk cannot end before the last node. */
  lemma EndIsLast(path: seq<Node>, i: nat)
    requires WellFormed(path) && i < |path|
    ensures path[i].End() <==> i == |path| - 1
  {
  }

  // ---------- bytes determine the path

  /** A prefix of a buffer that is a node's bytes. */
  lemma NodeUnique(b: seq<Byte>, n: Node, m: Node)
    requires n.Valid() && m.Valid() && n.Bytes() <= b && m.Bytes() <= b
    ensures n == m
  {
    HeaderOf(b, 0, n);
    HeaderOf(b, 0, m);
    assert n.Bytes() == m.Bytes();
    assert n.data == n.Bytes()[4..] && m.data == m.Bytes()[4..];
  }

  lemma PrefixOfPrefix(b: seq<Byte>, x: seq<Byte>, y: seq<Byte>)
    requires x + y <= b
    ensures x <= b && y <= b[|x|..]
  {
  }

  /** A buffer that holds a path holds the rest of the path behind the first node. */
  lemma HoldsRest(b: seq<Byte>, path: seq<Node>)
    requires Holds(b, path)
    ensures path[0].Valid() && path[0].Bytes() <= b
    ensures path[0].End() <==> |path| == 1
    ensures |path| > 1 ==> Holds(b[path[0].Length()..], path[1..])
  {
    PrefixOfPrefix(b, path[0].Bytes(), Encode(path[1..]));
    EndIsLast(path, 0);
    if |path| > 1 {
      assert path[1..][|path| - 2] == path[|path| - 1];
    }
  }

  /** The bytes of a buffer determine the path it holds. */
  lemma {:induction false} PathUnique(b: seq<Byte>, p: seq<Node>, q: seq<Node>)
    requires Holds(b, p) && Holds(b, q)
    ensures p == q
    decreases |p|
  {
    hide Holds, Encode, Node.Bytes;
    HoldsNonempty(b, p);
    HoldsNonempty(b, q);
    HoldsRest(b, p);
    HoldsRest(b, q);
    NodeUnique(b, p[0], q[0]);
    if |p| > 1 {
      PathUnique(b[p[0].Length()..], p[1..], q[1..]);
    }
    assert p == [p[0]] + p[1..] && q == [q[0]] + q[1..];
  }

  lemma HoldsNonempty(b: seq<Byte>, path: seq<Node>)
    requires Holds(b, path)
    ensures path != []
  {
  }

  // ---------- instances

  /** The first end node at or after i. */
  function NextEnd(path: seq<Node>, i: nat): (e: nat)
    requires i < |path| && path[|path| - 1].EndType()
    ensures i <= e < |path| && path[e].EndType()
    ensures forall k :: i <= k < e ==> !path[k].EndType()
    decreases |path| - i
  {
    if path[i].EndType() then i else NextEnd(path, i + 1)
  }

  /** The instances of a path: the runs of nodes that end nodes close. */
  function Instances(nodes: seq<Node>): seq<seq<Node>> {
    if nodes == [] then [] else Grown(nodes[0], Instances(nodes[1..]))
  }

  /** One more node in front: an end node closes an empty instance, any other node joins the first one. */
  function Grown(n: Node, rest: seq<seq<Node>>): seq<seq<Node>> {
    if n.EndType() then [[]] + rest
    else if rest == [] then [[n]]
    else [[n] + rest[0]] + rest[1..]
  }

  /** The first instance runs up to the first end node. */
  lemma {:induction false} FirstInstance(path: seq<Node>, i: nat)
    requires i < |path| && path[|path| - 1].EndType()
    ensures Instances(path[i..]) == [path[i..NextEnd(path, i)]] + Instances(path[NextEnd(path, i) + 1..])
    decreases |path| - i
  {
    var e := NextEnd(path, i);
    assert path[i..][0] == path[i] && path[i..][1..] == path[i + 1..];
    if path[i].EndType() {
      assert path[i..e] == [];
    } else {
      FirstInstance(path, i + 1);
      assert path[i..e] == [path[i]] + path[i + 1..e];
    }
  }

  /** An end node as bytes: one of the two end types, the marker of the path's end or of an instance's, and its size of four. */
  lemma EndBytes(path: seq<Node>, e: nat)
    requires WellFormed(path) && e < |path| && path[e].EndType()
    ensures path[e].typ == 0x7f || path[e].typ == 0xff
    ensures path[e].Bytes() == [path[e].typ, if e == |path| - 1 then 0xff else 0x01, 4, 0]
  {
  }

  /** Any node as bytes: its size with header is the third byte plus 256 times the fourth. */
  lemma NodeBytes(n: Node)
    requires n.Valid()
    ensures n.Bytes()[0] == n.typ && n.Bytes()[1] == n.sub && n.Bytes()[4..] == n.data
    ensures |n.Bytes()| == n.Bytes()[2] as int + 256 * n.Bytes()[3] as int
  {
  }

  /** The library gives up on an instance after 513 nodes. */
  ghost predicate ShortInstances(path: seq<Node>) {
    forall x :: x in Instances(path) ==> |x| <= 513
  }

  /** Where DevicePathInstance stops, starting at node i: at the end of the instance, or at its 514th node. */
  function StopNode(path: seq<Node>, i: nat): (e: nat)
    requires i < |path| && path[|path| - 1].EndType()
    ensures i <= e < |path| && e <= i + 513 && (path[e].EndType() || e == i + 513)
    ensures forall k :: i <= k < e ==> !path[k].EndType()
  {
    if NextEnd(path, i) <= i + 513 then NextEnd(path, i) else i + 513
  }

  method DevicePathInstance(b: array<Byte>, devPath: nat, ghost path: seq<Node>, ghost i: nat)
    returns (start: nat, next: int, size: nat)
    requires Holds(b[..], path) && i < |path| && devPath == Offset(path, i)
    ensures start == devPath
    ensures size == Offset(path, StopNode(path, i)) - devPath
    ensures var e := StopNode(path, i); next == if path[e].sub == END_ENTIRE_SUBTYPE then -1 else Offset(path, e + 1)
  {
    var pos := devPath;
    start := devPath;
    var count := 0;
    ghost var k := i;
    next := 0;
    while true
      invariant i <= k <= NextEnd(path, i) && k == i + count && count <= 513
      invariant pos == Offset(path, k) >= devPath
      decreases 514 - count
    {
      NodeAt(b[..], path, k);
      next := pos + LengthField(b[..], pos);
      if b[pos] % 128 == END_DEVICE_PATH_TYPE {
        break;
      }
      if count > 512 {
        break;
      }
      pos := next;
      count := count + 1;
      k := k + 1;
    }
    assert k == StopNode(path, i);
    if b[pos + 1] == END_ENTIRE_SUBTYPE {
      next := -1;
    }
    size := pos - start;
  }
}
