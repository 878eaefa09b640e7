/** The library's operations on device paths, on byte buffers. */
module DevicePathOps {
  import opened DevicePaths

  /** CopyMem between distinct buffers. */
  method CopyMem(dst: array<Byte>, at: nat, src: array<Byte>, from: nat, len: nat)
    requires dst != src && at + len <= dst.Length && from + len <= src.Length
    modifies dst
    ensures dst[..at + len] == old(dst[..at]) + src[from..from + len]
    ensures dst[at + len..] == old(dst[at + len..])
  {
    for i := 0 to len
      invariant forall j :: 0 <= j < dst.Length ==> dst[j] == if at <= j < at + i then src[from + j - at] else old(dst[j])
    {
      dst[at + i] := src[from + i];
    }
  }

  method DevicePathSize(b: array<Byte>, ghost path: seq<Node>) returns (size: nat)
    requires Holds(b[..], path)
    ensures size == |Encode(path)| <= b.Length && b[0..size] == Encode(path)
  {
    var pos := FindEnd(b, path);
    NodeAt(b[..], path, |path| - 1);
    assert path[..|path| - 1 + 1] == path;
    size := pos + 4;
  }

  /** The loop shared by the walks: from the first node to the end node. */
  method FindEnd(b: array<Byte>, ghost path: seq<Node>) returns (pos: nat)
    requires Holds(b[..], path)
    ensures pos == Offset(path, |path| - 1)
  {
    pos := 0;
    ghost var k := 0;
    NodeAt(b[..], path, 0);
    while !(b[pos] % 128 == END_DEVICE_PATH_TYPE && b[pos + 1] == END_ENTIRE_SUBTYPE)
      invariant k < |path| && pos == Offset(path, k) && pos + 4 <= b.Length
      invariant b[pos] == path[k].typ && b[pos + 1] == path[k].sub
      decreases |path| - k
    {
      EndIsLast(path, k);
      NodeAt(b[..], path, k);
      NodeAt(b[..], path, k + 1);
      pos := pos + LengthField(b[..], pos);
      k := k + 1;
    }
    EndIsLast(path, k);
  }

  method DuplicateDevicePath(b: array<Byte>, ghost path: seq<Node>) returns (r: array<Byte>)
    requires Holds(b[..], path)
    ensures fresh(r) && r[..] == Encode(path)
  {
    var size := DevicePathSize(b, path);
    r := new Byte[size];
    CopyMem(r, 0, b, 0, size);
  }

  // ---------- counting instances

  /** Instances that DevicePathInstance yields from node i on. */
  ghost function CountFrom(path: seq<Node>, i: nat): nat
    requires WellFormed(path) && i < |path|
    decreases |path| - i
  {
    var e := StopNode(path, i);
    if path[e].sub == END_ENTIRE_SUBTYPE || e == |path| - 1 then 1 else 1 + CountFrom(path, e + 1)
  }

  method DevicePathInstanceCount(b: array<Byte>, ghost path: seq<Node>) returns (count: nat)
    requires Holds(b[..], path)
    ensures count == CountFrom(path, 0)
  {
    count := 0;
    var devPath: int, size: nat := 0, 0;
    ghost var i := 0;
    while devPath != -1
      invariant devPath == -1 ==> count == CountFrom(path, 0)
      invariant devPath != -1 ==> i < |path| && devPath == Offset(path, i) && count + CountFrom(path, i) == CountFrom(path, 0)
      decreases if devPath == -1 then 0 else |path| - i + 1
    {
      ghost var e := StopNode(path, i);
      EndIsLast(path, e);
      var start;
      start, devPath, size := DevicePathInstance(b, devPath, path, i);
      count := count + 1;
      i := e + 1;
    }
  }

  /** With at most 513 nodes in each instance, the count is the number of instances. */
  lemma {:induction false} CountIsInstances(path: seq<Node>, i: nat)
    requires WellFormed(path) && i < |path| && ShortInstances(path[i..])
    ensures CountFrom(path, i) == |Instances(path[i..])|
    decreases |path| - i
  {
    hide Instances, WellFormed, ShortInstances, NextEnd;
    EndsWell(path);
    var e := NextEnd(path, i);
    FirstInstance(path, i);
    ShortRest(path, i);
    EndIsLast(path, e);
    MarkersOnly(path, e);
    if e < |path| - 1 {
      CountIsInstances(path, e + 1);
    } else {
      NoInstances(path[e + 1..]);
    }
  }

  lemma EndsWell(path: seq<Node>)
    requires WellFormed(path)
    ensures path != [] && path[|path| - 1].EndType()
  {
  }

  lemma MarkersOnly(path: seq<Node>, e: nat)
    requires WellFormed(path) && e < |path| && path[e].EndType()
    ensures path[e].sub == END_ENTIRE_SUBTYPE <==> e == |path| - 1
  {
  }

  /** The instances behind a short one are short too. */
  lemma ShortRest(path: seq<Node>, i: nat)
    requires i < |path| && path[|path| - 1].EndType() && ShortInstances(path[i..])
    ensures NextEnd(path, i) <= i + 513 && ShortInstances(path[NextEnd(path, i) + 1..])
  {
    hide Instances;
    var e := NextEnd(path, i);
    FirstInstance(path, i);
    var rest := Instances(path[e + 1..]);
    assert Instances(path[i..])[0] == path[i..e];
    forall x | x in rest
      ensures |x| <= 513
    {
      assert x in [path[i..e]] + rest;
    }
  }

  lemma NoInstances(nodes: seq<Node>)
    requires |nodes| == 0
    ensures Instances(nodes) == []
  {
  }

  // ---------- appending an instance

  /** The end of the path, turned into the end of an instance. */
  function Reopened(path: seq<Node>): (r: seq<Node>)
    requires path != []
    ensures |r| == |path|
  {
    path[..|path| - 1] + [path[|path| - 1].(sub := END_INSTANCE_SUBTYPE)]
  }

  /** AppendDevicePathInstance on node lists. */
  function WithInstance(path: seq<Node>, instance: seq<Node>): seq<Node>
    requires path != []
  {
    Reopened(path) + instance
  }

  lemma UpdateBehind<T>(f: seq<T>, q: seq<T>, k: nat, v: T)
    requires k < |q|
    ensures (f + q)[|f| + k := v] == f + q[k := v]
  {
  }

  lemma ReopenedBytes(path: seq<Node>)
    requires WellFormed(path)
    ensures AllValid(Reopened(path))
    ensures var o := Offset(path, |path| - 1);
            && |Encode(path)| == o + 4
            && Encode(Reopened(path)) == Encode(path)[o + 1 := END_INSTANCE_SUBTYPE]
  {
    var front, last := path[..|path| - 1], path[|path| - 1];
    var reopened := last.(sub := END_INSTANCE_SUBTYPE);
    EndBytes(last);
    assert path == front + [last];
    hide Encode, Node.Bytes, Node.EndType;
    EncodeThree(front, last, []);
    EncodeThree(front, reopened, []);
    UpdateBehind(Encode(front), last.Bytes(), 1, END_INSTANCE_SUBTYPE);
  }

  lemma EndBytes(n: Node)
    requires n.data == []
    ensures var r := n.(sub := END_INSTANCE_SUBTYPE);
            n.Valid() && r.Valid() && |n.Bytes()| == 4 && r.Bytes() == n.Bytes()[1 := END_INSTANCE_SUBTYPE]
  {
  }

  /** What closes an instance does not matter to the instances. */
  lemma {:induction false} InstancesAppend(front: seq<Node>, end: Node, end': Node, tail: seq<Node>)
    requires end.EndType() && end'.EndType()
    ensures Instances(front + [end'] + tail) == Instances(front + [end]) + Instances(tail)
    ensures |Instances(front + [end])| > 0
    decreases |front|
  {
    hide Grown, Node.EndType;
    var all := front + [end'] + tail;
    if front == [] {
      assert all[1..] == tail && [end][1..] == [];
      assert front + [end] == [end];
      Closing(end, end', Instances(tail));
    } else {
      AppendFirst(front, [end]);
      AppendFirst(front, [end']);
      AppendFirst(front + [end'], tail);
      InstancesAppend(front[1..], end, end', tail);
      GrownAppend(front[0], Instances(front[1..] + [end]), Instances(tail));
    }
  }

  lemma Closing(end: Node, end': Node, rest: seq<seq<Node>>)
    requires end.EndType() && end'.EndType()
    ensures Grown(end', rest) == Grown(end, []) + rest && |Grown(end, [])| > 0
  {
  }

  lemma GrownAppend(n: Node, a: seq<seq<Node>>, b: seq<seq<Node>>)
    requires |a| > 0
    ensures Grown(n, a + b) == Grown(n, a) + b && |Grown(n, a)| > 0
  {
  }

  lemma ReopenedWellFormed(path: seq<Node>, instance: seq<Node>)
    requires WellFormed(path) && WellFormed(instance)
    ensures WellFormed(WithInstance(path, instance))
  {
    var all := WithInstance(path, instance);
    assert all[|all| - 1] == instance[|instance| - 1];
  }

  /** Appending a well-formed path as an instance gives a well-formed path with the instances of both, in order. */
  lemma WithInstanceInstances(path: seq<Node>, instance: seq<Node>)
    requires WellFormed(path) && WellFormed(instance)
    ensures WellFormed(WithInstance(path, instance))
    ensures Instances(WithInstance(path, instance)) == Instances(path) + Instances(instance)
  {
    ReopenedWellFormed(path, instance);
    var front, last := path[..|path| - 1], path[|path| - 1];
    assert path == front + [last];
    InstancesAppend(front, last, last.(sub := END_INSTANCE_SUBTYPE), instance);
  }

  /** The number of instances that DevicePathInstanceCount finds adds up. */
  lemma CountAdditive(path: seq<Node>, instance: seq<Node>)
    requires WellFormed(path) && WellFormed(instance) && ShortInstances(path) && ShortInstances(instance)
    ensures WellFormed(WithInstance(path, instance))
    ensures CountFrom(WithInstance(path, instance), 0) == CountFrom(path, 0) + CountFrom(instance, 0)
  {
    hide Instances, CountFrom, WithInstance;
    var all := WithInstance(path, instance);
    WithInstanceInstances(path, instance);
    assert path[0..] == path && instance[0..] == instance && all[0..] == all;
    CountIsInstances(path, 0);
    CountIsInstances(instance, 0);
    CountIsInstances(all, 0);
  }

  /** Replacing a prefix of a buffer by one of the same length. */
  lemma PrefixReplaced(b: seq<Byte>, x: seq<Byte>, k: nat, v: Byte)
    requires x <= b && k < |x|
    ensures b[k := v] == x[k := v] + b[|x|..] && b[k := v][|x|..] == b[|x|..]
  {
  }

  /** Turns the end of the path in the buffer into the end of an instance, and returns the offset behind it. */
  method ReopenEnd(b: array<Byte>, ghost path: seq<Node>) returns (next: nat)
    requires Holds(b[..], path)
    modifies b
    ensures next == |Encode(path)| <= b.Length
    ensures AllValid(Reopened(path)) && b[..next] == Encode(Reopened(path))
  {
    var devPath := FindEnd(b, path);
    NodeAt(b[..], path, |path| - 1);
    ReopenedBytes(path);
    next := devPath + LengthField(b[..], devPath);
    PrefixReplaced(b[..], Encode(path), devPath + 1, END_INSTANCE_SUBTYPE);
    hide Encode, Reopened;
    b[devPath + 1] := END_INSTANCE_SUBTYPE;
    PrefixOfSum(b[..], Encode(Reopened(path)), b[next..]);
  }

  /** A buffer filled with a prefix that holds a path. */
  lemma HoldsCopy(b: seq<Byte>, path: seq<Node>)
    requires WellFormed(path) && |Encode(path)| <= |b| && b[..|Encode(path)|] == Encode(path)
    ensures Holds(b, path)
  {
  }

  lemma WholePrefix(b: seq<Byte>, n: nat, x: seq<Byte>, y: seq<Byte>)
    requires n == |b| && b[..n] == x + y
    ensures b == x + y
  {
  }

  lemma PrefixOfSum(b: seq<Byte>, x: seq<Byte>, y: seq<Byte>)
    requires b == x + y
    ensures b[..|x|] == x
  {
  }

  /** Allocates room for a path and `room` more bytes, and copies the path. */
  method CopyWithRoom(src: array<Byte>, room: nat, ghost path: seq<Node>) returns (ptr: array<Byte>)
    requires Holds(src[..], path)
    ensures fresh(ptr) && ptr.Length == |Encode(path)| + room && Holds(ptr[..], path)
  {
    var srcSize := DevicePathSize(src, path);
    ptr := new Byte[srcSize + room];
    hide Encode;
    CopyMem(ptr, 0, src, 0, srcSize);
    assert ptr[..srcSize] == Encode(path);
    HoldsCopy(ptr[..], path);
  }

  /** The part of AppendDevicePathInstance behind the NULL test. */
  method JoinInstances(src: array<Byte>, instance: array<Byte>, ghost path: seq<Node>, ghost added: seq<Node>)
    returns (ptr: array<Byte>)
    requires Holds(src[..], path) && Holds(instance[..], added)
    ensures fresh(ptr) && AllValid(Reopened(path)) && AllValid(added) && ptr[..] == Encode(Reopened(path)) + Encode(added)
  {
    AllValidParts(path, added);
    var instanceSize := DevicePathSize(instance, added);
    ptr := CopyWithRoom(src, instanceSize, path);
    hide Encode, Reopened, AllValid, WellFormed;
    var next := ReopenEnd(ptr, path);
    CopyMem(ptr, next, instance, 0, instanceSize);
    WholePrefix(ptr[..], next + instanceSize, Encode(Reopened(path)), Encode(added));
  }

  method AppendDevicePathInstance(src: array?<Byte>, instance: array<Byte>, ghost path: seq<Node>, ghost added: seq<Node>)
    returns (ptr: array<Byte>)
    requires src != null ==> Holds(src[..], path)
    requires Holds(instance[..], added)
    ensures fresh(ptr)
    ensures src == null ==> ptr[..] == Encode(added)
    ensures src != null ==> AllValid(WithInstance(path, added)) && ptr[..] == Encode(WithInstance(path, added))
  {
    if src == null {
      ptr := DuplicateDevicePath(instance, added);
      return;
    }
    hide Encode;
    ptr := JoinInstances(src, instance, path, added);
    EncodeAppend(Reopened(path), added);
  }

  lemma AllValidParts(path: seq<Node>, added: seq<Node>)
    requires WellFormed(path) && WellFormed(added)
    ensures AllValid(Reopened(path)) && AllValid(added) && AllValid(WithInstance(path, added))
  {
  }
}
