/**
 AppendDevicePath: what it builds when the first path has several instances, when that fits the memory it allocates,
 and when it is what its description promises.
 */
module DevicePathAppend {
  import Arithmetic
  import opened DevicePaths
  import opened DevicePathOps

  /** The first k instances, each followed by all of `added` and an instance end. */
  function Repeated(instances: seq<seq<Node>>, added: seq<Node>, k: nat): seq<Node>
    requires k <= |instances|
  {
    if k == 0 then [] else Repeated(instances, added, k - 1) + instances[k - 1] + added + [END_INSTANCE_NODE]
  }

  /** What AppendDevicePath writes: the last instance end becomes the end of the path. */
  function Appended(instances: seq<seq<Node>>, added: seq<Node>): seq<Node>
    requires instances != []
  {
    var n := |instances|;
    Repeated(instances, added, n - 1) + instances[n - 1] + added + [END_NODE]
  }

  /** What its description promises: `added` at the end of each instance. */
  function Promised(instances: seq<seq<Node>>, added: seq<Node>): seq<Node>
    requires instances != [] && added != []
    decreases |instances|
  {
    if |instances| == 1 then instances[0] + added
    else instances[0] + added[..|added| - 1] + [END_INSTANCE_NODE] + Promised(instances[1..], added)
  }

  function Allocated(s1: nat, n: nat, s2: nat): nat {
    s1 * n + s2
  }

  /** Bytes allocated and bytes written, for paths of s1 and s2 bytes and n instances. */
  lemma WrittenFitsIff(s1: nat, s2: nat, n: nat)
    requires n >= 1
    ensures Reached(s1, n, s2) <= Allocated(s1, n, s2) <==> n == 1 || s2 <= s1
  {
    assert (s1 * n + s2) - (s1 + n * s2) == (n - 1) * (s1 - s2);
    if n > 1 {
      SignOfProduct(n - 1, s1 - s2);
    }
  }

  lemma SignOfProduct(a: int, b: int)
    requires a > 0
    ensures a * b >= 0 <==> b >= 0
  {
  }

  const END_INSTANCE_BYTES: seq<Byte> := [END_DEVICE_PATH_TYPE, END_INSTANCE_SUBTYPE, 4, 0]
  const END_BYTES: seq<Byte> := [END_DEVICE_PATH_TYPE, END_ENTIRE_SUBTYPE, 4, 0]

  /** A copy into a block of dst.Length bytes; `pos` moves on only if the copy stays inside. */
  method CopyAndAdvance(dst: array<Byte>, at: nat, src: array<Byte>, from: nat, len: nat) returns (overflow: bool, pos: nat)
    requires dst != src && at <= dst.Length && from + len <= src.Length
    modifies dst
    ensures overflow <==> at + len > dst.Length
    ensures !overflow ==> pos == at + len && dst[..pos] == old(dst[..at]) + src[from..from + len]
  {
    if at + len > dst.Length {
      return true, at;
    }
    CopyMem(dst, at, src, from, len);
    overflow, pos := false, at + len;
  }

  /** One round of the loop: an instance, all of the second path, an instance end. */
  method AppendRound(dst: array<Byte>, at: nat, src1: array<Byte>, start: nat, size: nat, src2: array<Byte>, src2Size: nat)
    returns (overflow: bool, pos: nat)
    requires dst != src1 && dst != src2 && at <= dst.Length && start + size <= src1.Length && src2Size <= src2.Length
    modifies dst
    ensures overflow <==> at + size + src2Size + 4 > dst.Length
    ensures !overflow ==> pos == at + size + src2Size + 4
    ensures !overflow ==> dst[..pos] == old(dst[..at]) + src1[start..start + size] + src2[0..src2Size] + END_INSTANCE_BYTES
  {
    overflow, pos := CopyAndAdvance(dst, at, src1, start, size);
    if overflow {
      return;
    }
    overflow, pos := CopyAndAdvance(dst, pos, src2, 0, src2Size);
    if overflow {
      return;
    }
    var end := new Byte[4] [END_DEVICE_PATH_TYPE, END_INSTANCE_SUBTYPE, 4, 0];
    assert end[0..4] == END_INSTANCE_BYTES;
    overflow, pos := CopyAndAdvance(dst, pos, end, 0, 4);
  }

  lemma OffsetMonotone(path: seq<Node>, i: nat, e: nat)
    requires AllValid(path) && i <= e <= |path|
    ensures AllValid(path[i..e]) && Offset(path, e) == Offset(path, i) + |Encode(path[i..e])|
  {
    hide Encode;
    TakeSplit(path, i, e);
    EncodeAppend(path[..i], path[i..e]);
  }

  lemma TakeSplit<T>(s: seq<T>, i: nat, e: nat)
    requires i <= e <= |s|
    ensures s[..e] == s[..i] + s[i..e] && s == s[..i] + s[i..e] + s[e..]
  {
  }

  /** The bytes of a stretch of nodes. */
  lemma StretchBytes(b: seq<Byte>, path: seq<Node>, i: nat, e: nat)
    requires Holds(b, path) && i <= e <= |path|
    ensures AllValid(path[i..e]) && Offset(path, i) <= Offset(path, e) <= |Encode(path)| <= |b|
    ensures b[Offset(path, i)..Offset(path, e)] == Encode(path[i..e])
  {
    hide Encode;
    OffsetMonotone(path, i, e);
    TakeSplit(path, i, e);
    EncodeAppend(path[..i], path[i..e]);
    EncodeAppend(path[..i] + path[i..e], path[e..]);
    PrefixSlices(b, Encode(path[..i]), Encode(path[i..e]), Encode(path[e..]));
  }

  lemma EndNodeBytes()
    ensures END_INSTANCE_NODE.Valid() && END_INSTANCE_NODE.Bytes() == END_INSTANCE_BYTES
    ensures END_NODE.Valid() && END_NODE.Bytes() == END_BYTES
  {
  }

  /** The bytes of the nodes that one round, or the last one, adds. */
  lemma RoundBytes(front: seq<Node>, instance: seq<Node>, added: seq<Node>, end: Node)
    requires AllValid(front) && AllValid(instance) && AllValid(added) && end.Valid()
    ensures AllValid(front + instance + added + [end])
    ensures Encode(front + instance + added + [end]) == Encode(front) + Encode(instance) + Encode(added) + end.Bytes()
  {
    hide Encode, Node.Bytes;
    EncodeAppend(front, instance);
    EncodeAppend(front + instance, added);
    EncodeThree(front + instance + added, end, []);
  }

  lemma {:induction false} RepeatedValid(instances: seq<seq<Node>>, added: seq<Node>, k: nat)
    requires k <= |instances| && AllValid(added) && forall j :: 0 <= j < |instances| ==> AllValid(instances[j])
    ensures AllValid(Repeated(instances, added, k))
  {
    if k > 0 {
      RepeatedValid(instances, added, k - 1);
    }
  }

  /** Instances consist of nodes of the path. */
  lemma {:induction false} InstancesValid(nodes: seq<Node>)
    requires AllValid(nodes)
    ensures forall j :: 0 <= j < |Instances(nodes)| ==> AllValid(Instances(nodes)[j])
  {
    if nodes != [] {
      InstancesValid(nodes[1..]);
    }
  }

  lemma PathHasInstance(path: seq<Node>)
    requires WellFormed(path)
    ensures Instances(path) != []
  {
    FirstInstance(path, 0);
    assert path[0..] == path;
  }

  /** The instance that starts at node i, as the loop finds it. */
  lemma InstanceHere(path: seq<Node>, i: nat, instances: seq<seq<Node>>, j: nat)
    requires WellFormed(path) && ShortInstances(path) && i < |path| && j <= |instances|
    requires Instances(path) == instances && Instances(path[i..]) == instances[j..]
    ensures j < |instances| && instances[j] == path[i..StopNode(path, i)] && StopNode(path, i) == NextEnd(path, i)
    ensures Instances(path[StopNode(path, i) + 1..]) == instances[j + 1..]
    ensures path[StopNode(path, i)].sub == END_ENTIRE_SUBTYPE <==> StopNode(path, i) == |path| - 1
    ensures path[StopNode(path, i)].Length() == 4
  {
    hide Instances;
    FirstInstance(path, i);
    var e := NextEnd(path, i);
    assert instances[j..][0] == path[i..e];
    assert instances[j] in Instances(path);
    assert instances[j..][1..] == instances[j + 1..];
    EndIsLast(path, e);
  }

  /** Bytes written once j copies of s bytes follow `offset` bytes of the first path. */
  function Reached(offset: nat, j: nat, s: nat): nat {
    offset + j * s
  }

  /** How far the loop has come after j instances. */
  ghost predicate Progress(dst: seq<Byte>, pos: nat, path: seq<Node>, added: seq<Node>, i: nat, j: nat) {
    && WellFormed(path) && WellFormed(added) && i <= |path| && j <= |Instances(path)|
    && Instances(path[i..]) == Instances(path)[j..]
    && AllValid(Repeated(Instances(path), added, j))
    && pos <= |dst|
    && dst[..pos] == Encode(Repeated(Instances(path), added, j))
    && pos == Reached(Offset(path, i), j, |Encode(added)|)
  }

  lemma ProgressStart(dst: seq<Byte>, path: seq<Node>, added: seq<Node>)
    requires WellFormed(path) && WellFormed(added)
    ensures Progress(dst, 0, path, added, 0, 0)
  {
    assert path[0..] == path;
  }

  /** One more round adds these bytes. */
  lemma RepeatedStep(path: seq<Node>, added: seq<Node>, instance: seq<Node>, j: nat)
    requires j < |Instances(path)| && instance == Instances(path)[j]
    requires AllValid(Repeated(Instances(path), added, j)) && AllValid(added) && AllValid(instance)
    ensures AllValid(Repeated(Instances(path), added, j + 1))
    ensures Encode(Repeated(Instances(path), added, j + 1))
         == Encode(Repeated(Instances(path), added, j)) + Encode(instance) + Encode(added) + END_INSTANCE_BYTES
  {
    hide Encode, Instances, Node.Bytes;
    EndNodeBytes();
    RoundBytes(Repeated(Instances(path), added, j), instance, added, END_INSTANCE_NODE);
  }

  lemma ProgressStep(before: seq<Byte>, at: nat, dst: seq<Byte>, pos: nat, path: seq<Node>, added: seq<Node>, i: nat, j: nat)
    requires Progress(before, at, path, added, i, j) && i < |path| && ShortInstances(path)
    requires var e := StopNode(path, i);
             pos == at + (Offset(path, e) - Offset(path, i)) + |Encode(added)| + 4 <= |dst|
    requires AllValid(path[i..StopNode(path, i)])
    requires dst[..pos] == before[..at] + Encode(path[i..StopNode(path, i)]) + Encode(added) + END_INSTANCE_BYTES
    ensures Progress(dst, pos, path, added, StopNode(path, i) + 1, j + 1)
  {
    hide Encode, Instances, StopNode, Reached, WellFormed, Repeated, AllValid, Progress;
    ProgressParts(before, at, path, added, i, j);
    var e := StopNode(path, i);
    InstanceHere(path, i, Instances(path), j);
    ProgressFacts(before, at, path, added, i, j, e);
    OffsetOfNext(path, e);
    RepeatedStep(path, added, path[i..e], j);
    assert dst[..pos] == Encode(Repeated(Instances(path), added, j + 1));
    ProgressIs(dst, pos, path, added, e + 1, j + 1);
  }

  lemma ProgressParts(dst: seq<Byte>, pos: nat, path: seq<Node>, added: seq<Node>, i: nat, j: nat)
    requires Progress(dst, pos, path, added, i, j)
    ensures WellFormed(path) && WellFormed(added) && AllValid(path) && AllValid(added)
    ensures path != [] && path[|path| - 1].EndType()
    ensures i <= |path| && j <= |Instances(path)| && Instances(path[i..]) == Instances(path)[j..]
    ensures AllValid(Repeated(Instances(path), added, j)) && pos <= |dst|
    ensures dst[..pos] == Encode(Repeated(Instances(path), added, j))
  {
    hide Encode, Instances, Repeated;
  }

  lemma ProgressIs(dst: seq<Byte>, pos: nat, path: seq<Node>, added: seq<Node>, i: nat, j: nat)
    requires WellFormed(path) && WellFormed(added) && AllValid(path) && AllValid(added) && i <= |path|
    requires j <= |Instances(path)| && Instances(path[i..]) == Instances(path)[j..]
    requires AllValid(Repeated(Instances(path), added, j)) && pos <= |dst|
    requires dst[..pos] == Encode(Repeated(Instances(path), added, j))
    requires pos == Reached(Offset(path, i), j, |Encode(added)|)
    ensures Progress(dst, pos, path, added, i, j)
  {
    hide Encode, Instances, Repeated, WellFormed, AllValid;
  }

  /** Everything the loop writes up to the end of instance j lies within the bytes written in all. */
  lemma RoundWithinTotal(path: seq<Node>, added: seq<Node>, e: nat, j: nat)
    requires WellFormed(path) && WellFormed(added) && e < |path| && j < |Instances(path)|
    ensures Reached(Offset(path, e + 1), j + 1, |Encode(added)|) <= Reached(|Encode(path)|, |Instances(path)|, |Encode(added)|)
  {
    hide Encode, Instances;
    OffsetMonotone(path, e + 1, |path|);
    assert path[..|path|] == path;
    Arithmetic.MulMonotone(|Instances(path)|, j + 1, |Encode(added)|);
  }

  /** One pass of the loop: the next instance of the first path and all of the second. */
  method AppendNext(dst: array<Byte>, at: nat, src1: array<Byte>, devPath: nat, src2: array<Byte>, src2Size: nat,
                    ghost path: seq<Node>, ghost added: seq<Node>, ghost i: nat, ghost j: nat)
    returns (overflow: bool, pos: nat, next: int, ghost i': nat)
    requires dst != src1 && dst != src2
    requires Holds(src1[..], path) && ShortInstances(path) && i < |path| && devPath == Offset(path, i)
    requires WellFormed(added) && src2Size == |Encode(added)| <= src2.Length && src2[0..src2Size] == Encode(added)
    requires Progress(dst[..], at, path, added, i, j)
    modifies dst
    ensures i < i' <= |path| && next == (if i' == |path| then -1 else Offset(path, i'))
    ensures overflow ==> Reached(|Encode(path)|, |Instances(path)|, |Encode(added)|) > dst.Length
    ensures !overflow ==> Progress(dst[..], pos, path, added, i', j + 1)
  {
    hide Encode, Instances, Progress, Holds, WellFormed, StopNode, Reached;
    HoldsWellFormed(src1[..], path);
    ghost var e, before := StopNode(path, i), dst[..];
    i' := e + 1;
    ProgressFacts(before, at, path, added, i, j, e);
    InstanceHere(path, i, Instances(path), j);
    StretchBytes(src1[..], path, i, e);
    OffsetOfNext(path, e);
    RoundWithinTotal(path, added, e, j);
    var start, size;
    start, next, size := DevicePathInstance(src1, devPath, path, i);
    assert src1[start..start + size] == Encode(path[i..e]);
    overflow, pos := AppendRound(dst, at, src1, start, size, src2, src2Size);
    if !overflow {
      assert before[..at] == old(dst[..at]);
      ProgressStep(before, at, dst[..], pos, path, added, i, j);
    }
  }

  lemma HoldsWellFormed(b: seq<Byte>, path: seq<Node>)
    requires Holds(b, path)
    ensures WellFormed(path) && AllValid(path) && path != [] && path[|path| - 1].EndType()
  {
  }

  /** The last end marker becomes the end of the path. */
  method CloseWithEnd(dst: array<Byte>, pos: nat, ghost path: seq<Node>, ghost added: seq<Node>)
    requires WellFormed(path) && WellFormed(added) && Instances(path) != []
    requires var all := Repeated(Instances(path), added, |Instances(path)|);
             AllValid(all) && pos <= dst.Length && dst[..pos] == Encode(all)
    modifies dst
    ensures AllValid(Appended(Instances(path), added)) && Encode(Appended(Instances(path), added)) <= dst[..]
  {
    hide Encode, Instances, WellFormed;
    var end := new Byte[4] [END_DEVICE_PATH_TYPE, END_ENTIRE_SUBTYPE, 4, 0];
    assert end[0..4] == END_BYTES;
    ghost var written := dst[..];
    FinalBytes(written, pos, path, added);
    CopyMem(dst, pos - 4, end, 0, 4);
    assert dst[..pos - 4 + 4] == written[..pos - 4] + END_BYTES;
    PrefixIsPrefix(dst[..], pos - 4 + 4);
  }

  lemma PrefixIsPrefix(b: seq<Byte>, n: nat)
    requires n <= |b|
    ensures b[..n] <= b
  {
  }

  /** The loop and the closing end marker, on a block of memory of any size. */
  method AppendAll(dst: array<Byte>, src1: array<Byte>, src2: array<Byte>, src2Size: nat, ghost path: seq<Node>, ghost added: seq<Node>)
    returns (overflow: bool)
    requires dst != src1 && dst != src2
    requires Holds(src1[..], path) && ShortInstances(path) && Instances(path) != []
    requires WellFormed(added) && src2Size == |Encode(added)| <= src2.Length && src2[0..src2Size] == Encode(added)
    modifies dst
    ensures overflow <==> Reached(|Encode(path)|, |Instances(path)|, |Encode(added)|) > dst.Length
    ensures !overflow ==> AllValid(Appended(Instances(path), added)) && Encode(Appended(Instances(path), added)) <= dst[..]
  {
    HoldsWellFormed(src1[..], path);
    hide Encode, Instances, Progress, WellFormed, Holds, StopNode, Reached, ShortInstances;
    overflow := false;
    var dstPos: nat, devPath: int := 0, 0;
    ghost var i, j := 0, 0;
    ProgressStart(dst[..], path, added);
    while devPath != -1
      invariant !overflow
      invariant if devPath == -1 then i == |path| else i < |path| && devPath == Offset(path, i)
      invariant Progress(dst[..], dstPos, path, added, i, j)
      decreases |path| - i, devPath != -1
    {
      overflow, dstPos, devPath, i := AppendNext(dst, dstPos, src1, devPath, src2, src2Size, path, added, i, j);
      if overflow {
        return;
      }
      j := j + 1;
    }
    LoopDone(dst[..], dstPos, path, added, j);
    CloseWithEnd(dst, dstPos, path, added);
  }

  /**
   The part of AppendDevicePath behind the NULL tests.  It runs past the memory it allocates exactly when the first path has two
   or more instances and the second path is longer than the first; otherwise it writes the bytes of Appended.
   */
  method AppendPaths(src1: array<Byte>, src2: array<Byte>, ghost path: seq<Node>, ghost added: seq<Node>)
    returns (overflow: bool, dst: array<Byte>)
    requires Holds(src1[..], path) && Holds(src2[..], added) && ShortInstances(path)
    ensures Instances(path) != [] && fresh(dst)
    ensures overflow <==> |Instances(path)| > 1 && |Encode(added)| > |Encode(path)|
    ensures dst.Length == Allocated(|Encode(path)|, |Instances(path)|, |Encode(added)|)
    ensures !overflow ==> AllValid(Appended(Instances(path), added)) && Encode(Appended(Instances(path), added)) <= dst[..]
  {
    HoldsWellFormed(src1[..], path);
    HoldsWellFormed(src2[..], added);
    hide Encode, Instances, WellFormed, Holds, Reached, Allocated, Appended, AllValid;
    PathHasInstance(path);
    var src1Size := DevicePathSize(src1, path);
    var src1Inst := DevicePathInstanceCount(src1, path);
    assert path[0..] == path;
    CountIsInstances(path, 0);
    var src2Size := DevicePathSize(src2, added);
    dst := new Byte[Allocated(src1Size, src1Inst, src2Size)];
    WrittenFitsIff(src1Size, src2Size, src1Inst);
    overflow := AppendAll(dst, src1, src2, src2Size, path, added);
  }

  method AppendDevicePath(src1: array?<Byte>, src2: array?<Byte>, ghost path: seq<Node>, ghost added: seq<Node>)
    returns (overflow: bool, dst: array<Byte>)
    requires src1 != null || src2 != null
    requires src1 != null ==> Holds(src1[..], path) && ShortInstances(path)
    requires src2 != null ==> Holds(src2[..], added)
    ensures fresh(dst)
    ensures src1 == null ==> !overflow && dst[..] == Encode(added)
    ensures src2 == null ==> !overflow && dst[..] == Encode(path)
    ensures src1 != null && src2 != null ==>
              Instances(path) != []
              && (overflow <==> |Instances(path)| > 1 && |Encode(added)| > |Encode(path)|)
              && dst.Length == Allocated(|Encode(path)|, |Instances(path)|, |Encode(added)|)
    ensures src1 != null && src2 != null && !overflow ==>
              AllValid(Appended(Instances(path), added)) && Encode(Appended(Instances(path), added)) <= dst[..]
  {
    hide Encode, Instances, Holds, WellFormed, Allocated, Appended, AllValid;
    overflow := false;
    if src1 == null {
      dst := DuplicateDevicePath(src2, added);
    } else if src2 == null {
      dst := DuplicateDevicePath(src1, path);
    } else {
      overflow, dst := AppendPaths(src1, src2, path, added);
    }
  }

  lemma OffsetOfNext(path: seq<Node>, e: nat)
    requires WellFormed(path) && e < |path|
    ensures Offset(path, e + 1) == Offset(path, e) + path[e].Length()
  {
    hide Encode;
    OffsetMonotone(path, e, e + 1);
    EncodeOne(path[e]);
    assert path[e..e + 1] == [path[e]];
  }

  lemma ProgressFacts(dst: seq<Byte>, pos: nat, path: seq<Node>, added: seq<Node>, i: nat, j: nat, e: nat)
    requires Progress(dst, pos, path, added, i, j) && i <= e < |path|
    ensures j <= |Instances(path)| && Instances(path[i..]) == Instances(path)[j..] && pos <= |dst|
    ensures Reached(Offset(path, e + 1), j + 1, |Encode(added)|) == pos + (Offset(path, e + 1) - Offset(path, i)) + |Encode(added)|
  {
    hide Encode, Instances;
    assert (j + 1) * |Encode(added)| == j * |Encode(added)| + |Encode(added)|;
  }

  lemma LoopDone(dst: seq<Byte>, pos: nat, path: seq<Node>, added: seq<Node>, j: nat)
    requires Progress(dst, pos, path, added, |path|, j)
    ensures j == |Instances(path)|
    ensures AllValid(Repeated(Instances(path), added, j)) && pos <= |dst| && dst[..pos] == Encode(Repeated(Instances(path), added, j))
    ensures pos == Reached(|Encode(path)|, |Instances(path)|, |Encode(added)|)
  {
    NoInstances(path[|path|..]);
    assert path[..|path|] == path;
  }

  /** Overwriting the last instance end gives the end of the path. */
  lemma FinalBytes(dst: seq<Byte>, pos: nat, path: seq<Node>, added: seq<Node>)
    requires WellFormed(path) && WellFormed(added) && Instances(path) != []
    requires var all := Repeated(Instances(path), added, |Instances(path)|);
             AllValid(all) && pos <= |dst| && dst[..pos] == Encode(all)
    ensures pos >= 4 && AllValid(Appended(Instances(path), added))
    ensures Encode(Appended(Instances(path), added)) == dst[..pos - 4] + END_BYTES
  {
    hide Encode, Instances, Node.Bytes;
    var instances := Instances(path);
    var n := |instances|;
    EndNodeBytes();
    InstancesValid(path);
    RepeatedValid(instances, added, n - 1);
    RoundBytes(Repeated(instances, added, n - 1), instances[n - 1], added, END_INSTANCE_NODE);
    RoundBytes(Repeated(instances, added, n - 1), instances[n - 1], added, END_NODE);
    var body := Encode(Repeated(instances, added, n - 1)) + Encode(instances[n - 1]) + Encode(added);
    assert dst[..pos] == body + END_INSTANCE_BYTES;
    assert dst[..pos - 4] == dst[..pos][..pos - 4] == body;
  }

  // ---------- what the result says

  /** Instances hold no end nodes. */
  ghost predicate Plain(instances: seq<seq<Node>>) {
    forall j :: 0 <= j < |instances| ==> AllValid(instances[j]) && NoEnds(instances[j])
  }

  ghost predicate NoEnds(nodes: seq<Node>) {
    forall k :: 0 <= k < |nodes| ==> !nodes[k].EndType()
  }

  lemma {:induction false} InstancesPlain(nodes: seq<Node>)
    requires AllValid(nodes)
    ensures Plain(Instances(nodes))
  {
    if nodes != [] {
      InstancesPlain(nodes[1..]);
    }
  }

  /** An instance in front of a path is a path. */
  lemma InFront(instance: seq<Node>, path: seq<Node>)
    requires AllValid(instance) && NoEnds(instance) && WellFormed(path)
    ensures WellFormed(instance + path)
  {
  }

  lemma {:induction false} RepeatedStarts(instances: seq<seq<Node>>, added: seq<Node>, k: nat)
    requires 1 <= k <= |instances|
    ensures instances[0] + added <= Repeated(instances, added, k)
  {
    if k > 1 {
      RepeatedStarts(instances, added, k - 1);
    }
  }

  lemma AppendedStarts(instances: seq<seq<Node>>, added: seq<Node>)
    requires instances != []
    ensures instances[0] + added <= Appended(instances, added)
  {
    if |instances| > 1 {
      RepeatedStarts(instances, added, |instances| - 1);
    }
  }

  lemma EncodePrefix(a: seq<Node>, b: seq<Node>)
    requires AllValid(b) && a <= b
    ensures AllValid(a) && Encode(a) <= Encode(b)
  {
    hide Encode;
    assert b == a + b[|a|..];
    EncodeAppend(a, b[|a|..]);
  }

  /** What is written always starts with the first instance and all of the second path, end included. */
  lemma AppendedHolds(path: seq<Node>, added: seq<Node>, b: seq<Byte>)
    requires WellFormed(path) && WellFormed(added) && Instances(path) != []
    requires AllValid(Appended(Instances(path), added)) && Encode(Appended(Instances(path), added)) <= b
    ensures Holds(b, Instances(path)[0] + added)
  {
    hide Encode, Appended, Instances, WellFormed;
    WellFormedValid(path);
    InstancesPlain(path);
    InFront(Instances(path)[0], added);
    AppendedStarts(Instances(path), added);
    EncodePrefix(Instances(path)[0] + added, Appended(Instances(path), added));
  }

  /** The promised path exists. */
  lemma {:induction false} PromisedWellFormed(instances: seq<seq<Node>>, added: seq<Node>)
    requires instances != [] && Plain(instances) && WellFormed(added)
    ensures WellFormed(Promised(instances, added))
    decreases |instances|
  {
    if |instances| == 1 {
      InFront(instances[0], added);
    } else {
      PromisedWellFormed(instances[1..], added);
      hide Promised;
      Joined(added, Promised(instances[1..], added));
      InFront(instances[0], added[..|added| - 1] + [END_INSTANCE_NODE] + Promised(instances[1..], added));
      PromisedIs(instances, added);
    }
  }

  lemma PromisedIs(instances: seq<seq<Node>>, added: seq<Node>)
    requires |instances| > 1 && added != []
    ensures Promised(instances, added)
         == instances[0] + (added[..|added| - 1] + [END_INSTANCE_NODE] + Promised(instances[1..], added))
  {
    hide Promised;
    AppendAssociative(instances[0], added[..|added| - 1] + [END_INSTANCE_NODE], Promised(instances[1..], added));
    AppendAssociative(instances[0], added[..|added| - 1], [END_INSTANCE_NODE]);
    PromisedLonger(instances, added);
  }

  lemma PromisedLonger(instances: seq<seq<Node>>, added: seq<Node>)
    requires |instances| > 1 && added != []
    ensures Promised(instances, added)
         == instances[0] + added[..|added| - 1] + [END_INSTANCE_NODE] + Promised(instances[1..], added)
  {
  }

  lemma Joined(added: seq<Node>, rest: seq<Node>)
    requires WellFormed(added) && WellFormed(rest)
    ensures WellFormed(added[..|added| - 1] + [END_INSTANCE_NODE] + rest)
  {
    var all := added[..|added| - 1] + [END_INSTANCE_NODE] + rest;
    assert all[|all| - 1] == rest[|rest| - 1];
  }

  /**
   The instances of the promised path: for each instance of the first path one that goes on with the first instance of the
   second path, followed by the second path's other instances.
   */
  lemma {:induction false} PromisedInstances(instances: seq<seq<Node>>, added: seq<Node>, j: nat, i: nat)
    requires j < |instances| && Plain(instances) && WellFormed(added) && i < |Instances(added)|
    ensures |Instances(Promised(instances, added))| == |instances| * |Instances(added)|
    ensures 0 <= j * |Instances(added)| + i < |instances| * |Instances(added)|
    ensures Instances(Promised(instances, added))[j * |Instances(added)| + i]
         == if i == 0 then instances[j] + Instances(added)[0] else Instances(added)[i]
    decreases |instances|
  {
    hide Promised, Instances;
    var a := Instances(added);
    PlaceOf(j, i, |instances|, |a|);
    if |instances| == 1 {
      PromisedOne(instances, added);
      PlainFront(instances[0], added);
    } else {
      var front, last, rest := added[..|added| - 1], added[|added| - 1], Promised(instances[1..], added);
      PromisedInstances(instances[1..], added, if j == 0 then 0 else j - 1, i);
      PromisedIs(instances, added);
      assert added == front + [last];
      InstancesAppend(front, last, END_INSTANCE_NODE, rest);
      PlainFront(instances[0], front + [END_INSTANCE_NODE] + rest);
      Blocks(instances[0], a, Instances(rest), Instances(Promised(instances, added)), j, i);
    }
  }

  lemma PlaceOf(j: nat, i: nat, n: nat, a: nat)
    requires j < n && i < a
    ensures 0 <= j * a + i < n * a
    ensures j > 0 ==> j * a == a + (j - 1) * a
    ensures n * a == a + (n - 1) * a
  {
    Arithmetic.MulMonotone(n, j + 1, a);
    Arithmetic.MulMonotone(j, 0, a);
    assert (j + 1) * a == j * a + a;
  }

  /** Number j * |a| + i of the list lies in its first block, or is number (j - 1) * |a| + i of the rest. */
  lemma Blocks(front: seq<Node>, a: seq<seq<Node>>, rest: seq<seq<Node>>, all: seq<seq<Node>>, j: nat, i: nat)
    requires i < |a| && all == [front + (a + rest)[0]] + (a + rest)[1..]
    requires j > 0 ==> 0 <= (j - 1) * |a| + i < |rest|
    ensures |all| == |a| + |rest|
    ensures j == 0 ==> all[i] == if i == 0 then front + a[0] else a[i]
    ensures j > 0 ==> j * |a| + i == |a| + ((j - 1) * |a| + i) && all[|a| + ((j - 1) * |a| + i)] == rest[(j - 1) * |a| + i]
  {
  }

  /** Nodes that end nothing go in front of the first instance. */
  lemma {:induction false} PlainFront(front: seq<Node>, path: seq<Node>)
    requires NoEnds(front) && path != []
    ensures Instances(path) != []
    ensures Instances(front + path) == [front + Instances(path)[0]] + Instances(path)[1..]
    decreases |front|
  {
    hide Grown, Node.EndType;
    if front == [] {
      GrownSome(path[0], Instances(path[1..]));
      assert front + path == path;
      Extended([], Instances(path));
    } else {
      PlainFront(front[1..], path);
      AppendFirst(front, path);
      GrownPlain(front[0], front[1..], Instances(path));
      assert [front[0]] + front[1..] == front;
    }
  }

  lemma GrownSome(n: Node, rest: seq<seq<Node>>)
    ensures Grown(n, rest) != []
  {
  }

  lemma Extended(front: seq<Node>, a: seq<seq<Node>>)
    requires front == [] && a != []
    ensures [front + a[0]] + a[1..] == a
  {
    assert front + a[0] == a[0];
  }

  lemma GrownPlain(n: Node, front: seq<Node>, a: seq<seq<Node>>)
    requires !n.EndType() && a != []
    ensures Grown(n, [front + a[0]] + a[1..]) == [[n] + front + a[0]] + a[1..]
  {
    AppendAssociative([n], front, a[0]);
    assert ([front + a[0]] + a[1..])[1..] == a[1..];
  }

  /**
   Where the description and the code part: the result holds the promised path exactly when the first path has one
   instance; with more, a reader finds the first instance and the second path, and then the end of the path.
   */
  lemma PromiseKeptIff(path: seq<Node>, added: seq<Node>, b: seq<Byte>)
    requires WellFormed(path) && WellFormed(added) && Instances(path) != []
    requires AllValid(Appended(Instances(path), added)) && Encode(Appended(Instances(path), added)) <= b
    ensures WellFormed(Promised(Instances(path), added))
    ensures Holds(b, Promised(Instances(path), added)) <==> |Instances(path)| == 1
  {
    hide Encode, Appended, Instances, Promised, Holds;
    var instances := Instances(path);
    InstancesPlain(path);
    PromisedWellFormed(instances, added);
    AppendedHolds(path, added, b);
    if |instances| == 1 {
      PromisedOne(instances, added);
    } else {
      PromisedLonger(instances, added);
      Differ(instances[0], added, Promised(instances[1..], added));
      if Holds(b, Promised(instances, added)) {
        PathUnique(b, Promised(instances, added), instances[0] + added);
        assert false;
      }
    }
  }

  lemma PromisedOne(instances: seq<seq<Node>>, added: seq<Node>)
    requires |instances| == 1 && added != []
    ensures Promised(instances, added) == instances[0] + added
  {
  }

  lemma Differ(front: seq<Node>, added: seq<Node>, rest: seq<Node>)
    requires WellFormed(added)
    ensures front + added[..|added| - 1] + [END_INSTANCE_NODE] + rest != front + added
  {
    var k := |front| + |added| - 1;
    assert (front + added[..|added| - 1] + [END_INSTANCE_NODE] + rest)[k] == END_INSTANCE_NODE;
    assert (front + added)[k] == added[|added| - 1];
  }
}
