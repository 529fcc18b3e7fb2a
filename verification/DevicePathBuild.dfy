/** The functions of gnu-efi/lib/dpath.c that build new device paths. `granted` says whether the pool
    allocation succeeds. */
module DevicePathBuild {
  import opened Common
  import opened DevicePath
  import opened DevicePathLib

  method CopyMem(dst: array<byte>, at: nat, src: array<byte>, from: nat, n: nat)
    requires dst != src && at + n <= dst.Length && from + n <= src.Length
    modifies dst
    ensures dst[..at + n] == old(dst[..at]) + src[from..from + n]
    ensures dst[at + n..] == old(dst[at + n..])
  {
    forall i | 0 <= i < n {
      dst[at + i] := src[from + i];
    }
    assert forall j :: 0 <= j < at ==> dst[j] == old(dst[j]);
    assert forall j :: at <= j < at + n ==> dst[j] == src[from + (j - at)];
  }

  /** CopyMem of one of the constant end nodes. */
  method CopyEnd(dst: array<byte>, at: nat, node: Node)
    requires node.Valid() && node.IsEndType() && at + HEADER <= dst.Length
    modifies dst
    ensures dst[..at + HEADER] == old(dst[..at]) + node.Bytes()
    ensures dst[at + HEADER..] == old(dst[at + HEADER..])
  {
    dst[at], dst[at + 1], dst[at + 2], dst[at + 3] := node.kind, node.subType, 4, 0;
  }

  /** CopyMem of a whole path. */
  method CopyPath(dst: array<byte>, at: nat, p: Pointer, size: nat, ghost nodes: seq<Node>)
    requires AllValid(nodes) && Spells(p.buf[..], p.pos, nodes) && size == |Encode(nodes)|
    requires dst != p.buf && at + size <= dst.Length
    modifies dst
    ensures dst[..at + size] == old(dst[..at]) + Encode(nodes)
    ensures dst[at + size..] == old(dst[at + size..])
  {
    assert p.buf[..][p.pos..p.pos + size] == p.buf[p.pos..p.pos + size];
    CopyMem(dst, at, p.buf, p.pos, size);
  }

  // ---------- duplicating ----------

  method DuplicateDevicePath(p: Pointer, granted: bool, ghost nodes: seq<Node>) returns (r: array?<byte>)
    requires WellFormed(nodes) && Spells(p.buf[..], p.pos, nodes)
    ensures r == null <==> !granted
    ensures r != null ==> fresh(r) && r[..] == Encode(nodes)
  {
    var size := DevicePathSize(p, nodes);
    if !granted {
      return null;
    }
    r := new byte[size];
    hide Spells, Encode;
    CopyPath(r, 0, p, size, nodes);
    assert r[..] == r[..size];
  }

  // ---------- appending an instance ----------

  /** Src with its end turned into the end of an instance, and the new instances behind it. */
  function WithInstance(src: seq<Node>, instance: seq<Node>): seq<Node>
    requires src != []
  {
    src[..|src| - 1] + [src[|src| - 1].(subType := END_INSTANCE)] + instance
  }

  lemma WithInstanceWellFormed(src: seq<Node>, instance: seq<Node>)
    requires WellFormed(src) && WellFormed(instance)
    ensures WellFormed(WithInstance(src, instance))
  {
  }

  /** Its bytes: those of Src up to the end node, the changed end node, and those of the instances. */
  lemma WithInstanceEncode(src: seq<Node>, instance: seq<Node>)
    requires WellFormed(src) && WellFormed(instance)
    ensures AllValid(WithInstance(src, instance)) && AllValid(src[..|src| - 1])
    ensures src[|src| - 1].(subType := END_INSTANCE).Valid()
    ensures Encode(WithInstance(src, instance))
            == Encode(src[..|src| - 1]) + src[|src| - 1].(subType := END_INSTANCE).Bytes() + Encode(instance)
    ensures Encode(src) == Encode(src[..|src| - 1]) + src[|src| - 1].Bytes()
    ensures |src[|src| - 1].Bytes()| == HEADER
  {
    var n, all := |src| - 1, WithInstance(src, instance);
    WithInstanceWellFormed(src, instance);
    EncodeSplit(src, n);
    EncodeSplit(all, n);
    assert all[..n] == src[..n] && all[n + 1..] == instance && src[n + 1..] == [];
  }

  /** The instances of a path whose first end is known. */
  lemma InstancesAt(nodes: seq<Node>, e: nat)
    requires WellFormed(nodes) && e < |nodes| && nodes[e].IsEndType() && forall i :: 0 <= i < e ==> !nodes[i].IsEndType()
    ensures FirstEnd(nodes) == e
    ensures nodes[e + 1..] == Later(nodes)
    ensures Later(nodes) != [] ==> WellFormed(Later(nodes))
    ensures Instances(nodes) == [nodes[..e]] + if Later(nodes) != [] then Instances(Later(nodes)) else []
  {
    var f := FirstEnd(nodes);
    hide FirstEnd;
    assert f == e;
    AfterFirst(nodes);
  }

  lemma WithInstanceTail(src: seq<Node>, instance: seq<Node>, e: nat)
    requires e + 1 < |src|
    ensures |WithInstance(src, instance)| >= |src|
    ensures WithInstance(src, instance)[..e + 1] == src[..e + 1]
    ensures WithInstance(src, instance)[e + 1..] == WithInstance(src[e + 1..], instance)
  {
  }

  lemma WithInstanceFirst(src: seq<Node>, instance: seq<Node>)
    requires WellFormed(src) && WellFormed(instance)
    ensures var all, e := WithInstance(src, instance), FirstEnd(src);
            && WellFormed(all) && FirstEnd(all) == e && all[..e] == src[..e]
            && Later(all) == if Later(src) == [] then instance else WithInstance(Later(src), instance)
  {
    var all, e := WithInstance(src, instance), FirstEnd(src);
    WithInstanceWellFormed(src, instance);
    WithInstanceUpTo(src, instance);
    hide *;
    InstancesAt(all, e);
    WithInstanceLater(src, instance);
  }

  lemma WithInstanceLater(src: seq<Node>, instance: seq<Node>)
    requires WellFormed(src)
    ensures WithInstance(src, instance)[FirstEnd(src) + 1..]
            == if Later(src) == [] then instance else WithInstance(Later(src), instance)
  {
    var e := FirstEnd(src);
    hide FirstEnd, WellFormed;
    if e + 1 < |src| {
      WithInstanceTail(src, instance, e);
    }
  }

  /** Up to the first end node nothing changes but the subtype of that node. */
  lemma WithInstanceUpTo(src: seq<Node>, instance: seq<Node>)
    requires WellFormed(src)
    ensures var all, e := WithInstance(src, instance), FirstEnd(src);
            && |all| == |src| + |instance| && all[..e] == src[..e] && all[e].IsEndType()
            && (forall i :: 0 <= i < e ==> !all[i].IsEndType())
  {
    var e := FirstEnd(src);
    hide FirstEnd;
    assert forall i :: 0 <= i < e ==> WithInstance(src, instance)[i] == src[i];
  }

  /** The instances of the result are those of the two paths, in order; so the counts add. */
  lemma {:induction false} WithInstanceInstances(src: seq<Node>, instance: seq<Node>)
    requires WellFormed(src) && WellFormed(instance)
    ensures WellFormed(WithInstance(src, instance))
    ensures Instances(WithInstance(src, instance)) == Instances(src) + Instances(instance)
    decreases |src|
  {
    hide FirstEnd, Later, Instances, WithInstance, Node.Valid, Node.IsEnd, Node.IsEndType;
    WithInstanceFirst(src, instance);
    InstancesAt(src, FirstEnd(src));
    InstancesAt(WithInstance(src, instance), FirstEnd(src));
    if Later(src) != [] {
      WithInstanceInstances(Later(src), instance);
    }
  }

  /** AppendDevicePathInstance; without a Src the instances are just duplicated. */
  method AppendDevicePathInstance(srcPath: Option<Pointer>, instancePath: Pointer, granted: bool,
                                  ghost src: seq<Node>, ghost instance: seq<Node>)
    returns (r: array?<byte>)
    requires WellFormed(instance) && Spells(instancePath.buf[..], instancePath.pos, instance)
    requires srcPath.Some? ==> WellFormed(src) && Spells(srcPath.value.buf[..], srcPath.value.pos, src)
    requires srcPath.Some? ==> granted   // the code asserts the allocation
    ensures r == null <==> !granted
    ensures r != null ==> fresh(r)
    ensures r != null && srcPath.None? ==> r[..] == Encode(instance)
    ensures r != null && srcPath.Some? ==> WellFormed(WithInstance(src, instance)) && r[..] == Encode(WithInstance(src, instance))
  {
    if srcPath.Some? {
      WithInstanceWellFormed(src, instance);
      WithInstanceEncode(src, instance);
    }
    hide Spells, Encode, WithInstance, Node.Valid, Node.Bytes, Node.IsEnd;
    if srcPath.None? {
      r := DuplicateDevicePath(instancePath, granted, instance);
      return;
    }
    var s := srcPath.value;
    var srcSize := DevicePathSize(s, src);
    var instanceSize := DevicePathSize(instancePath, instance);
    r := new byte[srcSize + instanceSize];
    CopyPath(r, 0, s, srcSize, src);
    EndToInstance(r, src);
    CopyPath(r, srcSize, instancePath, instanceSize, instance);
    assert r[..] == r[..srcSize + instanceSize];
  }

  /** Walks to the end node and makes it the end of an instance. */
  method EndToInstance(r: array<byte>, ghost src: seq<Node>)
    requires WellFormed(src) && |Encode(src)| <= r.Length && r[..|Encode(src)|] == Encode(src)
    modifies r
    ensures src[|src| - 1].(subType := END_INSTANCE).Valid() && AllValid(src[..|src| - 1])
    ensures r[..|Encode(src)|] == Encode(src[..|src| - 1]) + src[|src| - 1].(subType := END_INSTANCE).Bytes()
    ensures r[|Encode(src)|..] == old(r[|Encode(src)|..])
  {
    var devPath := WalkToEnd(r, src);
    WithInstanceEncode(src, src);
    hide Spells, Encode, WellFormed, WithInstance;
    ghost var head, end := Encode(src[..|src| - 1]), src[|src| - 1];
    r[devPath + 1] := END_INSTANCE;
    assert r[..|Encode(src)|] == Encode(src)[devPath + 1 := END_INSTANCE];
    PatchEnd(head, end);
  }

  lemma PatchEnd(head: seq<byte>, end: Node)
    requires end.Valid() && end.(subType := END_INSTANCE).Valid()
    ensures (head + end.Bytes())[|head| + 1 := END_INSTANCE] == head + end.(subType := END_INSTANCE).Bytes()
  {
  }

  /** The walk to the end node, at the start of a buffer. */
  method WalkToEnd(buf: array<byte>, ghost nodes: seq<Node>) returns (devPath: nat)
    requires WellFormed(nodes) && |Encode(nodes)| <= buf.Length && buf[..|Encode(nodes)|] == Encode(nodes)
    ensures devPath == |Encode(nodes[..|nodes| - 1])| && devPath + HEADER == |Encode(nodes)|
    ensures LengthAt(buf[..], devPath) == HEADER
  {
    hide EndAt, LengthAt;
    devPath := 0;
    ghost var k := 0;
    assert nodes[0..] == nodes && Spells(buf[..], 0, nodes);
    while true
      invariant k < |nodes| && devPath == 0 + |Encode(nodes[..k])| && Spells(buf[..], devPath, nodes[k..])
      decreases |nodes| - k
    {
      WalkOn(buf[..], 0, nodes, k, devPath);
      if EndAt(buf[..], devPath) {
        break;
      }
      devPath := devPath + LengthAt(buf[..], devPath);
      k := k + 1;
    }
    assert k == |nodes| - 1 && nodes[k].Valid() && nodes[..k + 1] == nodes;
  }

  // ---------- appending a path to every instance ----------

  /** What the copy loop writes: each instance, Src2 with its own end, and the end of an instance. */
  function Copies(instances: seq<seq<Node>>, src2: seq<Node>): seq<byte>
    requires AllValid(src2) && forall i :: 0 <= i < |instances| ==> AllValid(instances[i])
  {
    if instances == [] then []
    else Copies(instances[..|instances| - 1], src2) + Copy(instances[|instances| - 1], src2) + END_INSTANCE_DEVICE_PATH.Bytes()
  }

  function Copy(instance: seq<Node>, src2: seq<Node>): seq<byte>
    requires AllValid(src2) && AllValid(instance)
  {
    Encode(instance) + Encode(src2)
  }

  /** And the last end marker changed to the end of the path. */
  function Appended(instances: seq<seq<Node>>, src2: seq<Node>): seq<byte>
    requires AllValid(src2) && instances != [] && forall i :: 0 <= i < |instances| ==> AllValid(instances[i])
  {
    Copies(instances[..|instances| - 1], src2) + Copy(instances[|instances| - 1], src2) + END_DEVICE_PATH.Bytes()
  }

  lemma {:induction false} InstanceBytesSnoc(instances: seq<seq<Node>>)
    requires instances != [] && forall i :: 0 <= i < |instances| ==> AllValid(instances[i])
    ensures var n := |instances| - 1;
            InstanceBytes(instances) == InstanceBytes(instances[..n]) + |Encode(instances[n])| + HEADER
    decreases |instances|
  {
    var n := |instances| - 1;
    if n == 0 {
      assert instances[..0] == [] && instances[1..] == [];
    } else {
      InstanceBytesSnoc(instances[1..]);
      assert instances[1..][..n - 1] == instances[..n][1..];
    }
  }

  /** For k instances the loop writes the spans and end nodes of Src1, and Src2 k times. */
  lemma {:induction false} CopiesLength(instances: seq<seq<Node>>, src2: seq<Node>)
    requires AllValid(src2) && forall i :: 0 <= i < |instances| ==> AllValid(instances[i])
    ensures |Copies(instances, src2)| == InstanceBytes(instances) + |instances| * |Encode(src2)|
  {
    if instances != [] {
      hide Copies, Encode, InstanceBytes, Node.Valid;
      var n := |instances| - 1;
      CopiesSnoc(instances, src2);
      CopiesLength(instances[..n], src2);
      InstanceBytesSnoc(instances);
      assert (n + 1) * |Encode(src2)| == n * |Encode(src2)| + |Encode(src2)|;
    }
  }

  lemma CopiesSnoc(instances: seq<seq<Node>>, src2: seq<Node>)
    requires AllValid(src2) && instances != [] && forall i :: 0 <= i < |instances| ==> AllValid(instances[i])
    ensures var n := |instances| - 1;
            |Copies(instances, src2)| == |Copies(instances[..n], src2)| + |Encode(instances[n])| + |Encode(src2)| + HEADER
  {
    hide Encode;
  }

  /** The allocation of k * Src1Size + Src2Size bytes holds what is written exactly when there is one
      instance or Src2 is not the longer path. */
  lemma FitsIff(src1: seq<Node>, src2: seq<Node>)
    requires WellFormed(src1) && WellFormed(src2)
    ensures forall i :: 0 <= i < |Instances(src1)| ==> AllValid(Instances(src1)[i])
    ensures var k, s1, s2 := |Instances(src1)|, |Encode(src1)|, |Encode(src2)|;
            && |Copies(Instances(src1), src2)| == s1 + k * s2
            && (|Copies(Instances(src1), src2)| <= s1 * k + s2 <==> k == 1 || s2 <= s1)
  {
    SpansSum(src1);
    CopiesLength(Instances(src1), src2);
    Compare(|Instances(src1)|, |Encode(src1)|, |Encode(src2)|);
  }

  /** The smallest case: two empty instances and a longer Src2; 28 bytes are written to 26. */
  lemma TwoInstancesDoNotFit()
    ensures var src1, src2 := [END_INSTANCE_DEVICE_PATH, END_DEVICE_PATH], [Node(1, 1, [0, 0]), END_DEVICE_PATH];
            && WellFormed(src1) && WellFormed(src2)
            && (forall i :: 0 <= i < |Instances(src1)| ==> AllValid(Instances(src1)[i]))
            && |Encode(src1)| == 8 && |Encode(src2)| == 10 && |Instances(src1)| == 2
            && |Copies(Instances(src1), src2)| == 28 > |Encode(src1)| * |Instances(src1)| + |Encode(src2)| == 26
  {
    var src1, src2 := [END_INSTANCE_DEVICE_PATH, END_DEVICE_PATH], [Node(1, 1, [0, 0]), END_DEVICE_PATH];
    assert src1[1..] == [END_DEVICE_PATH] == src2[1..] && [END_DEVICE_PATH][1..] == [];
    assert |Encode([END_DEVICE_PATH])| == HEADER;
    InstancesAt(src1, 0);
    InstancesAt([END_DEVICE_PATH], 0);
    FitsIff(src1, src2);
  }

  lemma Compare(k: nat, s1: nat, s2: nat)
    requires k >= 1
    ensures s1 + k * s2 <= s1 * k + s2 <==> k == 1 || s2 <= s1
  {
  }

  /** Nodes put in front of a path join its first instance. */
  lemma Prefixed(pre: seq<Node>, path: seq<Node>)
    requires AllValid(pre) && WellFormed(path) && forall i :: 0 <= i < |pre| ==> !pre[i].IsEndType()
    ensures WellFormed(pre + path)
    ensures Instances(pre + path) == [pre + Instances(path)[0]] + Instances(path)[1..]
  {
    hide WellFormed, FirstEnd, Instances, Later, Node.IsEndType;
    var f := FirstEnd(path);
    PrefixedWellFormed(pre, path);
    PrefixedAt(pre, path, f);
    FirstAndRest(path, f, path[..f], path[f + 1..]);
    FirstAndRest(pre + path, |pre| + f, pre + path[..f], path[f + 1..]);
  }

  lemma FirstAndRest(nodes: seq<Node>, e: nat, first: seq<Node>, later: seq<Node>)
    requires WellFormed(nodes) && e < |nodes| && nodes[e].IsEndType() && forall i :: 0 <= i < e ==> !nodes[i].IsEndType()
    requires first == nodes[..e] && later == nodes[e + 1..]
    ensures later != [] ==> WellFormed(later)
    ensures var rest := if later != [] then Instances(later) else [];
            Instances(nodes) == [first] + rest && Instances(nodes)[0] == first && Instances(nodes)[1..] == rest
  {
    hide WellFormed, FirstEnd, Instances, Later, Node.IsEndType;
    InstancesAt(nodes, e);
  }

  lemma PrefixedAt(pre: seq<Node>, path: seq<Node>, f: nat)
    requires f < |path| && (forall i :: 0 <= i < |pre| ==> !pre[i].IsEndType())
    requires path[f].IsEndType() && forall i :: 0 <= i < f ==> !path[i].IsEndType()
    ensures var all := pre + path;
            && all[|pre| + f].IsEndType() && (forall i :: 0 <= i < |pre| + f ==> !all[i].IsEndType())
            && all[..|pre| + f] == pre + path[..f] && all[|pre| + f + 1..] == path[f + 1..]
  {
  }

  lemma PrefixedWellFormed(pre: seq<Node>, path: seq<Node>)
    requires AllValid(pre) && WellFormed(path) && forall i :: 0 <= i < |pre| ==> !pre[i].IsEndType()
    ensures WellFormed(pre + path)
  {
  }

  /** What a reader makes of the result: the end node of the first copy of Src2 ends the path, so however
      many instances Src1 has, the result reads as the first of them followed by Src2, and has the
      instance count of Src2. */
  lemma ReadsAsFirst(src1: seq<Node>, src2: seq<Node>)
    requires WellFormed(src1) && WellFormed(src2)
    ensures forall i :: 0 <= i < |Instances(src1)| ==> AllValid(Instances(src1)[i])
    ensures var first := Instances(src1)[0];
            && WellFormed(first + src2)
            && Encode(first + src2) <= Appended(Instances(src1), src2)
            && Instances(first + src2) == [first + Instances(src2)[0]] + Instances(src2)[1..]
            && |Instances(first + src2)| == |Instances(src2)|
  {
    InstancesValid(src1);
    FirstIsPrefix(src1);
    hide FirstEnd, Later, Instances, Encode, Appended;
    var first := Instances(src1)[0];
    Prefixed(first, src2);
    EncodeConcat(first, src2);
    FirstCopy(Instances(src1), src2);
  }

  /** What the comment promises: Src2 on every instance of Src1. Its first instance joins the nodes of that one, its
      later ones follow. */
  function Promised(ones: seq<seq<Node>>, twos: seq<seq<Node>>): seq<seq<Node>>
    requires twos != []
  {
    if ones == [] then [] else [ones[0] + twos[0]] + twos[1..] + Promised(ones[1..], twos)
  }

  lemma {:induction false} PromisedLength(ones: seq<seq<Node>>, twos: seq<seq<Node>>)
    requires twos != []
    ensures |Promised(ones, twos)| == |ones| * |twos|
  {
    if ones != [] {
      PromisedLength(ones[1..], twos);
      assert |ones| * |twos| == (|ones| - 1) * |twos| + |twos|;
    }
  }

  /** The result reads as promised exactly when Src1 has one instance. */
  lemma PromiseKeptIff(src1: seq<Node>, src2: seq<Node>)
    requires WellFormed(src1) && WellFormed(src2)
    ensures WellFormed(Instances(src1)[0] + src2)
    ensures Instances(Instances(src1)[0] + src2) == Promised(Instances(src1), Instances(src2)) <==> |Instances(src1)| == 1
  {
    ReadsAsFirst(src1, src2);
    var ones, twos := Instances(src1), Instances(src2);
    PromisedLength(ones, twos);
    TimesIsSame(|ones|, |twos|);
    if |ones| == 1 { PromisedOnce(ones, twos); }
    hide Instances, WellFormed, Promised;
  }

  lemma PromisedOnce(ones: seq<seq<Node>>, twos: seq<seq<Node>>)
    requires |ones| == 1 && twos != []
    ensures Promised(ones, twos) == [ones[0] + twos[0]] + twos[1..]
  {
    assert Promised(ones[1..], twos) == [];
  }

  lemma TimesIsSame(k: nat, n: nat)
    requires k >= 1 && n >= 1
    ensures k * n == n <==> k == 1
  {
    assert k * n == n + (k - 1) * n;
    if k > 1 { assert (k - 1) * n >= n; }
  }

  /** Two empty instances and an empty Src2 fit the allocation, and read as one instance instead of two. */
  lemma SecondInstanceLost()
    ensures var src1, src2 := [END_INSTANCE_DEVICE_PATH, END_DEVICE_PATH], [END_DEVICE_PATH];
            && WellFormed(src1) && WellFormed(src2) && |Encode(src2)| <= |Encode(src1)|
            && |Instances(src1)| == 2 && WellFormed(Instances(src1)[0] + src2)
            && |Instances(Instances(src1)[0] + src2)| == 1
  {
    var src1, src2 := [END_INSTANCE_DEVICE_PATH, END_DEVICE_PATH], [END_DEVICE_PATH];
    assert src1[1..] == src2 && src2[1..] == [];
    assert |Encode(src2)| == HEADER;
    InstancesAt(src1, 0);
    InstancesAt(src2, 0);
    ReadsAsFirst(src1, src2);
  }

  lemma FirstIsPrefix(nodes: seq<Node>)
    requires WellFormed(nodes)
    ensures var first := Instances(nodes)[0];
            && (forall i :: 0 <= i < |first| ==> !first[i].IsEndType())
            && (|Instances(nodes)| == 1 ==> first == nodes[..|nodes| - 1])
  {
  }

  lemma {:induction false} FirstCopy(instances: seq<seq<Node>>, src2: seq<Node>)
    requires AllValid(src2) && instances != [] && forall i :: 0 <= i < |instances| ==> AllValid(instances[i])
    ensures Copy(instances[0], src2) <= Appended(instances, src2)
    decreases |instances|
  {
    var n := |instances| - 1;
    if n > 0 {
      CopiesFirst(instances[..n], src2);
    }
  }

  lemma {:induction false} CopiesFirst(instances: seq<seq<Node>>, src2: seq<Node>)
    requires AllValid(src2) && instances != [] && forall i :: 0 <= i < |instances| ==> AllValid(instances[i])
    ensures Copy(instances[0], src2) <= Copies(instances, src2)
    decreases |instances|
  {
    var n := |instances| - 1;
    hide Copy;
    if n > 0 {
      CopiesFirst(instances[..n], src2);
    } else {
      assert instances[..n] == [];
    }
  }

  /** The last end marker the loop wrote, rewritten. */
  lemma LastMarker(instances: seq<seq<Node>>, src2: seq<Node>)
    requires AllValid(src2) && instances != [] && forall i :: 0 <= i < |instances| ==> AllValid(instances[i])
    ensures var w := Copies(instances, src2);
            |w| >= HEADER && w[..|w| - HEADER] + END_DEVICE_PATH.Bytes() == Appended(instances, src2)
  {
  }

  /** The bytes of the first instance. */
  lemma InstanceSpelled(buf: seq<byte>, pos: nat, nodes: seq<Node>, e: nat)
    requires AllValid(nodes) && e < |nodes| && Spells(buf, pos, nodes)
    ensures Spells(buf, pos, nodes[..e])
  {
    EncodeSplit(nodes, e);
    var w := Encode(nodes);
    var n := |Encode(nodes[..e])|;
    assert buf[pos..pos + |w|][..n] == buf[pos..pos + n];
    assert w[..n] == Encode(nodes[..e]);
  }

  /** AppendDevicePath of two paths: Src2 behind every instance of Src1. */
  method AppendDevicePathBoth(path1: Pointer, path2: Pointer, granted: bool, ghost src1: seq<Node>, ghost src2: seq<Node>)
    returns (dst: array?<byte>)
    requires WellFormed(src1) && Short(src1) && Spells(path1.buf[..], path1.pos, src1)
    requires WellFormed(src2) && Spells(path2.buf[..], path2.pos, src2)
    requires |Instances(src1)| == 1 || |Encode(src2)| <= |Encode(src1)|   // what fits, by FitsIff
    ensures dst == null <==> !granted
    ensures forall i :: 0 <= i < |Instances(src1)| ==> AllValid(Instances(src1)[i])
    ensures dst != null ==>
              && fresh(dst) && dst.Length == |Encode(src1)| * |Instances(src1)| + |Encode(src2)|
              && Appended(Instances(src1), src2) <= dst[..]
  {
    FitsIff(src1, src2);
    ghost var all := Instances(src1);
    hide Spells, Encode, FirstEnd, Later, Short, Copies, Instances;
    var src1Size := DevicePathSize(path1, src1);
    var src1Inst := DevicePathInstanceCount(Some(path1), src1);
    var src2Size := DevicePathSize(path2, src2);
    if !granted {
      return null;
    }
    var size := src1Size * src1Inst + src2Size;
    dst := new byte[size];
    var dstPos := CopyInstances(dst, path1, path2, src2Size, src1, src2);
    dstPos := dstPos - HEADER;
    LastMarker(all, src2);
    assert dst[..dstPos] == Copies(all, src2)[..dstPos];
    CopyEnd(dst, dstPos, END_DEVICE_PATH);
    assert dst[..dstPos + HEADER] == Appended(all, src2);
  }

  /** One turn of the copy loop: an instance, Src2 and the end of an instance. */
  method CopyInstance(dst: array<byte>, at: nat, inst: Pointer, size: nat, path2: Pointer, src2Size: nat,
                      ghost instance: seq<Node>, ghost src2: seq<Node>)
    returns (dstPos: nat)
    requires AllValid(instance) && Spells(inst.buf[..], inst.pos, instance) && size == |Encode(instance)|
    requires AllValid(src2) && Spells(path2.buf[..], path2.pos, src2) && src2Size == |Encode(src2)|
    requires dst != inst.buf && dst != path2.buf && at + size + src2Size + HEADER <= dst.Length
    modifies dst
    ensures dstPos == at + size + src2Size + HEADER
    ensures dst[..dstPos] == old(dst[..at]) + Encode(instance) + Encode(src2) + END_INSTANCE_DEVICE_PATH.Bytes()
  {
    hide Spells, Encode, Node.Bytes;
    CopyPath(dst, at, inst, size, instance);
    dstPos := at + size;
    CopyPath(dst, dstPos, path2, src2Size, src2);
    dstPos := dstPos + src2Size;
    CopyEnd(dst, dstPos, END_INSTANCE_DEVICE_PATH);
    dstPos := dstPos + HEADER;
  }

  /** The copy loop. */
  method CopyInstances(dst: array<byte>, path1: Pointer, path2: Pointer, src2Size: nat,
                       ghost src1: seq<Node>, ghost src2: seq<Node>)
    returns (dstPos: nat)
    requires WellFormed(src1) && Short(src1) && Spells(path1.buf[..], path1.pos, src1)
    requires WellFormed(src2) && Spells(path2.buf[..], path2.pos, src2) && src2Size == |Encode(src2)|
    requires dst != path1.buf && dst != path2.buf
    requires forall i :: 0 <= i < |Instances(src1)| ==> AllValid(Instances(src1)[i])
    requires |Copies(Instances(src1), src2)| <= dst.Length
    modifies dst
    ensures dstPos == |Copies(Instances(src1), src2)| && dst[..dstPos] == Copies(Instances(src1), src2)
  {
    hide Spells, Encode, FirstEnd, Later, Short, Copies, Instances;
    ghost var all := Instances(src1);
    var path := Some(path1);
    ghost var rest, k := src1, 0;
    dstPos := 0;
    NoCopies(src2);
    while true
      invariant k <= |all| && dstPos == |Copies(all[..k], src2)| <= dst.Length && dst[..dstPos] == Copies(all[..k], src2)
      invariant path.Some? ==>
                  && path.value.buf == path1.buf && WellFormed(rest) && Short(rest)
                  && Spells(path1.buf[..], path.value.pos, rest)
      invariant path.Some? ==> all[k..] == Instances(rest)
      invariant path.None? ==> k == |all|
      decreases |all| - k, if path.Some? then 1 else 0
    {
      var inst, size, next := DevicePathInstance(path, rest);
      if inst.None? {
        break;
      }
      InstanceStep(rest);
      NextInstance(path1.buf[..], path.value.pos, rest);
      assert all[k] == all[k..][0] == rest[..FirstEnd(rest)];
      CopiesStep(all, src2, k);
      dstPos := CopyInstance(dst, dstPos, inst.value, size, path2, src2Size, rest[..FirstEnd(rest)], src2);
      k := k + 1;
      path := next;
      rest := Later(rest);
    }
    assert all[..k] == all;
  }

  lemma NoCopies(src2: seq<Node>)
    requires AllValid(src2)
    ensures Copies([], src2) == []
  {
  }

  /** The instance the walk hands out, and what it leaves. */
  lemma NextInstance(buf: seq<byte>, pos: nat, nodes: seq<Node>)
    requires WellFormed(nodes) && Spells(buf, pos, nodes)
    ensures var e := FirstEnd(nodes);
            && Spells(buf, pos, nodes[..e])
            && Instances(nodes) == [nodes[..e]] + (if Later(nodes) != [] then Instances(Later(nodes)) else [])
            && (nodes[e].subType == END_ENTIRE <==> Later(nodes) == [])
  {
    AfterFirst(nodes);
    InstanceSpelled(buf, pos, nodes, FirstEnd(nodes));
  }

  lemma CopiesMonotone(all: seq<seq<Node>>, src2: seq<Node>, k: nat)
    requires AllValid(src2) && (forall i :: 0 <= i < |all| ==> AllValid(all[i])) && k <= |all|
    ensures |Copies(all[..k], src2)| <= |Copies(all, src2)|
    decreases |all|
  {
    if k < |all| {
      assert all[..|all| - 1][..k] == all[..k];
      CopiesMonotone(all[..|all| - 1], src2, k);
    } else {
      assert all[..k] == all;
    }
  }

  lemma {:induction false} CopiesPrefix(all: seq<seq<Node>>, src2: seq<Node>, k: nat)
    requires AllValid(src2) && (forall i :: 0 <= i < |all| ==> AllValid(all[i])) && k <= |all|
    ensures Copies(all[..k], src2) <= Copies(all, src2)
    decreases |all|
  {
    if k < |all| {
      assert all[..|all| - 1][..k] == all[..k];
      CopiesPrefix(all[..|all| - 1], src2, k);
      hide Copy;
    } else {
      assert all[..k] == all;
    }
  }

  lemma AppendedPart(instances: seq<seq<Node>>, src2: seq<Node>, i: nat)
    requires AllValid(src2) && (forall k :: 0 <= k < |instances| ==> AllValid(instances[k])) && i < |instances|
    ensures var end := if i == |instances| - 1 then END_DEVICE_PATH else END_INSTANCE_DEVICE_PATH;
            Copies(instances[..i], src2) + (Encode(instances[i]) + Encode(src2)) + end.Bytes() <= Appended(instances, src2)
  {
    hide Encode, Node.Bytes, Node.Valid, Copies, Appended;
    var last := |instances| - 1;
    if i == last {
      LastPart(instances, src2);
    } else {
      CopiesStep(instances, src2, i);
      assert instances[..last][..i + 1] == instances[..i + 1];
      CopiesPrefix(instances[..last], src2, i + 1);
      CopiesInAppended(instances, src2);
      Grouped(Copies(instances[..i], src2), Encode(instances[i]), Encode(src2), END_INSTANCE_DEVICE_PATH.Bytes());
    }
  }

  lemma LastPart(instances: seq<seq<Node>>, src2: seq<Node>)
    requires AllValid(src2) && instances != [] && forall k :: 0 <= k < |instances| ==> AllValid(instances[k])
    ensures var last := |instances| - 1;
            Copies(instances[..last], src2) + (Encode(instances[last]) + Encode(src2)) + END_DEVICE_PATH.Bytes()
            == Appended(instances, src2)
  {
    hide Encode, Copies, Node.Bytes;
  }

  lemma CopiesInAppended(instances: seq<seq<Node>>, src2: seq<Node>)
    requires AllValid(src2) && instances != [] && forall k :: 0 <= k < |instances| ==> AllValid(instances[k])
    ensures Copies(instances[..|instances| - 1], src2) <= Appended(instances, src2)
  {
    hide Copies, Copy, Node.Bytes;
  }

  lemma Grouped(a: seq<byte>, b: seq<byte>, c: seq<byte>, d: seq<byte>)
    ensures a + b + c + d == a + (b + c) + d
  {
  }

  lemma AppendedLength(instances: seq<seq<Node>>, src2: seq<Node>)
    requires AllValid(src2) && instances != [] && forall k :: 0 <= k < |instances| ==> AllValid(instances[k])
    ensures |Appended(instances, src2)| == InstanceBytes(instances) + |instances| * |Encode(src2)|
  {
    CopiesLength(instances, src2);
    hide Encode, InstanceBytes;
  }

  /** What is written for instance `i`: its bytes, Src2 with its own end node, and an end node, which is that of the
      whole path behind the last instance and of an instance behind the others. */
  lemma CopyAt(instances: seq<seq<Node>>, src2: seq<Node>, i: nat)
    requires AllValid(src2) && (forall k :: 0 <= k < |instances| ==> AllValid(instances[k])) && i < |instances|
    ensures |Appended(instances, src2)| == InstanceBytes(instances) + |instances| * |Encode(src2)|
    ensures var at := InstanceBytes(instances[..i]) + i * |Encode(src2)|;
            var end := at + |Encode(instances[i])| + |Encode(src2)|;
            && end + 4 <= |Appended(instances, src2)|
            && Appended(instances, src2)[at..end] == Encode(instances[i]) + Encode(src2)
            && Appended(instances, src2)[end..end + 4] == [0x7f, if i == |instances| - 1 then 0xff else 0x01, 4, 0]
  {
    var end := if i == |instances| - 1 then END_DEVICE_PATH else END_INSTANCE_DEVICE_PATH;
    EndBytes();
    AppendedLength(instances, src2);
    AppendedPart(instances, src2, i);
    CopiesLength(instances[..i], src2);
    hide InstanceBytes, Encode, Copies, Appended, Node.Bytes;
    PartOf(Copies(instances[..i], src2), Encode(instances[i]) + Encode(src2), end.Bytes(), Appended(instances, src2));
  }

  lemma EndBytes()
    ensures END_DEVICE_PATH.Bytes() == [0x7f, 0xff, 4, 0] && END_INSTANCE_DEVICE_PATH.Bytes() == [0x7f, 0x01, 4, 0]
  {
  }

  lemma PartOf(head: seq<byte>, one: seq<byte>, end: seq<byte>, w: seq<byte>)
    requires head + one + end <= w && |end| == 4
    ensures w[|head|..|head| + |one|] == one && w[|head| + |one|..|head| + |one| + 4] == end
  {
    var s := head + one + end;
    assert s == w[..|s|];
    assert s[|head|..|head| + |one|] == one && s[|head| + |one|..] == end;
  }

  /** One round of the copy loop. */
  lemma CopiesStep(all: seq<seq<Node>>, src2: seq<Node>, k: nat)
    requires AllValid(src2) && (forall i :: 0 <= i < |all| ==> AllValid(all[i])) && k < |all|
    ensures Copies(all[..k + 1], src2)
            == Copies(all[..k], src2) + Encode(all[k]) + Encode(src2) + END_INSTANCE_DEVICE_PATH.Bytes()
    ensures |Copies(all[..k + 1], src2)| <= |Copies(all, src2)|
    ensures |END_INSTANCE_DEVICE_PATH.Bytes()| == HEADER
  {
    CopiesMonotone(all, src2, k + 1);
    assert all[..k + 1][..k] == all[..k];
    assert Copies(all[..k], src2) + (Encode(all[k]) + Encode(src2)) == Copies(all[..k], src2) + Encode(all[k]) + Encode(src2);
  }

  /** AppendDevicePath; without one of the paths the other is just duplicated. */
  method AppendDevicePath(path1: Option<Pointer>, path2: Option<Pointer>, granted: bool,
                          ghost src1: seq<Node>, ghost src2: seq<Node>)
    returns (dst: array?<byte>)
    requires path1.Some? || path2.Some?
    requires path1.Some? ==> WellFormed(src1) && Short(src1) && Spells(path1.value.buf[..], path1.value.pos, src1)
    requires path2.Some? ==> WellFormed(src2) && Spells(path2.value.buf[..], path2.value.pos, src2)
    requires path1.Some? && path2.Some? ==> |Instances(src1)| == 1 || |Encode(src2)| <= |Encode(src1)|
    ensures dst == null <==> !granted
    ensures dst != null ==> fresh(dst)
    ensures dst != null && path1.None? ==> dst[..] == Encode(src2)
    ensures dst != null && path2.None? ==> dst[..] == Encode(src1)
    ensures path1.Some? ==> forall i :: 0 <= i < |Instances(src1)| ==> AllValid(Instances(src1)[i])
    ensures dst != null && path1.Some? && path2.Some? ==>
              Appended(Instances(src1), src2) <= dst[..] && Joined(src1, src2, dst[..])
  {
    hide Spells, Encode, FirstEnd, Later, Short, Instances, Appended, Joined;
    if path1.None? {
      dst := DuplicateDevicePath(path2.value, granted, src2);
      return;
    }
    InstancesValid(src1);
    if path2.None? {
      dst := DuplicateDevicePath(path1.value, granted, src1);
      return;
    }
    dst := AppendDevicePathBoth(path1.value, path2.value, granted, src1, src2);
    if dst != null {
      JoinedFits(src1, src2, dst[..]);
    }
  }

  /** A buffer that reads as the first instance of Src1 followed by Src2. */
  ghost predicate Joined(src1: seq<Node>, src2: seq<Node>, buf: seq<byte>)
    requires WellFormed(src1)
  {
    WellFormed(Instances(src1)[0] + src2) && Spells(buf, 0, Instances(src1)[0] + src2)
  }

  lemma JoinedFits(src1: seq<Node>, src2: seq<Node>, buf: seq<byte>)
    requires WellFormed(src1) && WellFormed(src2)
    requires forall i :: 0 <= i < |Instances(src1)| ==> AllValid(Instances(src1)[i])
    requires Appended(Instances(src1), src2) <= buf
    ensures Joined(src1, src2, buf)
  {
    hide Appended, Instances, Encode;
    ReadsAsFirst(src1, src2);
    var w := Encode(Instances(src1)[0] + src2);
    assert buf[0..|w|] == Appended(Instances(src1), src2)[..|w|] == w;
  }

  // ---------- appending a node ----------

  /** AppendDevicePathNode: the node gets an end node of its own, then is appended as a path. `granted`
      and `granted2` are the two allocations. */
  method AppendDevicePathNode(path1: Option<Pointer>, src2: Pointer, granted: bool, granted2: bool,
                              ghost src1: seq<Node>, ghost node: Node)
    returns (dst: array?<byte>)
    requires node.Valid() && !node.IsEnd() && Spells(src2.buf[..], src2.pos, [node])
    requires path1.Some? ==> WellFormed(src1) && Short(src1) && Spells(path1.value.buf[..], path1.value.pos, src1)
    requires path1.Some? ==> |Instances(src1)| == 1 || node.Length() + HEADER <= |Encode(src1)|
    ensures dst == null <==> !granted || !granted2
    ensures dst != null ==> fresh(dst)
    ensures WellFormed([node, END_DEVICE_PATH])
    ensures dst != null && path1.None? ==> dst[..] == Encode([node, END_DEVICE_PATH])
    ensures path1.Some? ==> forall i :: 0 <= i < |Instances(src1)| ==> AllValid(Instances(src1)[i])
    ensures dst != null && path1.Some? ==>
              Appended(Instances(src1), [node, END_DEVICE_PATH]) <= dst[..] && Joined(src1, [node, END_DEVICE_PATH], dst[..])
  {
    hide FirstEnd, Later, Short, Instances, Appended, Joined;
    TwoNodes(node);
    if path1.Some? { InstancesValid(src1); }
    NodeLength(src2.buf[..], src2.pos, node);
    hide Spells, Encode, Node.Bytes, LengthAt;
    var length := LengthAt(src2.buf[..], src2.pos);
    if !granted {
      return null;
    }
    var temp := new byte[length + HEADER];
    CopyPath(temp, 0, src2, length, [node]);
    var eop := length;
    CopyEnd(temp, eop, END_DEVICE_PATH);
    assert temp[..] == temp[..length + HEADER];
    WholeSpelled(temp[..], [node, END_DEVICE_PATH]);
    dst := AppendDevicePath(path1, Some(Pointer(temp, 0)), granted2, src1, [node, END_DEVICE_PATH]);
  }

  lemma NodeLength(buf: seq<byte>, pos: nat, node: Node)
    requires node.Valid() && Spells(buf, pos, [node])
    ensures pos + HEADER <= |buf| && LengthAt(buf, pos) == node.Length()
  {
    FirstNode(buf, pos, [node]);
  }

  lemma TwoNodes(node: Node)
    requires node.Valid() && !node.IsEnd()
    ensures WellFormed([node, END_DEVICE_PATH]) && Encode([node]) == node.Bytes() && |Encode([node])| == node.Length()
    ensures Encode([node, END_DEVICE_PATH]) == Encode([node]) + END_DEVICE_PATH.Bytes()
    ensures |Encode([node, END_DEVICE_PATH])| == node.Length() + HEADER
  {
    assert END_DEVICE_PATH.Valid();
    assert [node, END_DEVICE_PATH][1..] == [END_DEVICE_PATH];
    assert [END_DEVICE_PATH][1..] == [] && [node][1..] == [];
  }

  lemma WholeSpelled(buf: seq<byte>, nodes: seq<Node>)
    requires AllValid(nodes) && buf == Encode(nodes)
    ensures Spells(buf, 0, nodes)
  {
  }
}
