/** The device-path functions of gnu-efi/lib/dpath.c, on byte buffers. */
module DevicePathLib {
  import opened Common
  import opened DevicePath

  /** A pointer into a buffer. */
  datatype Pointer = Pointer(buf: array<byte>, pos: nat)

  // ---------- instances ----------

  /** The position of the node that ends the first instance. */
  function FirstEnd(nodes: seq<Node>): (e: nat)
    requires WellFormed(nodes)
    ensures e < |nodes| && nodes[e].IsEndType()
    ensures forall i :: 0 <= i < e ==> !nodes[i].IsEndType()
  {
    if nodes[0].IsEndType() then 0 else 1 + FirstEnd(nodes[1..])
  }

  /** What follows the first instance. */
  function Later(nodes: seq<Node>): seq<Node>
    requires WellFormed(nodes)
  {
    nodes[FirstEnd(nodes) + 1..]
  }

  lemma AfterFirst(nodes: seq<Node>)
    requires WellFormed(nodes)
    ensures Later(nodes) == [] <==> nodes[FirstEnd(nodes)].IsEnd()
    ensures Later(nodes) != [] ==> WellFormed(Later(nodes))
    ensures nodes[FirstEnd(nodes)].IsEnd() <==> nodes[FirstEnd(nodes)].subType == END_ENTIRE
  {
  }

  /** The instances, without their end nodes. */
  function Instances(nodes: seq<Node>): (r: seq<seq<Node>>)
    requires WellFormed(nodes)
    ensures r != []
    decreases |nodes|
  {
    AfterFirst(nodes);
    [nodes[..FirstEnd(nodes)]] + if Later(nodes) != [] then Instances(Later(nodes)) else []
  }

  /** The instances with their end nodes in between. */
  function Woven(instances: seq<seq<Node>>, ends: seq<Node>): seq<Node>
    requires |ends| == |instances|
  {
    if instances == [] then [] else instances[0] + [ends[0]] + Woven(instances[1..], ends[1..])
  }

  /** No end node inside. */
  predicate Plain(instance: seq<Node>) {
    forall j :: 0 <= j < |instance| ==> instance[j].kind % 128 != 127
  }

  /** Node `i` of so many end nodes: the last one ends the whole path, the others an instance. */
  predicate Ends(node: Node, last: bool) {
    node.kind % 128 == 127 && node.subType == if last then 0xff else 0x01
  }

  /** Cutting loses nothing: a path is its instances, each with an end node behind it and none inside. */
  lemma {:induction false} InstancesWoven(nodes: seq<Node>) returns (ends: seq<Node>)
    requires WellFormed(nodes)
    ensures |ends| == |Instances(nodes)| && nodes == Woven(Instances(nodes), ends)
    ensures forall i :: 0 <= i < |ends| ==> Plain(Instances(nodes)[i]) && Ends(ends[i], i == |ends| - 1)
    decreases |nodes|
  {
    var e := FirstEnd(nodes);
    var first, later := nodes[..e], Later(nodes);
    FirstInstance(nodes);
    hide FirstEnd, Later, Instances, WellFormed, Woven, Plain, Ends;
    ends := [];
    if later != [] {
      ends := InstancesWoven(later);
    }
    WovenCons(first, nodes[e], if later != [] then Instances(later) else [], ends);
    ends := [nodes[e]] + ends;
  }

  lemma FirstInstance(nodes: seq<Node>)
    requires WellFormed(nodes)
    ensures var e, later := FirstEnd(nodes), Later(nodes);
            && nodes == nodes[..e] + [nodes[e]] + later && |later| < |nodes| && (later != [] ==> WellFormed(later))
            && Plain(nodes[..e]) && Ends(nodes[e], later == [])
            && Instances(nodes) == [nodes[..e]] + if later != [] then Instances(later) else []
  {
    AfterFirst(nodes);
    var e := FirstEnd(nodes);
    assert nodes[e].Valid();
    hide FirstEnd, WellFormed;
    CutAt(nodes, e);
  }

  lemma CutAt(nodes: seq<Node>, e: nat)
    requires e < |nodes|
    ensures nodes == nodes[..e] + [nodes[e]] + nodes[e + 1..]
  {
  }

  lemma WovenCons(first: seq<Node>, end: Node, instances: seq<seq<Node>>, ends: seq<Node>)
    requires |ends| == |instances|
    ensures Woven([first] + instances, [end] + ends) == first + [end] + Woven(instances, ends)
    ensures Woven([], []) == []
  {
    assert ([first] + instances)[1..] == instances && ([end] + ends)[1..] == ends;
  }

  predicate Short(nodes: seq<Node>)
    requires WellFormed(nodes)
  {
    forall i :: 0 <= i < |Instances(nodes)| ==> |Instances(nodes)[i]| <= MAX_COUNT + 1
  }

  /** The bytes of the instances and one end node each. */
  function InstanceBytes(instances: seq<seq<Node>>): nat
    requires forall i :: 0 <= i < |instances| ==> AllValid(instances[i])
  {
    if instances == [] then 0 else |Encode(instances[0])| + HEADER + InstanceBytes(instances[1..])
  }

  lemma {:induction false} InstancesValid(nodes: seq<Node>)
    requires WellFormed(nodes)
    ensures forall i :: 0 <= i < |Instances(nodes)| ==> AllValid(Instances(nodes)[i])
    decreases |nodes|
  {
    AfterFirst(nodes);
    if Later(nodes) != [] { InstancesValid(Later(nodes)); }
  }

  /** The spans of the instances plus four bytes for each end node make up the whole path. */
  lemma {:induction false} SpansSum(nodes: seq<Node>)
    requires WellFormed(nodes)
    ensures forall i :: 0 <= i < |Instances(nodes)| ==> AllValid(Instances(nodes)[i])
    ensures InstanceBytes(Instances(nodes)) == |Encode(nodes)|
    decreases |nodes|
  {
    InstancesValid(nodes);
    AfterFirst(nodes);
    var e := FirstEnd(nodes);
    EncodeSplit(nodes, e);
    assert nodes[..e] == Instances(nodes)[0] && Later(nodes) == nodes[e + 1..];
    assert AllValid(nodes[..e]);
    if Later(nodes) != [] {
      SpansSum(Later(nodes));
      hide FirstEnd, Later, InstanceBytes, Encode, WellFormed, Node.Bytes, Node.Valid;
      OneMore(nodes[..e], Instances(Later(nodes)));
    } else {
      hide FirstEnd, Later, InstanceBytes, WellFormed, Node.Bytes, Node.Valid;
      OneMore(nodes[..e], []);
      assert [nodes[..e]] + [] == [nodes[..e]];
    }
  }

  lemma OneMore(first: seq<Node>, rest: seq<seq<Node>>)
    requires AllValid(first) && forall i :: 0 <= i < |rest| ==> AllValid(rest[i])
    ensures forall i :: 0 <= i < |[first] + rest| ==> AllValid(([first] + rest)[i])
    ensures InstanceBytes([first] + rest) == |Encode(first)| + HEADER + InstanceBytes(rest)
    ensures InstanceBytes([]) == 0
  {
  }

  lemma EncodeSplit(nodes: seq<Node>, e: nat)
    requires AllValid(nodes) && e < |nodes|
    ensures Encode(nodes) == Encode(nodes[..e]) + nodes[e].Bytes() + Encode(nodes[e + 1..])
    ensures nodes[e].IsEndType() ==> |nodes[e].Bytes()| == HEADER
  {
    assert nodes == nodes[..e] + nodes[e..] && nodes[e..][1..] == nodes[e + 1..];
    assert nodes[e].Valid();
    EncodeConcat(nodes[..e], nodes[e..]);
  }

  // ---------- walkers ----------

  /** Where the walk stands after `k` nodes. */
  lemma WalkOn(buf: seq<byte>, pos: nat, nodes: seq<Node>, k: nat, at: nat)
    requires AllValid(nodes) && k < |nodes| && Spells(buf, at, nodes[k..]) && at == pos + |Encode(nodes[..k])|
    ensures at + HEADER <= |buf| && LengthAt(buf, at) == nodes[k].Length()
    ensures EndTypeAt(buf, at) == nodes[k].IsEndType() && EndAt(buf, at) == nodes[k].IsEnd() && buf[at + 1] == nodes[k].subType
    ensures Spells(buf, at + nodes[k].Length(), nodes[k + 1..])
    ensures at + nodes[k].Length() == pos + |Encode(nodes[..k + 1])|
  {
    FirstNode(buf, at, nodes[k..]);
    assert nodes[k..][1..] == nodes[k + 1..];
    assert nodes[..k + 1] == nodes[..k] + [nodes[k]];
    assert [nodes[k]][1..] == [];
    EncodeConcat(nodes[..k], [nodes[k]]);
  }

  lemma WalkStarts(nodes: seq<Node>)
    requires AllValid(nodes)
    ensures nodes[0..] == nodes && |Encode(nodes[..0])| == 0
  {
  }

  method DevicePathSize(p: Pointer, ghost nodes: seq<Node>) returns (size: nat)
    requires WellFormed(nodes) && Spells(p.buf[..], p.pos, nodes)
    ensures size == |Encode(nodes)|
  {
    hide Spells, EndAt, LengthAt;
    var devPath := p.pos;
    ghost var k := 0;
    assert nodes[0..] == nodes;
    while true
      invariant k < |nodes| && devPath == p.pos + |Encode(nodes[..k])| && Spells(p.buf[..], devPath, nodes[k..])
      decreases |nodes| - k
    {
      WalkOn(p.buf[..], p.pos, nodes, k, devPath);
      if EndAt(p.buf[..], devPath) {
        break;
      }
      devPath := devPath + LengthAt(p.buf[..], devPath);
      k := k + 1;
    }
    assert nodes[..k + 1] == nodes;
    size := devPath - p.pos + HEADER;
  }

  /** The first instance of the path: its start, its size, and where the next one starts, if any. The
      walk gives up after MAX_COUNT + 1 nodes. */
  method DevicePathInstance(devicePath: Option<Pointer>, ghost nodes: seq<Node>)
    returns (start: Option<Pointer>, size: nat, nextPath: Option<Pointer>)
    requires devicePath.Some? ==> WellFormed(nodes) && Spells(devicePath.value.buf[..], devicePath.value.pos, nodes)
    ensures start == devicePath
    ensures devicePath.None? ==> nextPath == None
    ensures devicePath.Some? ==>
              var e := Min(FirstEnd(nodes), 513);
              var next := devicePath.value.pos + |Encode(nodes[..e + 1])|;
              && size == |Encode(nodes[..e])|
              && nextPath == (if nodes[e].subType == END_ENTIRE then None else Some(Pointer(devicePath.value.buf, next)))
              && Spells(devicePath.value.buf[..], next, nodes[e + 1..])
  {
    hide Spells, EndTypeAt, EndAt, LengthAt, Encode, FirstEnd, Node.Bytes, Node.Valid, Node.IsEnd, Node.IsEndType;
    if devicePath.None? {
      return None, 0, None;
    }
    var p := devicePath.value;
    var devPath := p.pos;
    var count: nat := 0;
    ghost var e := Min(FirstEnd(nodes), MAX_COUNT + 1);
    WalkStarts(nodes);
    while true
      invariant count <= e && devPath == p.pos + |Encode(nodes[..count])| && Spells(p.buf[..], devPath, nodes[count..])
      decreases e - count
    {
      WalkOn(p.buf[..], p.pos, nodes, count, devPath);
      if EndTypeAt(p.buf[..], devPath) {
        break;
      }
      if count > MAX_COUNT {
        break;
      }
      devPath := devPath + LengthAt(p.buf[..], devPath);
      count := count + 1;
    }
    assert count == e;
    var following := devPath + LengthAt(p.buf[..], devPath);
    start := devicePath;
    size := devPath - p.pos;
    nextPath := if p.buf[devPath + 1] == END_ENTIRE then None else Some(Pointer(p.buf, following));
  }

  /** The number of instances, for paths whose instances the walk can take in. */
  method DevicePathInstanceCount(path0: Option<Pointer>, ghost nodes: seq<Node>) returns (count: nat)
    requires path0.Some? ==>
               WellFormed(nodes) && Short(nodes) && Spells(path0.value.buf[..], path0.value.pos, nodes)
    ensures count == if path0.None? then 0 else |Instances(nodes)|
  {
    hide Spells, Instances, FirstEnd, Later, Short;
    var devicePath := path0;
    ghost var rest := nodes;
    count := 0;
    while true
      invariant devicePath.Some? ==>
                  WellFormed(rest) && Short(rest) && Spells(devicePath.value.buf[..], devicePath.value.pos, rest)
      invariant count + (if devicePath.Some? then |Instances(rest)| else 0) == if path0.None? then 0 else |Instances(nodes)|
      decreases if devicePath.Some? then 1 + |rest| else 0
    {
      var start, size, next := DevicePathInstance(devicePath, rest);
      if start.None? {
        break;
      }
      count := count + 1;
      InstanceStep(rest);
      devicePath := next;
      rest := Later(rest);
    }
  }

  lemma InstanceStep(nodes: seq<Node>)
    requires WellFormed(nodes) && Short(nodes)
    ensures var e := FirstEnd(nodes);
            && Min(e, MAX_COUNT + 1) == e && nodes[e + 1..] == Later(nodes) && |Later(nodes)| < |nodes|
            && (if nodes[e].subType == END_ENTIRE then |Instances(nodes)| == 1
                else WellFormed(Later(nodes)) && Short(Later(nodes)) && |Instances(nodes)| == 1 + |Instances(Later(nodes))|)
  {
    AfterFirst(nodes);
    var e, all := FirstEnd(nodes), Instances(nodes);
    assert all == [nodes[..e]] + if Later(nodes) != [] then Instances(Later(nodes)) else [];
    ShortStep(all, nodes[..e], if Later(nodes) != [] then Instances(Later(nodes)) else []);
    hide FirstEnd, Instances, Node.IsEnd, Node.IsEndType, Node.Valid;
  }

  lemma ShortStep(all: seq<seq<Node>>, first: seq<Node>, later: seq<seq<Node>>)
    requires all == [first] + later && forall i :: 0 <= i < |all| ==> |all[i]| <= MAX_COUNT + 1
    ensures |first| <= MAX_COUNT + 1 && forall i :: 0 <= i < |later| ==> |later[i]| <= MAX_COUNT + 1
  {
    assert all[0] == first && forall i :: 0 <= i < |later| ==> later[i] == all[i + 1];
  }
}
