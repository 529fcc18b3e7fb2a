/** LibLocateHandleByDiskSignature of gnu-efi/lib/hand.c: the block devices whose device path carries a given
    disk signature. The firmware's answers, the list of handles and their paths, are parameters. */
module DiskSignature {
  import opened Common
  import opened DevicePath
  import opened DevicePathLib

  type Handle = nat

  datatype Status = SUCCESS | OUT_OF_RESOURCES | NOT_LOCATED

  const MEDIA_DEVICE_PATH: byte := 4
  const MEDIA_HARDDRIVE_DP: byte := 1
  const SIGNATURE_TYPE_MBR: byte := 1
  const SIGNATURE_TYPE_GUID: byte := 2

  // Offsets in HARDDRIVE_DEVICE_PATH.
  const SIGNATURE: nat := 24
  const MBR_TYPE: nat := 40
  const SIGNATURE_TYPE: nat := 41

  /** A device path in memory that is only read. */
  datatype Bytes = Bytes(bytes: seq<byte>, pos: nat)

  /** What is asked for; a GUID has 16 bytes. */
  datatype Query = Query(MBRType: byte, SignatureType: byte, Signature: seq<byte>)

  // ---------- which paths match ----------

  predicate IsHardDrive(node: Node) {
    node.kind % UNPACKED == MEDIA_DEVICE_PATH && node.subType == MEDIA_HARDDRIVE_DP
  }

  /** Hard drive nodes have all their fields. */
  predicate Complete(nodes: seq<Node>) {
    forall i :: 0 <= i < |nodes| && IsHardDrive(nodes[i]) ==> nodes[i].Length() > SIGNATURE_TYPE
  }

  /** The bytes from `at` on are the fields asked for: the four bytes of an MBR signature, the sixteen of a
      GUID. */
  predicate Agrees(b: seq<byte>, at: nat, q: Query)
    requires at + SIGNATURE_TYPE < |b| && |q.Signature| == 16
  {
    && b[at + MBR_TYPE] == q.MBRType && b[at + SIGNATURE_TYPE] == q.SignatureType
    && (q.SignatureType == SIGNATURE_TYPE_MBR || q.SignatureType == SIGNATURE_TYPE_GUID)
    && var n := if q.SignatureType == SIGNATURE_TYPE_MBR then 4 else 16;
       b[at + SIGNATURE..at + SIGNATURE + n] == q.Signature[..n]
  }

  /** Node `i` is a hard drive node with the signature, the node before it is none, and the node after it
      ends the instance or the path. */
  predicate SignedAt(nodes: seq<Node>, i: nat, q: Query)
    requires i < |nodes| && AllValid(nodes) && Complete(nodes) && |q.Signature| == 16
  {
    && IsHardDrive(nodes[i]) && (i == 0 || !IsHardDrive(nodes[i - 1]))
    && i + 1 < |nodes| && nodes[i + 1].IsEndType()
    && Agrees(nodes[i].Bytes(), 0, q)
  }

  predicate Signed(nodes: seq<Node>, q: Query)
    requires AllValid(nodes) && Complete(nodes) && |q.Signature| == 16
  {
    exists i :: 0 <= i < |nodes| && SignedAt(nodes, i, q)
  }

  /** Node `i` of the path, byte by byte: a media device (type 4, whatever its unpacked bit) of the hard drive kind
      (subtype 1), whose MBR type, signature type and signature are asked for. The signature is of the first kind, with
      four bytes, or of the second, with sixteen. */
  predicate Carries(node: Node, q: Query)
    requires |node.payload| >= 38 && |q.Signature| == 16
  {
    && node.payload[36] == q.MBRType && node.payload[37] == q.SignatureType
    && ((q.SignatureType == 1 && node.payload[20..24] == q.Signature[..4])
        || (q.SignatureType == 2 && node.payload[20..36] == q.Signature))
  }

  lemma AgreesIff(node: Node, q: Query)
    requires node.Valid() && |node.payload| >= 38 && |q.Signature| == 16
    ensures Agrees(node.Bytes(), 0, q) <==> Carries(node, q)
  {
    var b := node.Bytes();
    assert forall k :: 0 <= k < |node.payload| ==> b[4 + k] == node.payload[k];
    assert b[24..28] == node.payload[20..24] && b[24..40] == node.payload[20..36];
    assert q.Signature[..16] == q.Signature;
  }

  /** Such a node right before an end node and not right behind another hard drive. */
  predicate CarriedAt(nodes: seq<Node>, i: nat, q: Query)
    requires |q.Signature| == 16
  {
    && i + 1 < |nodes| && nodes[i].kind % 128 == 4 && nodes[i].subType == 1 && nodes[i + 1].kind % 128 == 127
    && !(i > 0 && nodes[i - 1].kind % 128 == 4 && nodes[i - 1].subType == 1)
    && |nodes[i].payload| >= 38 && Carries(nodes[i], q)
  }

  lemma SignedAtIff(nodes: seq<Node>, i: nat, q: Query)
    requires AllValid(nodes) && Complete(nodes) && |q.Signature| == 16 && i < |nodes|
    ensures SignedAt(nodes, i, q) <==> CarriedAt(nodes, i, q)
  {
    assert nodes[i].Valid() && (IsHardDrive(nodes[i]) ==> nodes[i].Length() > SIGNATURE_TYPE);
    if |nodes[i].payload| >= 38 {
      AgreesIff(nodes[i], q);
    }
    hide Agrees, Carries, Node.Bytes, Node.Valid;
  }

  /** Which paths match. */
  lemma SignedIff(nodes: seq<Node>, q: Query)
    requires AllValid(nodes) && Complete(nodes) && |q.Signature| == 16
    ensures Signed(nodes, q) <==> exists i :: 0 <= i < |nodes| && CarriedAt(nodes, i, q)
  {
    forall i | 0 <= i < |nodes| ensures SignedAt(nodes, i, q) == CarriedAt(nodes, i, q) {
      SignedAtIff(nodes, i, q);
    }
    hide SignedAt, CarriedAt;
  }

  predicate HardDriveAt(b: seq<byte>, pos: nat)
    requires pos + HEADER <= |b|
  {
    b[pos] % UNPACKED == MEDIA_DEVICE_PATH && b[pos + 1] == MEDIA_HARDDRIVE_DP
  }

  /** What the walk reads at its `k`-th node. */
  lemma ReadNode(b: seq<byte>, pos: nat, nodes: seq<Node>, k: nat, q: Query)
    requires WellFormed(nodes) && Complete(nodes) && k < |nodes| && Spells(b, pos, nodes[k..]) && |q.Signature| == 16
    ensures pos + HEADER <= |b| && HardDriveAt(b, pos) == IsHardDrive(nodes[k])
    ensures IsHardDrive(nodes[k]) ==>
              && k + 1 < |nodes| && pos + SIGNATURE_TYPE < |b| && pos + LengthAt(b, pos) + HEADER <= |b|
              && Agrees(b, pos, q) == Agrees(nodes[k].Bytes(), 0, q)
              && EndTypeAt(b, pos + LengthAt(b, pos)) == nodes[k + 1].IsEndType()
  {
    FirstNode(b, pos, nodes[k..]);
    assert nodes[k..][1..] == nodes[k + 1..];
    if IsHardDrive(nodes[k]) {
      assert !nodes[k].IsEnd();
      FirstNode(b, pos + nodes[k].Length(), nodes[k + 1..]);
      SameFields(b, pos, nodes[k], q);
    }
  }

  lemma SameFields(b: seq<byte>, pos: nat, node: Node, q: Query)
    requires node.Valid() && node.Length() > SIGNATURE_TYPE && pos + node.Length() <= |b| && |q.Signature| == 16
    requires b[pos..pos + node.Length()] == node.Bytes()
    ensures Agrees(b, pos, q) == Agrees(node.Bytes(), 0, q)
  {
    var c := node.Bytes();
    assert forall k :: 0 <= k < |c| ==> c[k] == b[pos + k];
    assert c[MBR_TYPE] == b[pos + MBR_TYPE] && c[SIGNATURE_TYPE] == b[pos + SIGNATURE_TYPE];
    assert c[0 + SIGNATURE..0 + SIGNATURE + 4] == b[pos + SIGNATURE..pos + SIGNATURE + 4];
    assert c[0 + SIGNATURE..0 + SIGNATURE + 16] == b[pos + SIGNATURE..pos + SIGNATURE + 16];
  }

  /** The walk over one device path. */
  method PathMatches(p: Bytes, q: Query, ghost nodes: seq<Node>) returns (matched: bool)
    requires WellFormed(nodes) && Complete(nodes) && Spells(p.bytes, p.pos, nodes) && |q.Signature| == 16
    ensures matched <==> Signed(nodes, q)
  {
    hide Spells, EndAt, EndTypeAt, LengthAt, Agrees, HardDriveAt, IsHardDrive, Encode, Node.Bytes;
    matched := false;
    var previousNodeIsHardDriveDevicePath := false;
    var devPath := p.pos;
    ghost var k := 0;
    WalkStarts(nodes);
    while true
      invariant k < |nodes| && devPath == p.pos + |Encode(nodes[..k])| && Spells(p.bytes, devPath, nodes[k..])
      invariant previousNodeIsHardDriveDevicePath == (k > 0 && IsHardDrive(nodes[k - 1]))
      invariant matched <==> exists i :: 0 <= i < k && SignedAt(nodes, i, q)
      decreases |nodes| - k
    {
      var b := p.bytes;
      ReadNode(b, devPath, nodes, k, q);
      WalkOn(b, p.pos, nodes, k, devPath);
      if HardDriveAt(b, devPath) {
        if !previousNodeIsHardDriveDevicePath {
          var next := devPath + LengthAt(b, devPath);
          if EndTypeAt(b, next) && Agrees(b, devPath, q) {
            matched := true;
          }
        }
        previousNodeIsHardDriveDevicePath := true;
      } else {
        previousNodeIsHardDriveDevicePath := false;
      }
      assert matched <==> exists i :: 0 <= i < k + 1 && SignedAt(nodes, i, q) by {
        assert SignedAt(nodes, k, q) ==> 0 <= k < k + 1;
      }
      if EndAt(b, devPath) {
        break;
      }
      devPath := devPath + LengthAt(b, devPath);
      k := k + 1;
    }
    assert k == |nodes| - 1;
  }

  // ---------- the two passes ----------

  /** The handles that are left, in order. */
  function Left(handles: seq<Option<Handle>>): seq<Handle> {
    if handles == [] then []
    else Left(handles[..|handles| - 1]) + if handles[|handles| - 1].Some? then [handles[|handles| - 1].value] else []
  }

  /** The handles whose verdict is true, in order. */
  function Selected(handles: seq<Handle>, verdicts: seq<bool>): seq<Handle>
    requires |handles| == |verdicts|
  {
    if handles == [] then []
    else
      var m := |handles| - 1;
      Selected(handles[..m], verdicts[..m]) + if verdicts[m] then [handles[m]] else []
  }

  /** Order and multiplicity: the `k`-th selected handle stands behind exactly `k` others that are selected. */
  lemma {:induction false} SelectedAt(handles: seq<Handle>, verdicts: seq<bool>, n: nat)
    requires n < |handles| == |verdicts| && verdicts[n]
    ensures |Selected(handles[..n], verdicts[..n])| < |Selected(handles, verdicts)|
    ensures Selected(handles, verdicts)[|Selected(handles[..n], verdicts[..n])|] == handles[n]
    decreases |handles|
  {
    var m := |handles| - 1;
    if n < m {
      SelectedAt(handles[..m], verdicts[..m], n);
      assert handles[..m][..n] == handles[..n] && verdicts[..m][..n] == verdicts[..n];
    }
  }

  lemma {:induction false} LeftIsSelected(handles: seq<Handle>, verdicts: seq<bool>, left: seq<Option<Handle>>)
    requires |handles| == |verdicts| == |left|
    requires forall k :: 0 <= k < |left| ==> left[k] == if verdicts[k] then Some(handles[k]) else None
    ensures Left(left) == Selected(handles, verdicts)
  {
    if left != [] {
      var m := |left| - 1;
      LeftIsSelected(handles[..m], verdicts[..m], left[..m]);
    }
  }

  predicate PathsKnown(paths: seq<Option<Bytes>>, nodes: seq<seq<Node>>)
    requires |paths| == |nodes|
  {
    forall k :: 0 <= k < |paths| ==>
      && WellFormed(nodes[k]) && Complete(nodes[k])
      && (paths[k].Some? ==> Spells(paths[k].value.bytes, paths[k].value.pos, nodes[k]))
  }

  /** A handle matches if it has a path and the path is signed. */
  function Verdicts(paths: seq<Option<Bytes>>, nodes: seq<seq<Node>>, q: Query): (v: seq<bool>)
    requires |paths| == |nodes| && |q.Signature| == 16
    requires forall k :: 0 <= k < |nodes| ==> AllValid(nodes[k]) && Complete(nodes[k])
    ensures |v| == |paths| && forall k :: 0 <= k < |paths| ==> v[k] == (paths[k].Some? && Signed(nodes[k], q))
  {
    if paths == [] then []
    else
      var m := |paths| - 1;
      Verdicts(paths[..m], nodes[..m], q) + [paths[m].Some? && Signed(nodes[m], q)]
  }

  /** A device without a path does not match. */
  method DeviceMatches(path: Option<Bytes>, q: Query, ghost nodes: seq<Node>) returns (matched: bool)
    requires WellFormed(nodes) && Complete(nodes) && |q.Signature| == 16
    requires path.Some? ==> Spells(path.value.bytes, path.value.pos, nodes)
    ensures matched <==> path.Some? && Signed(nodes, q)
  {
    matched := false;
    if path.Some? {
      matched := PathMatches(path.value, q, nodes);
    }
  }

  /** The first pass: crosses out the handles that do not match and counts the others. */
  method CrossOut(q: Query, blockIoBuffer: array<Option<Handle>>, paths: seq<Option<Bytes>>,
                  ghost handles: seq<Handle>, ghost nodes: seq<seq<Node>>) returns (noHandles: nat)
    requires |q.Signature| == 16 && |paths| == |nodes| == |handles| == blockIoBuffer.Length
    requires forall k :: 0 <= k < |handles| ==> blockIoBuffer[k] == Some(handles[k])
    requires PathsKnown(paths, nodes)
    modifies blockIoBuffer
    ensures noHandles == |Left(blockIoBuffer[..])|
    ensures Left(blockIoBuffer[..]) == Selected(handles, Verdicts(paths, nodes, q))
  {
    ghost var verdicts := Verdicts(paths, nodes, q);
    hide *;
    NothingCrossedOut(blockIoBuffer[..], handles, verdicts);
    noHandles := 0;
    var index := 0;
    while index < blockIoBuffer.Length
      invariant index <= blockIoBuffer.Length && noHandles == Count(verdicts, index)
      invariant CrossedOut(blockIoBuffer[..], handles, verdicts, index)
    {
      KnownAt(paths, nodes, index);
      var matched := DeviceMatches(paths[index], q, nodes[index]);
      noHandles := Mark(blockIoBuffer, index, matched, noHandles, handles, verdicts);
      index := index + 1;
    }
    AllCrossedOut(blockIoBuffer[..], handles, verdicts);
  }

  /** Crosses out the handle at `Index`, or counts it. */
  method Mark(blockIoBuffer: array<Option<Handle>>, index: nat, matched: bool, noHandles: nat,
              ghost handles: seq<Handle>, ghost verdicts: seq<bool>)
    returns (count: nat)
    requires index < blockIoBuffer.Length == |verdicts| && noHandles == Count(verdicts, index) && matched == verdicts[index]
    requires CrossedOut(blockIoBuffer[..], handles, verdicts, index)
    modifies blockIoBuffer
    ensures count == Count(verdicts, index + 1) && CrossedOut(blockIoBuffer[..], handles, verdicts, index + 1)
  {
    count := noHandles;
    if !matched {
      blockIoBuffer[index] := None;
    } else {
      count := count + 1;
    }
  }

  /** How many of the first `n` verdicts are true. */
  function Count(verdicts: seq<bool>, n: nat): nat
    requires n <= |verdicts|
  {
    if n == 0 then 0 else Count(verdicts, n - 1) + if verdicts[n - 1] then 1 else 0
  }

  /** The first `n` handles have been looked at. */
  predicate CrossedOut(b: seq<Option<Handle>>, handles: seq<Handle>, verdicts: seq<bool>, n: nat) {
    && n <= |handles| == |verdicts| == |b|
    && forall k :: 0 <= k < |b| ==> b[k] == if k < n && !verdicts[k] then None else Some(handles[k])
  }

  lemma NothingCrossedOut(b: seq<Option<Handle>>, handles: seq<Handle>, verdicts: seq<bool>)
    requires |handles| == |verdicts| == |b| && forall k :: 0 <= k < |b| ==> b[k] == Some(handles[k])
    ensures CrossedOut(b, handles, verdicts, 0) && Count(verdicts, 0) == 0
  {
  }

  lemma AllCrossedOut(b: seq<Option<Handle>>, handles: seq<Handle>, verdicts: seq<bool>)
    requires CrossedOut(b, handles, verdicts, |b|)
    ensures Left(b) == Selected(handles, verdicts) && |Left(b)| == Count(verdicts, |verdicts|)
  {
    LeftIsSelected(handles, verdicts, b);
    SelectedCount(handles, verdicts);
  }

  lemma {:induction false} SelectedCount(handles: seq<Handle>, verdicts: seq<bool>)
    requires |handles| == |verdicts|
    ensures |Selected(handles, verdicts)| == Count(verdicts, |verdicts|)
  {
    if handles != [] {
      var m := |handles| - 1;
      SelectedCount(handles[..m], verdicts[..m]);
      CountPrefix(verdicts, m, m);
    }
  }

  lemma {:induction false} CountPrefix(verdicts: seq<bool>, m: nat, n: nat)
    requires n <= m <= |verdicts|
    ensures Count(verdicts[..m], n) == Count(verdicts, n)
  {
    if n > 0 { CountPrefix(verdicts, m, n - 1); }
  }

  /** The second pass: copies the handles that are left. */
  method Collect(blockIoBuffer: array<Option<Handle>>, buffer: array<Handle>) returns (noHandles: nat)
    requires buffer.Length == |Left(blockIoBuffer[..])|
    modifies buffer
    ensures noHandles == buffer.Length && buffer[..] == Left(blockIoBuffer[..])
  {
    noHandles := 0;
    var index := 0;
    while index < blockIoBuffer.Length
      invariant index <= blockIoBuffer.Length && noHandles == |Left(blockIoBuffer[..][..index])| <= buffer.Length
      invariant buffer[..noHandles] == Left(blockIoBuffer[..][..index])
    {
      LeftStep(blockIoBuffer[..], index);
      if blockIoBuffer[index].Some? {
        buffer[noHandles] := blockIoBuffer[index].value;
        noHandles := noHandles + 1;
      }
      index := index + 1;
    }
    assert blockIoBuffer[..][..index] == blockIoBuffer[..] && buffer[..noHandles] == buffer[..];
  }

  /** The handles whose path is signed, in order; an empty buffer is not allocated. `BlockIoBuffer` holds the
      handles the firmware found and `located` is its answer, which is passed on if there are none. */
  method LibLocateHandleByDiskSignature(q: Query, blockIoBuffer: array<Option<Handle>>, paths: seq<Option<Bytes>>,
                                        located: Status, granted: bool, ghost handles: seq<Handle>, ghost nodes: seq<seq<Node>>)
    returns (status: Status, noHandles: nat, buffer: array?<Handle>)
    requires |q.Signature| == 16 && |paths| == |nodes| == |handles| == blockIoBuffer.Length
    requires forall k :: 0 <= k < |handles| ==> blockIoBuffer[k] == Some(handles[k])
    requires PathsKnown(paths, nodes)
    modifies blockIoBuffer
    ensures var found := Selected(handles, Verdicts(paths, nodes, q));
            if handles == [] then
              status == located && noHandles == 0 && buffer == null
            else if found == [] then
              status == SUCCESS && noHandles == 0 && buffer == null
            else if !granted then
              status == OUT_OF_RESOURCES && noHandles == 0 && buffer == null
            else
              status == SUCCESS && noHandles == |found| && buffer != null && fresh(buffer) && buffer[..] == found
  {
    if blockIoBuffer.Length == 0 {
      return located, 0, null;
    }
    noHandles := CrossOut(q, blockIoBuffer, paths, handles, nodes);
    hide Verdicts, Selected, Left, PathsKnown;
    if noHandles == 0 {
      return SUCCESS, 0, null;
    }
    if !granted {
      return OUT_OF_RESOURCES, 0, null;
    }
    buffer := new Handle[noHandles];
    noHandles := Collect(blockIoBuffer, buffer);
    status := SUCCESS;
  }

  lemma KnownAt(paths: seq<Option<Bytes>>, nodes: seq<seq<Node>>, k: nat)
    requires k < |paths| == |nodes| && PathsKnown(paths, nodes)
    ensures WellFormed(nodes[k]) && Complete(nodes[k])
    ensures paths[k].Some? ==> Spells(paths[k].value.bytes, paths[k].value.pos, nodes[k])
  {
  }

  lemma LeftStep(handles: seq<Option<Handle>>, n: nat)
    requires n < |handles|
    ensures Left(handles[..n + 1]) == Left(handles[..n]) + if handles[n].Some? then [handles[n].value] else []
    ensures |Left(handles[..n + 1])| <= |Left(handles)|
  {
    assert handles[..n + 1][..n] == handles[..n];
    LeftGrows(handles, n + 1);
  }

  lemma {:induction false} LeftGrows(handles: seq<Option<Handle>>, n: nat)
    requires n <= |handles|
    ensures |Left(handles[..n])| <= |Left(handles)|
    decreases |handles|
  {
    if n < |handles| {
      var m := |handles| - 1;
      LeftGrows(handles[..m], n);
      assert handles[..m][..n] == handles[..n];
    } else {
      assert handles[..n] == handles;
    }
  }
}
