/** Device paths as bytes (section 9.3.1 of UEFI 2.4): a sequence of variable-length nodes, cut into
    instances by end nodes, and the walkers, appenders and the repacker of gnu-efi/lib/dpath.c. */
module DevicePath {

  newtype byte = x: int | 0 <= x < 256

  const HEADER: nat := 4                 // sizeof(EFI_DEVICE_PATH)
  const END_TYPE: byte := 0x7f
  const UNPACKED: byte := 0x80
  const END_ENTIRE: byte := 0xff
  const END_INSTANCE: byte := 0x01
  const MAX_COUNT: nat := 512            // 01000 in the source is octal
  const MIN_ALIGNMENT_SIZE: nat := 4

  // ---------- nodes ----------

  /** A node; `kind` is the Type byte with its unpacked bit. */
  datatype Node = Node(kind: byte, subType: byte, payload: seq<byte>) {
    function Length(): nat {
      HEADER + |payload|
    }

    /** DevicePathType masks the unpacked bit. */
    predicate IsEndType() {
      kind % UNPACKED == END_TYPE
    }

    predicate IsEnd() {
      IsEndType() && subType == END_ENTIRE
    }

    /** The length fits its field; an end node is just a header and ends an instance or the path. */
    predicate Valid() {
      Length() < 0x1_0000 && (IsEndType() ==> payload == [] && (subType == END_ENTIRE || subType == END_INSTANCE))
    }

    function Bytes(): (b: seq<byte>)
      requires Length() < 0x1_0000
      ensures |b| == Length()
    {
      [kind, subType, (Length() % 256) as byte, (Length() / 256) as byte] + payload
    }
  }

  const END_DEVICE_PATH: Node := Node(END_TYPE, END_ENTIRE, [])
  const END_INSTANCE_DEVICE_PATH: Node := Node(END_TYPE, END_INSTANCE, [])

  predicate AllValid(nodes: seq<Node>) {
    forall i :: 0 <= i < |nodes| ==> nodes[i].Valid()
  }

  /** A complete path: valid nodes, the last one and only that one ending it. */
  predicate WellFormed(nodes: seq<Node>) {
    && AllValid(nodes) && nodes != [] && nodes[|nodes| - 1].IsEnd()
    && forall i :: 0 <= i < |nodes| - 1 ==> !nodes[i].IsEnd()
  }

  function Encode(nodes: seq<Node>): seq<byte>
    requires AllValid(nodes)
  {
    if nodes == [] then [] else nodes[0].Bytes() + Encode(nodes[1..])
  }

  /** The bytes at `pos` spell out the nodes. */
  predicate Spells(buf: seq<byte>, pos: nat, nodes: seq<Node>)
    requires AllValid(nodes)
  {
    pos + |Encode(nodes)| <= |buf| && buf[pos..pos + |Encode(nodes)|] == Encode(nodes)
  }

  lemma {:induction false} EncodeConcat(a: seq<Node>, b: seq<Node>)
    requires AllValid(a) && AllValid(b)
    ensures AllValid(a + b) && Encode(a + b) == Encode(a) + Encode(b)
  {
    if a == [] {
      assert a + b == b;
    } else {
      assert (a + b)[1..] == a[1..] + b;
      EncodeConcat(a[1..], b);
    }
  }

  /** The node at a position, read off the bytes. */
  function LengthAt(buf: seq<byte>, pos: nat): nat
    requires pos + HEADER <= |buf|
  {
    buf[pos + 2] as nat + 256 * buf[pos + 3] as nat
  }

  predicate EndTypeAt(buf: seq<byte>, pos: nat)
    requires pos + HEADER <= |buf|
  {
    buf[pos] % UNPACKED == END_TYPE
  }

  predicate EndAt(buf: seq<byte>, pos: nat)
    requires pos + HEADER <= |buf|
  {
    EndTypeAt(buf, pos) && buf[pos + 1] == END_ENTIRE
  }

  /** The first node of what is spelled out, and the rest behind it. */
  lemma FirstNode(buf: seq<byte>, pos: nat, nodes: seq<Node>)
    requires AllValid(nodes) && nodes != [] && Spells(buf, pos, nodes)
    ensures pos + nodes[0].Length() <= |buf| && LengthAt(buf, pos) == nodes[0].Length()
    ensures EndTypeAt(buf, pos) == nodes[0].IsEndType() && EndAt(buf, pos) == nodes[0].IsEnd()
    ensures buf[pos] == nodes[0].kind && buf[pos + 1] == nodes[0].subType
    ensures buf[pos..pos + nodes[0].Length()] == nodes[0].Bytes()
    ensures Spells(buf, pos + nodes[0].Length(), nodes[1..])
  {
    var e, b := Encode(nodes), nodes[0].Bytes();
    var n := |b|;
    assert nodes[0].Valid();
    assert buf[pos..pos + |e|][..n] == buf[pos..pos + n];
    assert buf[pos..pos + |e|][n..] == buf[pos + n..pos + |e|];
    assert forall i :: 0 <= i < n ==> buf[pos + i] == b[i];
    assert buf[pos + 0] == b[0] && buf[pos + 1] == b[1] && buf[pos + 2] == b[2] && buf[pos + 3] == b[3];
  }

  /** Byte by byte: type, subtype, the low and the high byte of the length, and the payload. */
  lemma FirstBytes(buf: seq<byte>, pos: nat, nodes: seq<Node>)
    requires AllValid(nodes) && nodes != [] && Spells(buf, pos, nodes)
    ensures var node, n := nodes[0], |nodes[0].payload|;
            && pos + 4 + n <= |buf| && buf[pos] == node.kind && buf[pos + 1] == node.subType
            && buf[pos + 2] as int + 256 * buf[pos + 3] as int == 4 + n && buf[pos + 4..pos + 4 + n] == node.payload
            && (node.IsEnd() <==> (buf[pos] == 0x7f || buf[pos] == 0xff) && buf[pos + 1] == 0xff)
  {
    FirstNode(buf, pos, nodes);
    var n := nodes[0].Length();
    assert buf[pos + 4..pos + n] == buf[pos..pos + n][4..] == nodes[0].payload;
  }

  /** Bytes spell out at most one well-formed path. */
  lemma {:induction false} DecodeUnique(buf: seq<byte>, pos: nat, a: seq<Node>, b: seq<Node>)
    requires WellFormed(a) && WellFormed(b) && Spells(buf, pos, a) && Spells(buf, pos, b)
    ensures a == b
    decreases |a|
  {
    FirstNode(buf, pos, a);
    FirstNode(buf, pos, b);
    SameBytes(a[0], b[0]);
    RestFormed(a);
    RestFormed(b);
    hide Spells, Encode, Node.Bytes, Node.IsEnd;
    if |a| > 1 {
      DecodeUnique(buf, pos + a[0].Length(), a[1..], b[1..]);
    }
    assert a == [a[0]] + a[1..] && b == [b[0]] + b[1..];
  }

  lemma RestFormed(nodes: seq<Node>)
    requires WellFormed(nodes)
    ensures if nodes[0].IsEnd() then |nodes| == 1 && nodes[1..] == [] else |nodes| > 1 && WellFormed(nodes[1..])
  {
  }

  lemma SameBytes(a: Node, b: Node)
    requires a.Valid() && b.Valid() && a.Bytes() == b.Bytes()
    ensures a == b
  {
    assert a.Bytes()[0] == a.kind && b.Bytes()[0] == b.kind;
    assert a.Bytes()[1] == a.subType && b.Bytes()[1] == b.subType;
    assert a.Bytes()[4..] == a.payload && b.Bytes()[4..] == b.payload;
  }
}
