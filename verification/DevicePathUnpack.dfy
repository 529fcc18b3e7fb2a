/** UnpackDevicePath of gnu-efi/lib/dpath.c: a copy of a path with every node padded to the alignment and
    marked as unpacked. */
module DevicePathUnpack {
  import opened DevicePath
  import opened DevicePathLib
  import opened DevicePathBuild

  /** ALIGN_SIZE. */
  function Pad(size: nat): (p: nat)
    ensures p < MIN_ALIGNMENT_SIZE && (size + p) % MIN_ALIGNMENT_SIZE == 0
    ensures size % MIN_ALIGNMENT_SIZE == 0 ==> p == 0
  {
    if size % MIN_ALIGNMENT_SIZE != 0 then MIN_ALIGNMENT_SIZE - size % MIN_ALIGNMENT_SIZE else 0
  }

  function Rounded(size: nat): nat {
    size + Pad(size)
  }

  function Mark(kind: byte): byte {
    if kind < UNPACKED then kind + UNPACKED else kind
  }

  function Zeros(n: nat): seq<byte> {
    seq(n, i => 0)
  }

  /** The node the copy stands for. */
  function Unpacked(node: Node): Node {
    Node(Mark(node.kind), node.subType, node.payload + Zeros(Pad(node.Length())))
  }

  function UnpackAll(nodes: seq<Node>): (r: seq<Node>)
    ensures |r| == |nodes| && forall i :: 0 <= i < |nodes| ==> r[i] == Unpacked(nodes[i])
  {
    seq(|nodes|, i requires 0 <= i < |nodes| => Unpacked(nodes[i]))
  }

  /** The bytes the copy consists of: the length field keeps only the low 16 bits of the padded size. */
  function Raw(node: Node): (b: seq<byte>)
    ensures |b| == Rounded(node.Length())
  {
    var size := Rounded(node.Length());
    [Mark(node.kind), node.subType, (size % 256) as byte, (size / 256 % 256) as byte] + node.payload + Zeros(Pad(node.Length()))
  }

  function RawAll(nodes: seq<Node>): seq<byte> {
    if nodes == [] then [] else Raw(nodes[0]) + RawAll(nodes[1..])
  }

  /** Every padded size fits the length field. */
  predicate Fits(nodes: seq<Node>) {
    forall i :: 0 <= i < |nodes| ==> Rounded(nodes[i].Length()) < 0x1_0000
  }

  lemma {:induction false} RawConcat(a: seq<Node>, b: seq<Node>)
    ensures RawAll(a + b) == RawAll(a) + RawAll(b)
  {
    if a == [] {
      assert a + b == b;
    } else {
      assert (a + b)[1..] == a[1..] + b;
      RawConcat(a[1..], b);
    }
  }

  lemma RawStep(nodes: seq<Node>, k: nat)
    requires k < |nodes|
    ensures RawAll(nodes[..k + 1]) == RawAll(nodes[..k]) + Raw(nodes[k])
    ensures |RawAll(nodes)| == |RawAll(nodes[..k + 1])| + |RawAll(nodes[k + 1..])|
  {
    RawConcat(nodes[..k], [nodes[k]]);
    assert nodes[..k] + [nodes[k]] == nodes[..k + 1] && [nodes[k]][1..] == [];
    RawConcat(nodes[..k + 1], nodes[k + 1..]);
    assert nodes[..k + 1] + nodes[k + 1..] == nodes;
  }

  // ---------- field by field ----------

  /** What a copied node has to be: the unpacked bit set and no other bit of the type changed, the same subtype, and
      the payload followed by as few zeros as align the node. */
  predicate IsCopy(node: Node, u: Node) {
    && u.kind as int == (if node.kind as int < 128 then node.kind as int + 128 else node.kind as int)
    && u.subType == node.subType
    && u.Length() % 4 == 0 && node.Length() <= u.Length() < node.Length() + 4
    && node.payload <= u.payload && forall i :: |node.payload| <= i < |u.payload| ==> u.payload[i] == 0
  }

  /** And its bytes, where the padded size is cut to 16 bits. */
  predicate IsCopied(node: Node, b: seq<byte>) {
    && |b| % 4 == 0 && 4 <= node.Length() <= |b| < node.Length() + 4
    && b[0] as int == (if node.kind as int < 128 then node.kind as int + 128 else node.kind as int)
    && b[1] == node.subType && b[2] as int + 256 * b[3] as int == |b| % 0x1_0000
    && b[4..node.Length()] == node.payload && forall i :: node.Length() <= i < |b| ==> b[i] == 0
  }

  lemma UnpackedFields(node: Node, u: Node)
    ensures u == Unpacked(node) <==> IsCopy(node, u)
  {
    if IsCopy(node, u) {
      assert |u.payload| == |Unpacked(node).payload|;
      assert forall i :: 0 <= i < |u.payload| ==> u.payload[i] == Unpacked(node).payload[i];
    }
  }

  lemma RawFields(node: Node)
    ensures IsCopied(node, Raw(node))
  {
    var b, n := Raw(node), |node.payload|;
    LowWord(Rounded(node.Length()));
    MarkAdds(node.kind);
    assert b == b[..4] + node.payload + Zeros(Pad(node.Length()));
    hide Mark, Pad;
    assert b[4..4 + n] == node.payload && forall i :: 4 + n <= i < |b| ==> b[i] == Zeros(Pad(node.Length()))[i - 4 - n];
  }

  lemma LowWord(size: nat)
    ensures size % 256 + 256 * (size / 256 % 256) == size % 0x1_0000
  {
    var words, high := size / 256 / 256, size / 256 % 256;
    assert size == 256 * (size / 256) + size % 256 && size / 256 == 256 * words + high;
    HighOff(words, 256 * high + size % 256);
  }

  lemma HighOff(words: nat, low: nat)
    requires low < 0x1_0000
    ensures (0x1_0000 * words + low) % 0x1_0000 == low
  {
  }

  lemma MarkAdds(kind: byte)
    ensures Mark(kind) as int == (if kind as int < 128 then kind as int + 128 else kind as int)
  {
  }

  /** The bytes are those of the nodes, one after the other. */
  predicate AllCopied(nodes: seq<Node>, b: seq<byte>)
    decreases |nodes|
  {
    if nodes == [] then b == []
    else exists n :: 0 <= n <= |b| && IsCopied(nodes[0], b[..n]) && AllCopied(nodes[1..], b[n..])
  }

  lemma {:induction false} RawAllFields(nodes: seq<Node>)
    ensures AllCopied(nodes, RawAll(nodes))
    decreases |nodes|
  {
    if nodes != [] {
      RawFields(nodes[0]);
      RawAllFields(nodes[1..]);
      var b, n := RawAll(nodes), |Raw(nodes[0])|;
      hide Raw, RawAll, IsCopied;
      assert b == Raw(nodes[0]) + RawAll(nodes[1..]) by { RawAllFirst(nodes); }
      assert b[..n] == Raw(nodes[0]) && b[n..] == RawAll(nodes[1..]);
    }
  }

  lemma RawAllFirst(nodes: seq<Node>)
    requires nodes != []
    ensures RawAll(nodes) == Raw(nodes[0]) + RawAll(nodes[1..])
  {
  }

  /** Nothing else is. */
  lemma {:induction false} CopiedOnce(nodes: seq<Node>, b: seq<byte>, c: seq<byte>)
    requires AllCopied(nodes, b) && AllCopied(nodes, c)
    ensures b == c
    decreases |nodes|
  {
    hide IsCopied;
    if nodes != [] {
      var n :| 0 <= n <= |b| && IsCopied(nodes[0], b[..n]) && AllCopied(nodes[1..], b[n..]);
      var m :| 0 <= m <= |c| && IsCopied(nodes[0], c[..m]) && AllCopied(nodes[1..], c[m..]);
      CopiedSame(nodes[0], b[..n], c[..m]);
      CopiedOnce(nodes[1..], b[n..], c[m..]);
      assert b == b[..n] + b[n..] && c == c[..m] + c[m..];
    }
  }

  lemma CopiedSame(node: Node, b: seq<byte>, c: seq<byte>)
    requires IsCopied(node, b) && IsCopied(node, c)
    ensures b == c
  {
    CopiedHeader(node, b, c);
    CopiedZeros(node, b, c);
    hide IsCopied;
    InThree(b, 4, node.Length());
    InThree(c, 4, node.Length());
  }

  lemma CopiedHeader(node: Node, b: seq<byte>, c: seq<byte>)
    requires IsCopied(node, b) && IsCopied(node, c)
    ensures |b| == |c| >= node.Length() && b[..4] == c[..4] && b[4..node.Length()] == c[4..node.Length()]
  {
    SameAligned(|b|, |c|, node.Length());
    SameWord(b[2], b[3], c[2], c[3]);
  }

  lemma SameAligned(m: nat, k: nat, n: nat)
    requires m % 4 == k % 4 == 0 && n <= m < n + 4 && n <= k < n + 4
    ensures m == k
  {
  }

  lemma SameWord(low: byte, high: byte, low': byte, high': byte)
    requires low as int + 256 * high as int == low' as int + 256 * high' as int
    ensures low == low' && high == high'
  {
  }

  lemma CopiedZeros(node: Node, b: seq<byte>, c: seq<byte>)
    requires IsCopied(node, b) && IsCopied(node, c) && |b| == |c|
    ensures b[node.Length()..] == c[node.Length()..]
  {
  }

  lemma InThree(b: seq<byte>, m: nat, n: nat)
    requires m <= n <= |b|
    ensures b == b[..m] + b[m..n] + b[n..]
  {
  }

  // ---------- what the copy decodes to ----------

  lemma UnpackedValid(node: Node)
    requires node.Valid() && Rounded(node.Length()) < 0x1_0000
    ensures Unpacked(node).Valid() && Unpacked(node).Bytes() == Raw(node)
    ensures Unpacked(node).IsEnd() == node.IsEnd() && Unpacked(node).IsEndType() == node.IsEndType()
  {
    var size := Rounded(node.Length());
    assert size / 256 < 256;
    assert Unpacked(node).Length() == size;
  }

  lemma UnpackWellFormed(nodes: seq<Node>)
    requires WellFormed(nodes) && Fits(nodes)
    ensures WellFormed(UnpackAll(nodes))
  {
  }

  lemma {:induction false} RawIsEncode(nodes: seq<Node>)
    requires AllValid(nodes) && Fits(nodes)
    ensures AllValid(UnpackAll(nodes)) && Encode(UnpackAll(nodes)) == RawAll(nodes)
    decreases |nodes|
  {
    hide Raw, Unpacked, Node.Valid;
    if nodes == [] {
    } else {
      UnpackedValid(nodes[0]);
      RawIsEncode(nodes[1..]);
      assert UnpackAll(nodes) == [Unpacked(nodes[0])] + UnpackAll(nodes[1..]);
    }
  }

  /** The length field of a copied node is its size exactly when the size is below 65536; otherwise it is 0. */
  lemma LengthField(node: Node)
    requires node.Valid()
    ensures LengthAt(Raw(node), 0) == if Rounded(node.Length()) < 0x1_0000 then Rounded(node.Length()) else 0
    ensures Raw(node)[0] == Mark(node.kind) && Raw(node)[1] == node.subType
  {
  }

  /** A copy decodes to something only if every padded size fits. */
  lemma {:induction false} DecodesOnlyIfFits(nodes: seq<Node>, m: seq<Node>)
    requires WellFormed(nodes) && WellFormed(m) && Encode(m) == RawAll(nodes)
    ensures Fits(nodes)
    decreases |nodes|
  {
    var raw := RawAll(nodes);
    FirstOfBoth(nodes, m);
    LengthField(nodes[0]);
    hide Node.Valid, Raw;
    assert LengthAt(raw, 0) == LengthAt(Raw(nodes[0]), 0);
    if |nodes| > 1 {
      assert !nodes[0].IsEnd();
      DecodesOnlyIfFits(nodes[1..], m[1..]);
    }
  }

  lemma SameHeader(s: seq<byte>, b: seq<byte>)
    requires HEADER <= |b| && b <= s
    ensures s[0] == b[0] && s[1] == b[1] && LengthAt(s, 0) == LengthAt(b, 0)
  {
  }

  lemma FirstOfBoth(nodes: seq<Node>, m: seq<Node>)
    requires WellFormed(nodes) && WellFormed(m) && Encode(m) == RawAll(nodes)
    ensures LengthAt(RawAll(nodes), 0) == LengthAt(Raw(nodes[0]), 0) >= HEADER
    ensures Rounded(nodes[0].Length()) < 0x1_0000
    ensures m[0].IsEnd() == nodes[0].IsEnd()
    ensures Encode(m[1..]) == RawAll(nodes[1..])
    ensures |nodes| > 1 ==> WellFormed(nodes[1..]) && WellFormed(m[1..])
  {
    var raw, first := RawAll(nodes), Raw(nodes[0]);
    assert m[0].Valid() && nodes[0].Valid();
    LengthField(nodes[0]);
    hide Raw;
    var b := m[0].Bytes();
    SameHeader(raw, b);
    SameHeader(raw, first);
    assert raw[|b|..] == Encode(m[1..]) && raw[|first|..] == RawAll(nodes[1..]);
  }

  /** A copy decodes exactly when every padded size fits the length field, and then to the nodes of the
      path with their payloads padded and marked as unpacked. */
  lemma DecodesIff(nodes: seq<Node>)
    requires WellFormed(nodes)
    ensures (exists m :: WellFormed(m) && Encode(m) == RawAll(nodes)) <==> Fits(nodes)
    ensures Fits(nodes) ==> WellFormed(UnpackAll(nodes)) && Encode(UnpackAll(nodes)) == RawAll(nodes)
    ensures forall m :: WellFormed(m) && Encode(m) == RawAll(nodes) ==>
              m == UnpackAll(nodes) && |m| == |nodes| && forall i :: 0 <= i < |m| ==> IsCopy(nodes[i], m[i])
  {
    forall i | 0 <= i < |nodes| ensures IsCopy(nodes[i], UnpackAll(nodes)[i]) {
      UnpackedFields(nodes[i], Unpacked(nodes[i]));
    }
    hide IsCopy;
    hide RawAll, Encode, Fits, UnpackAll;
    if Fits(nodes) {
      UnpackWellFormed(nodes);
      FitsEncode(nodes);
    }
    forall m | WellFormed(m) && Encode(m) == RawAll(nodes) ensures Fits(nodes) && m == UnpackAll(nodes) {
      DecodesOnlyIfFits(nodes, m);
      UnpackWellFormed(nodes);
      FitsEncode(nodes);
      EncodeInjective(m, UnpackAll(nodes));
    }
  }

  lemma FitsEncode(nodes: seq<Node>)
    requires WellFormed(nodes) && Fits(nodes)
    ensures WellFormed(UnpackAll(nodes)) && Encode(UnpackAll(nodes)) == RawAll(nodes)
  {
    UnpackWellFormed(nodes);
    RawIsEncode(nodes);
  }

  lemma EncodeInjective(a: seq<Node>, b: seq<Node>)
    requires WellFormed(a) && WellFormed(b) && Encode(a) == Encode(b)
    ensures a == b
  {
    DecodeUnique(Encode(a), 0, a, b);
  }

  /** Unpacking what is already unpacked changes nothing. */
  lemma UnpackedTwice(nodes: seq<Node>)
    requires WellFormed(nodes) && Fits(nodes)
    ensures WellFormed(UnpackAll(nodes)) && Fits(UnpackAll(nodes)) && UnpackAll(UnpackAll(nodes)) == UnpackAll(nodes)
    ensures RawAll(UnpackAll(nodes)) == RawAll(nodes)
  {
    UnpackWellFormed(nodes);
    RawIsEncode(nodes);
    forall i | 0 <= i < |nodes|
      ensures Rounded(Unpacked(nodes[i]).Length()) < 0x1_0000 && Unpacked(Unpacked(nodes[i])) == Unpacked(nodes[i])
    {
      NodeTwice(nodes[i]);
    }
    assert UnpackAll(UnpackAll(nodes)) == UnpackAll(nodes);
    RawIsEncode(UnpackAll(nodes));
  }

  lemma NodeTwice(node: Node)
    ensures Unpacked(Unpacked(node)) == Unpacked(node) && Unpacked(node).Length() == Rounded(node.Length())
    ensures Rounded(Unpacked(node).Length()) == Rounded(node.Length())
  {
  }

  // ---------- the two passes ----------

  method UnpackDevicePath(devPath: Pointer, granted: bool, ghost nodes: seq<Node>) returns (newPath: array?<byte>)
    requires WellFormed(nodes) && Spells(devPath.buf[..], devPath.pos, nodes)
    ensures newPath == null <==> !granted
    ensures newPath != null ==> fresh(newPath) && newPath[..] == RawAll(nodes) && AllCopied(nodes, newPath[..])
  {
    hide AllCopied;
    var size := SizingPass(devPath, nodes);
    if !granted {
      return null;
    }
    newPath := new byte[size](i => 0);
    CopyingPass(newPath, devPath, nodes);
  }

  /** Aligns a running total; the total is the size of the copy. */
  method SizingPass(devPath: Pointer, ghost nodes: seq<Node>) returns (size: nat)
    requires WellFormed(nodes) && Spells(devPath.buf[..], devPath.pos, nodes)
    ensures size == |RawAll(nodes)|
  {
    hide Spells, EndAt, LengthAt, RawAll, Encode, Pad;
    var buf := devPath.buf;
    var src := devPath.pos;
    ghost var k := 0;
    size := 0;
    WalkStarts(nodes);
    assert nodes[..0] == [];
    NothingCopied();
    while true
      invariant k < |nodes| && src == devPath.pos + |Encode(nodes[..k])| && Spells(buf[..], src, nodes[k..])
      invariant size == |RawAll(nodes[..k])| && size % MIN_ALIGNMENT_SIZE == 0
      decreases |nodes| - k
    {
      WalkOn(buf[..], devPath.pos, nodes, k, src);
      RawStep(nodes, k);
      SameTotal(size, LengthAt(buf[..], src));
      size := size + LengthAt(buf[..], src);
      size := size + Pad(size);
      if EndAt(buf[..], src) {
        break;
      }
      src := src + LengthAt(buf[..], src);
      k := k + 1;
    }
    assert nodes[..k + 1] == nodes;
  }

  /** Aligning an aligned total plus a size adds the aligned size. */
  lemma SameTotal(total: nat, size: nat)
    requires total % MIN_ALIGNMENT_SIZE == 0
    ensures total + size + Pad(total + size) == total + Rounded(size)
    ensures (total + Rounded(size)) % MIN_ALIGNMENT_SIZE == 0
  {
    assert (total + size) % MIN_ALIGNMENT_SIZE == size % MIN_ALIGNMENT_SIZE;
  }

  lemma NothingCopied()
    ensures RawAll([]) == []
  {
  }

  /** Copies each node, pads it, and corrects its length and type. */
  method CopyingPass(newPath: array<byte>, devPath: Pointer, ghost nodes: seq<Node>)
    requires WellFormed(nodes) && Spells(devPath.buf[..], devPath.pos, nodes) && newPath != devPath.buf
    requires newPath.Length == |RawAll(nodes)| && forall i :: 0 <= i < newPath.Length ==> newPath[i] == 0
    modifies newPath
    ensures newPath[..] == RawAll(nodes) && AllCopied(nodes, newPath[..])
  {
    RawAllFields(nodes);
    hide Spells, EndAt, LengthAt, RawAll, Encode, Raw, Pad, AllCopied;
    var buf := devPath.buf;
    var src := devPath.pos;
    var dest: nat := 0;
    ghost var k := 0;
    WalkStarts(nodes);
    assert nodes[..0] == [];
    NothingCopied();
    while true
      invariant k < |nodes| && src == devPath.pos + |Encode(nodes[..k])| && Spells(buf[..], src, nodes[k..])
      invariant dest == |RawAll(nodes[..k])| <= newPath.Length && newPath[..dest] == RawAll(nodes[..k])
      invariant forall i :: dest <= i < newPath.Length ==> newPath[i] == 0
      decreases |nodes| - k
    {
      WalkOn(buf[..], devPath.pos, nodes, k, src);
      FirstNode(buf[..], src, nodes[k..]);
      RawStep(nodes, k);
      var size := CopyNode(newPath, dest, buf, src, nodes[k]);
      dest := dest + size;
      if EndAt(buf[..], src) {
        break;
      }
      src := src + LengthAt(buf[..], src);
      k := k + 1;
    }
    assert nodes[..k + 1] == nodes && newPath[..] == newPath[..dest];
  }

  method CopyNode(dest: array<byte>, at: nat, src: array<byte>, from: nat, ghost node: Node) returns (size: nat)
    requires node.Valid() && dest != src && at + Rounded(node.Length()) <= dest.Length
    requires from + node.Length() <= src.Length && src[from..from + node.Length()] == node.Bytes()
    requires LengthAt(src[..], from) == node.Length()
    requires forall i :: at <= i < dest.Length ==> dest[i] == 0
    modifies dest
    ensures size == Rounded(node.Length())
    ensures dest[..at + size] == old(dest[..at]) + Raw(node)
    ensures forall i :: at + size <= i < dest.Length ==> dest[i] == 0
  {
    hide Node.Bytes, Node.Valid, Raw, Pad, LengthAt, Mark, Zeros;
    size := LengthAt(src[..], from);
    ghost var pre, padded := dest[..at], at + Rounded(size);
    CopyIntoZeros(dest, at, src, from, size, Rounded(size));
    ghost var copied := dest[..padded];
    HeaderRewritten(pre, node);
    size := size + Pad(size);
    RewriteHeader(dest, at, size, padded);
  }

  /** The new length and the unpacked bit, written over the header at `at`. */
  method RewriteHeader(dest: array<byte>, at: nat, size: nat, ghost padded: nat)
    requires at + HEADER <= padded <= dest.Length
    modifies dest
    ensures var copied := old(dest[..padded]);
            dest[..padded] == copied[at + 2 := (size % 256) as byte][at + 3 := (size / 256 % 256) as byte][at := Mark(copied[at])]
    ensures forall i :: padded <= i < dest.Length ==> dest[i] == old(dest[i])
  {
    dest[at + 2] := (size % 256) as byte;
    dest[at + 3] := (size / 256 % 256) as byte;
    dest[at] := Mark(dest[at]);
  }

  /** CopyMem into a cleared buffer: cleared bytes remain behind the copied ones. */
  method CopyIntoZeros(dest: array<byte>, at: nat, src: array<byte>, from: nat, n: nat, ghost padded: nat)
    requires dest != src && n <= padded && at + padded <= dest.Length && from + n <= src.Length
    requires forall i :: at <= i < dest.Length ==> dest[i] == 0
    modifies dest
    ensures dest[..at + padded] == old(dest[..at]) + src[from..from + n] + Zeros(padded - n)
    ensures forall i :: at + padded <= i < dest.Length ==> dest[i] == 0
  {
    CopyMem(dest, at, src, from, n);
    assert forall i :: at + n <= i < dest.Length ==>
                         dest[i] == dest[at + n..][i - at - n] == old(dest[at + n..])[i - at - n] == 0;
    assert dest[..at + padded] == dest[..at + n] + dest[at + n..at + padded];
  }

  lemma HeaderRewritten(pre: seq<byte>, node: Node)
    requires node.Valid()
    ensures var s, at, size := pre + node.Bytes() + Zeros(Pad(node.Length())), |pre|, Rounded(node.Length());
            && s[at] == node.kind
            && s[at + 2 := (size % 256) as byte][at + 3 := (size / 256 % 256) as byte][at := Mark(s[at])] == pre + Raw(node)
  {
  }
}
