/** The buffered formatter of gnu-efi/lib/print.c: characters are collected in a 200-slot buffer and
    handed in chunks to one of two output workers, which read `maxlen` differently. */
module Formatter {
  import opened Common
  import opened Text

  const PRINT_STRING_LEN: nat := 200
  const NO_WIDTH: nat := 0xffff_ffff_ffff_ffff

  const CR: CHAR16 := 13
  const LF: CHAR16 := 10
  const BLANK: CHAR16 := Ch(' ')

  // ---------- the output workers ----------

  method CopyMem(dst: array<CHAR16>, at: nat, src: seq<CHAR16>)
    requires at + |src| <= dst.Length
    modifies dst
    ensures dst[..at + |src|] == old(dst[..at]) + src
    ensures dst[at + |src|..] == old(dst[at + |src|..])
  {
    forall i | 0 <= i < |src| {
      dst[at + i] := src[i];
    }
  }

  /** POOL_PRINT. For _SPrint `maxlen` is the last usable index of `str`, for _PoolPrint it is the
      number of its slots. */
  class PoolPrint {
    var str: array?<CHAR16>
    var len: nat
    var maxlen: nat

    constructor (str: array?<CHAR16>, maxlen: nat)
      ensures this.str == str && len == 0 && this.maxlen == maxlen
    {
      this.str, this.len, this.maxlen := str, 0, maxlen;
    }

    /** A text of `len` characters at the start of `str`. */
    predicate Valid()
      reads this
    {
      len <= maxlen && (maxlen > 0 ==> str != null && len <= str.Length)
    }

    function Written(): seq<CHAR16>
      requires Valid()
      reads this, str
    {
      if maxlen == 0 then [] else str[..len]
    }

    predicate Terminated()
      reads this, str
    {
      maxlen > 0 && str != null && len < str.Length && str[len] == NUL
    }

    /** Append what fits, then terminate: at the end of the text, or in slot `maxlen` when it is full. */
    method SPrint(buffer: CString)
      requires Valid()
      requires maxlen > 0 ==> maxlen < str.Length || len + |buffer| < Min(maxlen, str.Length)
      modifies this`len, str
      ensures Valid()
      ensures Written() == old(Written()) + buffer[..Min(|buffer|, maxlen - old(len))]
      ensures maxlen > 0 ==> Terminated()
      ensures len == old(len) + Min(|buffer|, maxlen - old(len))
    {
      var n := |buffer|;
      if len + n > maxlen {
        n := maxlen - len;
      }
      if maxlen > 0 {
        CopyMem(str, len, buffer[..n]);
      }
      len := len + n;
      ghost var text := Written();
      if len < maxlen {
        str[len] := NUL;
      } else if maxlen > 0 {
        str[maxlen] := NUL;
      }
      assert Written() == text;
    }

    /** Grow the buffer if the text and a NUL might not fit, then append. `granted` says whether the
        allocation, if one is needed, succeeds. The out-of-range slot `maxlen` is never written,
        because a grown buffer always has room to spare. */
    method PoolPrintChunk(buffer: CString, granted: bool)
      requires Valid() && (maxlen > 0 ==> maxlen == str.Length)
      modifies this, str
      ensures Valid() && (maxlen > 0 ==> maxlen == str.Length && Terminated())
      ensures var grows := old(len) + |buffer| + 1 > old(maxlen);
              Written() == if grows && !granted then [] else old(Written()) + buffer
      ensures maxlen == 0 <==> old(len) + |buffer| + 1 > old(maxlen) && !granted
      ensures len == |Written()|
      ensures str == old(str) || str == null || fresh(str)
    {
      var newlen := len + |buffer| + 1;
      if newlen > maxlen {
        Grow(newlen + PRINT_STRING_LEN, granted);
      }
      SPrint(buffer);
    }

    /** A larger buffer with the same text, or none. */
    method Grow(newlen: nat, granted: bool)
      requires Valid() && newlen > len
      modifies this
      ensures Valid() && Written() == (if granted then old(Written()) else []) && len == |Written()|
      ensures maxlen == if granted then newlen else 0
      ensures if granted then fresh(str) && str.Length == maxlen && len == old(len) else str == null
    {
      maxlen := newlen;
      if granted {
        var pool := new CHAR16[newlen];
        if len > 0 {
          CopyMem(pool, 0, str[..len]);
        }
        str := pool;
      } else {
        str := null;
        len := 0;
        maxlen := 0;
      }
    }
  }

  // ---------- the stream ----------

  /** What PPUTC makes of a character: a line feed gets a carriage return in front. */
  function Expanded(c: CHAR16): seq<CHAR16> {
    if c == LF then [CR, LF] else [c]
  }

  function Expand(s: seq<CHAR16>): seq<CHAR16> {
    if s == [] then [] else Expand(s[..|s| - 1]) + Expanded(s[|s| - 1])
  }

  lemma {:induction false} ExpandConcat(s: seq<CHAR16>, t: seq<CHAR16>)
    ensures Expand(s + t) == Expand(s) + Expand(t)
    decreases |t|
  {
    if t == [] {
      assert s + t == s;
    } else {
      var n := |t| - 1;
      assert (s + t)[..|s + t| - 1] == s + t[..n];
      ExpandConcat(s, t[..n]);
    }
  }

  /** The number of line feeds. */
  function Feeds(s: seq<CHAR16>): nat {
    if s == [] then 0 else Feeds(s[..|s| - 1]) + if s[|s| - 1] == 10 then 1 else 0
  }

  lemma {:induction false} FeedsWithin(s: seq<CHAR16>, i: nat)
    requires i <= |s|
    ensures Feeds(s[..i]) <= Feeds(s)
    decreases |s|
  {
    if i < |s| {
      FeedsWithin(s[..|s| - 1], i);
      assert s[..|s| - 1][..i] == s[..i];
    } else {
      assert s[..i] == s;
    }
  }

  /** Every character is further on by the number of line feeds up to it, a line feed has a carriage return
      before it, and nothing else comes in. */
  lemma {:induction false} ExpandPlaces(s: seq<CHAR16>, i: nat)
    requires i < |s|
    ensures |Expand(s)| == |s| + Feeds(s) && Feeds(s[..i]) <= Feeds(s[..i + 1]) <= Feeds(s)
    ensures Expand(s)[i + Feeds(s[..i + 1])] == s[i]
    ensures s[i] == 10 ==> Feeds(s[..i + 1]) == Feeds(s[..i]) + 1 && Expand(s)[i + Feeds(s[..i])] == 13
    decreases |s|
  {
    var front := s[..|s| - 1];
    FeedsWithin(s, i + 1);
    FeedsWithin(s[..i + 1], i);
    assert s[..i + 1][..i] == s[..i];
    ExpandLength(front);
    if i < |front| {
      ExpandPlaces(front, i);
      assert front[..i] == s[..i] && front[..i + 1] == s[..i + 1];
    } else {
      assert s[..i] == front && s[..i + 1] == s;
      assert Expanded(s[i]) == if s[i] == 10 then [13, 10] else [s[i]];
    }
  }

  lemma {:induction false} ExpandLength(s: seq<CHAR16>)
    ensures |Expand(s)| == |s| + Feeds(s)
  {
    if s != [] {
      ExpandLength(s[..|s| - 1]);
    }
  }

  lemma {:induction false} ExpandPlain(s: seq<CHAR16>)
    requires LF !in s
    ensures Expand(s) == s
  {
    if s != [] {
      ExpandPlain(s[..|s| - 1]);
      assert s == s[..|s| - 1] + [s[|s| - 1]];
    }
  }

  function Repeat(c: CHAR16, n: nat): (s: seq<CHAR16>)
    ensures |s| == n && (n > 0 ==> c in s) && forall x :: x in s ==> x == c
  {
    if n == 0 then [] else Repeat(c, n - 1) + [c]
  }

  /** A field: `text` cut at the field width, filled up to `width` with the pad character, and the result
      padded with blanks to the field width, in front or behind. */
  datatype Item = Item(text: CString, width: nat, fieldWidth: nat, pad: CHAR16, padBefore: bool) {
    function Shown(): seq<CHAR16> {
      text[..Min(|text|, fieldWidth)]
    }

    function Pads(): nat {
      if width > |Shown()| then width - |Shown()| else 0
    }

    function Blanks(): nat {
      var field := if fieldWidth == NO_WIDTH then |Shown()| else fieldWidth;
      if field > |Shown()| + Pads() then field - |Shown()| - Pads() else 0
    }

    function Text(): seq<CHAR16> {
      Repeat(BLANK, if padBefore then Blanks() else 0) + Repeat(pad, Pads()) + Shown()
      + Repeat(BLANK, if padBefore then 0 else Blanks())
    }
  }

  /** The text of an item: at most as many characters as its field, filled up from the left to its width with the
      pad, and then to its field, if it has one, with blanks on the one side or the other. */
  lemma ItemText(item: Item)
    ensures var shown := if |item.text| < item.fieldWidth then |item.text| else item.fieldWidth;
            var filled := if item.width > shown then item.width else shown;
            var length := if item.fieldWidth != 0xffff_ffff_ffff_ffff && item.fieldWidth > filled then item.fieldWidth else filled;
            var at := if item.padBefore then length - filled else 0;
            item.Text() == seq(at, i => 32) + seq(filled - shown, i => item.pad) + item.text[..shown]
                           + seq(length - at - filled, i => 32)
  {
    RepeatIs(BLANK, if item.padBefore then item.Blanks() else 0);
    RepeatIs(item.pad, item.Pads());
    RepeatIs(BLANK, if item.padBefore then 0 else item.Blanks());
    hide Repeat;
  }

  lemma RepeatIs(c: CHAR16, n: nat)
    ensures Repeat(c, n) == seq(n, i => c)
  {
    hide Repeat;
    assert forall i :: 0 <= i < n ==> Repeat(c, n)[i] in Repeat(c, n);
  }

  /** What a format produces: plain characters and items. */
  datatype Piece = Plain(c: CHAR16) | Field(item: Item) {
    function Text(): seq<CHAR16> {
      match this
      case Plain(c) => [c]
      case Field(item) => item.Text()
    }

    /** Format characters are not NUL, and items are padded with blanks or zeros. */
    predicate Proper() {
      match this
      case Plain(c) => c != NUL
      case Field(item) => item.pad == BLANK || item.pad == Ch('0')
    }
  }

  function Output(pieces: seq<Piece>): seq<CHAR16> {
    if pieces == [] then [] else Output(pieces[..|pieces| - 1]) + pieces[|pieces| - 1].Text()
  }

  lemma {:induction false} OutputConcat(a: seq<Piece>, b: seq<Piece>)
    ensures Output(a + b) == Output(a) + Output(b)
    decreases |b|
  {
    hide Piece.Text;
    if b == [] {
      assert a + b == a;
    } else {
      var n := |b| - 1;
      assert (a + b)[..|a + b| - 1] == a + b[..n];
      OutputConcat(a, b[..n]);
    }
  }

  /** Plain characters are printed as they are, and one piece after another. */
  lemma OutputPlain(a: seq<Piece>, c: CHAR16, item: Item, b: seq<Piece>)
    ensures Output(a + [Plain(c)] + b) == Output(a) + [c] + Output(b)
    ensures Output(a + [Field(item)] + b) == Output(a) + item.Text() + Output(b)
  {
    hide Output, Item.Text;
    OutputConcat(a + [Plain(c)], b);
    OutputConcat(a + [Field(item)], b);
    OutputConcat(a, [Plain(c)]);
    OutputConcat(a, [Field(item)]);
    OneOutput(Plain(c));
    OneOutput(Field(item));
  }

  lemma OneOutput(piece: Piece)
    ensures Output([piece]) == piece.Text()
  {
    assert [piece][..0] == [];
  }

  lemma TakeMore(sent: seq<CHAR16>, chunk: seq<CHAR16>, m: nat)
    ensures var n := Min(|sent|, m);
            sent[..n] + chunk[..Min(|chunk|, m - n)] == (sent + chunk)[..Min(|sent + chunk|, m)]
  {
  }

  /** _SPrint's worker holds the longest prefix of what it was sent that fits. */
  predicate HoldsPrefix(spc: PoolPrint, sent: seq<CHAR16>)
    reads spc, spc.str
  {
    && spc.Valid() && (spc.maxlen > 0 ==> spc.maxlen < spc.str.Length)
    && spc.len == |spc.Written()| && spc.Written() == sent[..Min(|sent|, spc.maxlen)]
  }

  /** _PoolPrint's worker holds everything since the last failed allocation. */
  predicate HoldsSince(spc: PoolPrint, sent: seq<CHAR16>, lost: nat)
    reads spc, spc.str
  {
    && spc.Valid() && (spc.maxlen > 0 ==> spc.maxlen == spc.str.Length)
    && lost <= |sent| && spc.len == |spc.Written()| && spc.Written() == sent[lost..]
  }

  method SendFixed(spc: PoolPrint, chunk: CString, ghost sent: seq<CHAR16>)
    requires HoldsPrefix(spc, sent)
    modifies spc`len, spc.str
    ensures HoldsPrefix(spc, sent + chunk) && (spc.maxlen > 0 ==> spc.Terminated())
  {
    TakeMore(sent, chunk, spc.maxlen);
    spc.SPrint(chunk);
  }

  method SendPool(spc: PoolPrint, chunk: CString, granted: bool, ghost sent: seq<CHAR16>, ghost lost: nat)
    returns (ghost lost': nat)
    requires HoldsSince(spc, sent, lost)
    modifies spc, spc.str
    ensures HoldsSince(spc, sent + chunk, lost') && (spc.maxlen > 0 ==> spc.Terminated())
    ensures granted ==> lost' == lost && spc.maxlen > 0
    ensures spc.str == old(spc.str) || spc.str == null || fresh(spc.str)
  {
    spc.PoolPrintChunk(chunk, granted);
    if spc.maxlen == 0 {
      lost' := |sent + chunk|;
    } else {
      lost' := lost;
      assert sent[lost..] + chunk == (sent + chunk)[lost..];
    }
  }

  class PrintState {
    const Buffer: array<CHAR16>
    const spc: PoolPrint
    const pool: bool
    const granted: nat -> bool
    var Pos: nat
    var Len: nat
    var flushes: nat

    ghost var sent: seq<CHAR16>
    ghost var lost: nat

    /** The chunks sent so far make up `sent`. */
    ghost predicate ValidOrFull()
      reads this, Buffer, spc, spc.str
    {
      && Buffer.Length == PRINT_STRING_LEN && Pos <= PRINT_STRING_LEN - 1 && Buffer != spc.str
      && NUL !in Buffer[..Pos] && NUL !in sent && Len == |sent| + Pos
      && (if pool then HoldsSince(spc, sent, lost) else HoldsPrefix(spc, sent))
      && ((forall i :: 0 <= i < flushes ==> granted(i)) ==> lost == 0)
    }

    /** Between calls the buffer is not full. */
    ghost predicate Valid()
      reads this, Buffer, spc, spc.str
    {
      ValidOrFull() && Pos < PRINT_STRING_LEN - 1
    }

    /** The worker's buffer is the same one, or a new one; _SPrint's never changes. */
    twostate predicate Kept()
      reads this, spc
    {
      && (spc.str == old(spc.str) || spc.str == null || fresh(spc.str))
      && (!pool ==> spc.str == old(spc.str) && spc.maxlen == old(spc.maxlen))
    }

    ghost function Stream(): seq<CHAR16>
      requires Pos <= Buffer.Length
      reads this, Buffer
    {
      sent + Buffer[..Pos]
    }

    constructor (spc: PoolPrint, pool: bool, granted: nat -> bool)
      requires spc.Valid() && spc.len == 0
      requires if pool then spc.maxlen == 0 else spc.maxlen > 0 ==> spc.maxlen < spc.str.Length
      ensures this.spc == spc && this.pool == pool && this.granted == granted && fresh(Buffer)
      ensures Valid() && Stream() == [] && Len == 0 && sent == []
    {
      this.spc, this.pool, this.granted := spc, pool, granted;
      Buffer := new CHAR16[PRINT_STRING_LEN];
      Pos, Len, flushes := 0, 0, 0;
      sent, lost := [], 0;
    }

    /** Hands the collected characters to the worker as a C string. */
    method PFLUSH()
      requires ValidOrFull()
      modifies this`Pos, this`flushes, this`sent, this`lost, Buffer, spc, spc.str
      ensures Valid() && Pos == 0 && Len == old(Len)
      ensures Stream() == old(Stream()) == sent
      ensures Kept()
      ensures spc.maxlen > 0 ==> spc.Terminated()
      ensures pool && (forall i :: 0 <= i < flushes ==> granted(i)) ==> spc.maxlen > 0
    {
      hide HoldsSince, HoldsPrefix;
      var chunk: CString := Buffer[..Pos];
      Buffer[Pos] := NUL;
      if pool {
        lost := SendPool(spc, chunk, granted(flushes), sent, lost);
      } else {
        SendFixed(spc, chunk, sent);
      }
      flushes := flushes + 1;
      sent := sent + chunk;
      Pos := 0;
      assert Buffer[..0] == [];
    }

    /** Adds a character, and flushes when the buffer is full. */
    method PPUTC(c: CHAR16)
      requires Valid() && c != NUL
      modifies this`Pos, this`Len, this`flushes, this`sent, this`lost, Buffer, spc, spc.str
      ensures Valid() && Stream() == old(Stream()) + Expanded(c)
      ensures Kept()
      decreases if c == LF then 1 else 0
    {
      hide HoldsSince, HoldsPrefix;
      if c == LF {
        PPUTC(CR);
      }
      ghost var before, shown := Stream(), Buffer[..Pos];
      Buffer[Pos] := c;
      Pos := Pos + 1;
      Len := Len + 1;
      assert Buffer[..Pos] == shown + [c];
      assert Stream() == before + [c] && ValidOrFull();
      if Pos >= PRINT_STRING_LEN - 1 {
        PFLUSH();
      }
    }

    /** A run of the same character. */
    method Fill(c: CHAR16, n: nat)
      requires Valid() && c != NUL && c != LF
      modifies this`Pos, this`Len, this`flushes, this`sent, this`lost, Buffer, spc, spc.str
      ensures Valid() && Stream() == old(Stream()) + Repeat(c, n)
      ensures Kept()
    {
      hide HoldsSince, HoldsPrefix;
      var i := 0;
      while i < n
        invariant i <= n && Valid() && Stream() == old(Stream()) + Repeat(c, i)
        invariant Kept()
      {
        PPUTC(c);
        i := i + 1;
      }
    }

    /** Characters one after the other. */
    method Put(s: CString)
      requires Valid()
      modifies this`Pos, this`Len, this`flushes, this`sent, this`lost, Buffer, spc, spc.str
      ensures Valid() && Stream() == old(Stream()) + Expand(s)
      ensures Kept()
    {
      hide HoldsSince, HoldsPrefix, Expanded;
      var i := 0;
      while i < |s|
        invariant i <= |s| && Valid() && Stream() == old(Stream()) + Expand(s[..i])
        invariant Kept()
      {
        PPUTC(s[i]);
        assert s[..i + 1][..i] == s[..i];
        i := i + 1;
      }
      assert s[..|s|] == s;
    }

    /** The length of an item: up to its NUL or the field width. */
    method ItemLength(text: CString, fieldWidth: nat) returns (index: nat)
      ensures index == Min(|text|, fieldWidth)
    {
      index := 0;
      while index < fieldWidth
        invariant index <= |text| && index <= fieldWidth
        decreases fieldWidth - index
      {
        if At(text, index) == NUL {
          break;
        }
        index := index + 1;
      }
    }

    method PITEM(item: Item)
      requires Valid() && Field(item).Proper()
      modifies this`Pos, this`Len, this`flushes, this`sent, this`lost, Buffer, spc, spc.str
      ensures Valid() && Stream() == old(Stream()) + Expand(item.Text())
      ensures Kept()
    {
      hide HoldsSince, HoldsPrefix, Expand, Repeat, ValidOrFull;
      var length := ItemLength(item.text, item.fieldWidth);
      var fieldWidth, width := item.fieldWidth, item.width;
      if fieldWidth == NO_WIDTH {
        fieldWidth := length;
      }
      if length > width {
        width := length;
      }
      var blanks := if fieldWidth > width then fieldWidth - width else 0;
      assert length == |item.Shown()| && width - length == item.Pads() && blanks == item.Blanks();
      PutField(item.padBefore, blanks, item.pad, width - length, item.text[..length]);
    }

    /** The blanks, the padding and the text of an item, the blanks in front or behind. */
    method PutField(before: bool, blanks: nat, pad: CHAR16, pads: nat, shown: CString)
      requires Valid() && pad != NUL && pad != LF
      modifies this`Pos, this`Len, this`flushes, this`sent, this`lost, Buffer, spc, spc.str
      ensures Valid() && Kept()
      ensures Stream() == old(Stream())
                          + Expand(Repeat(BLANK, if before then blanks else 0) + Repeat(pad, pads) + shown
                                   + Repeat(BLANK, if before then 0 else blanks))
    {
      ghost var start := Stream();
      hide HoldsSince, HoldsPrefix, Expand, Repeat, ValidOrFull;
      PadBlanks(before, blanks);
      Fill(pad, pads);
      Put(shown);
      PadBlanks(!before, blanks);
      FieldExpands(start, Repeat(BLANK, if before then blanks else 0), Repeat(pad, pads), shown,
                   Repeat(BLANK, if before then 0 else blanks));
    }

    /** The blanks on one side, if they belong there. */
    method PadBlanks(here: bool, n: nat)
      requires Valid()
      modifies this`Pos, this`Len, this`flushes, this`sent, this`lost, Buffer, spc, spc.str
      ensures Valid() && Stream() == old(Stream()) + Repeat(BLANK, if here then n else 0)
      ensures Kept()
    {
      if here {
        Fill(BLANK, n);
      }
    }

    /** One plain character or item. */
    method PutPiece(piece: Piece)
      requires Valid() && piece.Proper()
      modifies this`Pos, this`Len, this`flushes, this`sent, this`lost, Buffer, spc, spc.str
      ensures Valid() && Stream() == old(Stream()) + Expand(piece.Text())
      ensures Kept()
    {
      hide HoldsSince, HoldsPrefix;
      match piece {
        case Plain(c) =>
          assert [c][..0] == [];
          PPUTC(c);
        case Field(item) =>
          PITEM(item);
      }
    }

    /** A whole format: plain characters and items in turn, then the last flush. */
    method Print(pieces: seq<Piece>)
      requires Valid() && forall p :: p in pieces ==> p.Proper()
      modifies this`Pos, this`Len, this`flushes, this`sent, this`lost, Buffer, spc, spc.str
      ensures Valid() && sent == old(Stream()) + Expand(Output(pieces)) && Pos == 0
      ensures Kept()
      ensures spc.maxlen > 0 ==> spc.Terminated()
      ensures pool && (forall i :: 0 <= i < flushes ==> granted(i)) ==> spc.maxlen > 0
    {
      hide HoldsSince, HoldsPrefix, Expand, Output;
      NoOutput();
      var i := 0;
      while i < |pieces|
        invariant i <= |pieces| && Valid() && Stream() == old(Stream()) + Expand(Output(pieces[..i]))
        invariant Kept()
      {
        assert pieces[i] in pieces;
        OutputStep(pieces, i);
        PutPiece(pieces[i]);
        i := i + 1;
      }
      assert pieces[..|pieces|] == pieces;
      PFLUSH();
    }
  }

  lemma OutputStep(pieces: seq<Piece>, i: nat)
    requires i < |pieces|
    ensures Expand(Output(pieces[..i + 1])) == Expand(Output(pieces[..i])) + Expand(pieces[i].Text())
  {
    assert pieces[..i + 1][..i] == pieces[..i];
    ExpandConcat(Output(pieces[..i]), pieces[i].Text());
  }

  lemma NoOutput()
    ensures Expand(Output([])) == []
  {
  }

  /** Only the text itself can hold line feeds. */
  lemma FieldExpands(start: seq<CHAR16>, l: seq<CHAR16>, p: seq<CHAR16>, s: seq<CHAR16>, r: seq<CHAR16>)
    requires LF !in l && LF !in p && LF !in r
    ensures start + l + p + Expand(s) + r == start + Expand(l + p + s + r)
  {
    ExpandConcat(l + p + s, r);
    ExpandConcat(l + p, s);
    ExpandPlain(l + p);
    ExpandPlain(r);
    Reassociate(start, l, p, Expand(s), r);
  }

  lemma Reassociate(a: seq<CHAR16>, b: seq<CHAR16>, c: seq<CHAR16>, d: seq<CHAR16>, e: seq<CHAR16>)
    ensures a + b + c + d + e == a + (b + c + d + e)
  {
  }

  // ---------- the two print functions ----------

  /** VSPrint into a buffer of |Str| characters. With at least two of them the result is the longest
      prefix of the output that fits, NUL-terminated; a buffer of one gets no characters and, as the
      code has it, no NUL either. */
  method VSPrint(str: array<CHAR16>, pieces: seq<Piece>) returns (length: nat)
    requires str.Length > 0 && forall p :: p in pieces ==> p.Proper()
    modifies str
    ensures var out := Expand(Output(pieces));
            length == Min(|out|, str.Length - 1)
            && str[..length] == out[..length] && (str.Length > 1 ==> str[length] == NUL)
  {
    hide Output, Expand, Expanded;
    var spc := new PoolPrint(str, str.Length - 1);
    var ps := new PrintState(spc, false, n => true);
    ps.Print(pieces);
    assert HoldsPrefix(spc, ps.sent) && ps.sent == [] + Expand(Output(pieces)) == Expand(Output(pieces));
    length := spc.len;
  }

  /** VPoolPrint. If every allocation succeeds the result is the whole output, never truncated. */
  method VPoolPrint(pieces: seq<Piece>, granted: nat -> bool) returns (str: array?<CHAR16>)
    requires forall p :: p in pieces ==> p.Proper()
    ensures (forall i :: granted(i)) ==>
              var out := Expand(Output(pieces));
              str != null && |out| < str.Length && str[..|out|] == out && str[|out|] == NUL
  {
    hide Output, Expand, Expanded;
    var spc := new PoolPrint(null, 0);
    var ps := new PrintState(spc, true, granted);
    ps.Print(pieces);
    str := spc.str;
  }
}
