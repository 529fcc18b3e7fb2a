/** The circular doubly linked list of gnu-efi/inc/efilink.h. The macros assign the links one after the
    other; what they do to the list is stated on the sequence of its entries. */
module Links {

  class ListEntry {
    var Flink: ListEntry
    var Blink: ListEntry

    /** An entry starts out linked to itself. */
    constructor ()
      ensures Flink == this && Blink == this
    {
      Flink := this;
      Blink := this;
    }
  }

  function Next(i: nat, n: nat): nat
    requires i < n
  {
    if i + 1 < n then i + 1 else 0
  }

  /** The `i`-th entry and the one after it point at each other. */
  ghost predicate Joined(ring: seq<ListEntry>, i: nat)
    requires i < |ring|
    reads ring
  {
    ring[i].Flink == ring[Next(i, |ring|)] && ring[Next(i, |ring|)].Blink == ring[i]
  }

  ghost predicate Distinct(ring: seq<ListEntry>) {
    forall i, j :: 0 <= i < j < |ring| ==> ring[i] != ring[j]
  }

  /** One cycle: each entry is joined to the next and the last to the first, and none occurs twice. */
  ghost predicate Ring(ring: seq<ListEntry>)
    reads ring
  {
    |ring| > 0 && Distinct(ring) && forall i :: 0 <= i < |ring| ==> Joined(ring, i)
  }

  /** The head with its entries behind it. */
  ghost predicate IsList(head: ListEntry, entries: seq<ListEntry>)
    reads [head] + entries
  {
    Ring([head] + entries)
  }

  /** A ring has no beginning: it can be read from any of its entries on. */
  lemma Rotate(ring: seq<ListEntry>, k: nat)
    requires Ring(ring) && k <= |ring|
    ensures Ring(ring[k..] + ring[..k])
  {
    var turned := ring[k..] + ring[..k];
    forall i | 0 <= i < |turned| ensures Joined(turned, i) {
      var j := if i + k < |ring| then i + k else i + k - |ring|;
      assert turned[i] == ring[j] && Joined(ring, j);
    }
  }

  method InitializeListHead(listHead: ListEntry)
    modifies listHead
    ensures IsList(listHead, [])
  {
    listHead.Flink := listHead;
    listHead.Blink := listHead;
  }

  method IsListEmpty(listHead: ListEntry, ghost entries: seq<ListEntry>) returns (empty: bool)
    requires IsList(listHead, entries)
    ensures empty <==> entries == []
  {
    assert Joined([listHead] + entries, 0);
    return listHead.Flink == listHead;
  }

  /** Appends. */
  method InsertTailList(listHead: ListEntry, entry: ListEntry, ghost entries: seq<ListEntry>)
    requires IsList(listHead, entries) && entry != listHead && entry !in entries
    modifies entry, listHead, listHead.Blink
    ensures IsList(listHead, entries + [entry])
  {
    ghost var ring := [listHead] + entries;
    ghost var ring' := [listHead] + (entries + [entry]);
    assert ring' == ring + [entry] && entry !in ring;
    var blink := listHead.Blink;
    assert Joined(ring, |entries|);
    entry.Flink := listHead;
    entry.Blink := blink;
    blink.Flink := entry;
    listHead.Blink := entry;
    forall i | 0 <= i < |ring'| ensures Joined(ring', i) {
      if i < |entries| { assert old(Joined(ring, i)); }
    }
  }

  /** Prepends. */
  method InsertHeadList(listHead: ListEntry, entry: ListEntry, ghost entries: seq<ListEntry>)
    requires IsList(listHead, entries) && entry != listHead && entry !in entries
    modifies entry, listHead, listHead.Flink
    ensures IsList(listHead, [entry] + entries)
  {
    ghost var ring := [listHead] + entries;
    ghost var ring' := [listHead] + ([entry] + entries);
    var flink := listHead.Flink;
    assert Joined(ring, 0);
    entry.Flink := flink;
    entry.Blink := listHead;
    flink.Blink := entry;
    listHead.Flink := entry;
    assert forall i :: 2 <= i < |ring'| ==> ring'[i] == ring[i - 1];
    forall i | 0 <= i < |ring'| ensures Joined(ring', i) {
      if i >= 2 { assert old(Joined(ring, i - 1)); }
    }
  }

  /** Deletes the entry between `before` and `after`. Its own links are left as they were. */
  method RemoveEntryList(ghost listHead: ListEntry, entry: ListEntry, ghost before: seq<ListEntry>, ghost after: seq<ListEntry>)
    requires IsList(listHead, before + [entry] + after)
    modifies entry.Flink, entry.Blink
    ensures IsList(listHead, before + after)
    ensures entry.Flink == old(entry.Flink) && entry.Blink == old(entry.Blink)
  {
    ghost var k := |before|;
    ghost var ring := [listHead] + (before + [entry] + after);
    ghost var rest := [listHead] + (before + after);
    assert ring[k + 1] == entry && Joined(ring, k) && Joined(ring, k + 1);
    var flink := entry.Flink;
    var blink := entry.Blink;
    blink.Flink := flink;
    flink.Blink := blink;
    assert forall i :: 0 <= i <= k ==> rest[i] == ring[i];
    assert forall i :: k < i < |rest| ==> rest[i] == ring[i + 1];
    forall i | 0 <= i < |rest| ensures Joined(rest, i) {
      if i < k { assert old(Joined(ring, i)); }
      if i > k { assert old(Joined(ring, i + 1)); }
    }
  }

  /** Puts Entry2 before Entry1. Read from Entry2 on, the ring is Entry2, `between`, Entry1, `rest`. With
      something in between, Entry2 is taken from its place and stands directly before Entry1 afterwards.
      With nothing in between it stood there already: then it ends up linked to itself, the ring broken. */
  method SwapListEntries(entry1: ListEntry, entry2: ListEntry, ghost between: seq<ListEntry>, ghost rest: seq<ListEntry>)
    requires Ring([entry2] + between + [entry1] + rest)
    modifies entry1, entry2, entry1.Blink, entry2.Flink, entry2.Blink
    ensures between != [] ==> Ring(between + [entry2, entry1] + rest)
    ensures between == [] ==> entry2.Flink == entry2 && !Ring([entry2, entry1] + rest)
  {
    ghost var ring := [entry2] + between + [entry1] + rest;
    ghost var moved := between + [entry2, entry1] + rest;
    ghost var m, n := |between|, |ring|;
    assert ring[m + 1] == entry1 && Joined(ring, 0) && Joined(ring, n - 1) && Joined(ring, m);
    var entry2Flink := entry2.Flink;
    var entry2Blink := entry2.Blink;
    var entry1Blink := entry1.Blink;
    entry2Blink.Flink := entry2Flink;
    entry2Flink.Blink := entry2Blink;
    entry2.Flink := entry1;
    entry2.Blink := entry1Blink;
    entry1Blink.Flink := entry2;
    entry1.Blink := entry2;
    if m > 0 {
      assert forall i :: 0 <= i < m ==> moved[i] == ring[i + 1];
      assert forall i :: m < i < n ==> moved[i] == ring[i];
      forall i | 0 <= i < n ensures Joined(moved, i) {
        if i < m - 1 { assert old(Joined(ring, i + 1)); }
        if m < i < n - 1 { assert old(Joined(ring, i)); }
      }
    } else {
      assert !Joined([entry2, entry1] + rest, 0);
    }
  }
}
