/** LibInstallProtocolInterfaces and LibReinstallProtocolInterfaces of gnu-efi/lib/hand.c over an abstract
    protocol database (section 6.3 of UEFI 2.4): a handle exists as long as some protocol is installed
    on it. */
module Protocols {
  import opened Common

  type Handle = nat
  type Guid = nat
  type Interface = nat
  type Interfaces = map<Guid, Interface>
  type Database = d: map<Handle, Interfaces> | forall h :: h in d ==> d[h] != map[] witness map[]

  // ---------- the firmware services ----------

  /** The interfaces on a handle, none if it does not exist. */
  function On(d: Database, h: Handle): Interfaces {
    if h in d then d[h] else map[]
  }

  /** The database with the interfaces on one handle replaced; a handle left with none disappears. */
  function Put(d: Database, h: Handle, m: Interfaces): Database {
    if m == map[] then d - {h} else d[h := m]
  }

  /** One reinstallation. */
  datatype Change = Change(protocol: Guid, before: Interface, after: Interface)

  predicate CanReinstall(m: Interfaces, c: Change) {
    c.protocol in m && m[c.protocol] == c.before
  }

  function Changed(m: Interfaces, c: Change): Interfaces {
    m[c.protocol := c.after]
  }

  /** None of `n` calls from the given one on is denied. */
  predicate Granted(denied: nat -> bool, from: nat, n: nat) {
    forall call :: from <= call < from + n ==> !denied(call)
  }

  /** The services, which may run out of resources: `denied` decides for each call. */
  class BootServices {
    var db: Database
    const denied: nat -> bool
    var calls: nat

    constructor (db: Database, denied: nat -> bool)
      ensures this.db == db && this.denied == denied && calls == 0
    {
      this.db, this.denied, this.calls := db, denied, 0;
    }

    /** Installs on the given handle, or on a new one. A protocol can be on a handle only once. */
    method InstallProtocolInterface(handle: Option<Handle>, fresh_: Handle, protocol: Guid, interface: Interface)
      returns (ok: bool, handle': Option<Handle>)
      requires handle.None? ==> fresh_ !in db
      modifies this
      ensures calls == old(calls) + 1
      ensures var h := if handle.Some? then handle.value else fresh_;
              && ok == (protocol !in On(old(db), h) && !denied(old(calls)))
              && (ok ==> handle' == Some(h) && db == Put(old(db), h, On(old(db), h)[protocol := interface]))
              && (!ok ==> handle' == handle && db == old(db))
    {
      var h := if handle.Some? then handle.value else fresh_;
      ok := protocol !in On(db, h) && !denied(calls);
      calls := calls + 1;
      handle' := handle;
      if ok {
        db := Put(db, h, On(db, h)[protocol := interface]);
        handle' := Some(h);
      }
    }

    /** Removes a protocol that is on the handle with that interface; does nothing otherwise. */
    method UninstallProtocolInterface(h: Handle, protocol: Guid, interface: Interface)
      modifies this`db
      ensures db == Put(old(db), h, Uninstalled(On(old(db), h), protocol, interface))
    {
      db := Put(db, h, Uninstalled(On(db, h), protocol, interface));
    }

    /** Replaces an interface that is there. */
    method ReinstallProtocolInterface(h: Handle, c: Change) returns (ok: bool)
      modifies this
      ensures calls == old(calls) + 1
      ensures ok == (CanReinstall(On(old(db), h), c) && !denied(old(calls)))
      ensures db == if ok then Put(old(db), h, Changed(On(old(db), h), c)) else old(db)
    {
      ok := CanReinstall(On(db, h), c) && !denied(calls);
      calls := calls + 1;
      if ok {
        db := Put(db, h, Changed(On(db, h), c));
      }
    }
  }

  function Uninstalled(m: Interfaces, protocol: Guid, interface: Interface): Interfaces {
    if protocol in m && m[protocol] == interface then m - {protocol} else m
  }

  // ---------- installing several protocols ----------

  datatype Entry = Entry(protocol: Guid, interface: Interface)

  /** The interfaces with the entries added, which must all be new. */
  predicate AllNew(m: Interfaces, args: seq<Entry>) {
    && (forall i :: 0 <= i < |args| ==> args[i].protocol !in m)
    && (forall i, j :: 0 <= i < j < |args| ==> args[i].protocol != args[j].protocol)
  }

  function Added(m: Interfaces, args: seq<Entry>): Interfaces {
    if args == [] then m else Added(m, args[..|args| - 1])[args[|args| - 1].protocol := args[|args| - 1].interface]
  }

  /** Uninstalling in the order of the arguments. */
  function Removed(m: Interfaces, args: seq<Entry>): Interfaces {
    if args == [] then m else Removed(Uninstalled(m, args[0].protocol, args[0].interface), args[1..])
  }

  predicate Mentions(args: seq<Entry>, p: Guid) {
    exists i :: 0 <= i < |args| && args[i].protocol == p
  }

  lemma {:induction false} AddedHas(m: Interfaces, args: seq<Entry>, p: Guid)
    ensures p in Added(m, args) <==> p in m || Mentions(args, p)
  {
    if args != [] {
      var n := |args| - 1;
      AddedHas(m, args[..n], p);
      if Mentions(args, p) && args[n].protocol != p {
        var i :| 0 <= i < |args| && args[i].protocol == p;
        assert args[..n][i] == args[i];
      }
      if Mentions(args[..n], p) {
        var i :| 0 <= i < n && args[..n][i].protocol == p;
        assert args[i].protocol == p;
      }
    }
  }

  lemma {:induction false} AddedCons(m: Interfaces, args: seq<Entry>)
    requires args != []
    ensures Added(m, args) == Added(m[args[0].protocol := args[0].interface], args[1..])
    decreases |args|
  {
    var n := |args| - 1;
    if n == 0 {
      assert args[..0] == [] && args[1..] == [];
    } else {
      assert args[..n][1..] == args[1..][..n - 1];
      AddedCons(m, args[..n]);
    }
  }

  /** A protocol installed before others can be taken out after them. */
  lemma {:induction false} AddedMinus(m: Interfaces, args: seq<Entry>, p: Guid, v: Interface)
    requires p !in m && !Mentions(args, p)
    ensures p in Added(m[p := v], args) && Added(m[p := v], args)[p] == v
    ensures Added(m[p := v], args) - {p} == Added(m, args)
    decreases |args|
  {
    if args != [] {
      var n := |args| - 1;
      assert forall i :: 0 <= i < n ==> args[..n][i] == args[i];
      AddedMinus(m, args[..n], p, v);
    }
  }

  /** The order of removal does not matter: in the order of installation it undoes the installation. */
  lemma {:induction false} AddThenRemove(m: Interfaces, args: seq<Entry>)
    requires AllNew(m, args)
    ensures Removed(Added(m, args), args) == m
    decreases |args|
  {
    if args != [] {
      var e, rest := args[0], args[1..];
      assert forall i :: 0 <= i < |rest| ==> rest[i] == args[i + 1];
      AddedCons(m, args);
      AddedMinus(m, rest, e.protocol, e.interface);
      AddThenRemove(m, rest);
    }
  }

  lemma AddedNext(m: Interfaces, args: seq<Entry>, n: nat)
    requires n < |args| && AllNew(m, args[..n])
    ensures AllNew(m, args[..n + 1]) <==> args[n].protocol !in Added(m, args[..n])
    ensures Added(m, args[..n + 1]) == Added(m, args[..n])[args[n].protocol := args[n].interface]
  {
    assert args[..n + 1] == args[..n] + [args[n]];
    OneMore(m, args[..n], args[n]);
  }

  /** Installs every entry, or none: on a failure at any position the entries installed so far are
      uninstalled again, first to last, and the handle variable gets its old value. */
  method LibInstallProtocolInterfaces(bs: BootServices, handle: Option<Handle>, fresh_: Handle, args: seq<Entry>)
    returns (ok: bool, handle': Option<Handle>)
    requires handle.None? ==> fresh_ !in bs.db
    modifies bs
    ensures var h := if handle.Some? then handle.value else fresh_;
            && (ok <==> AllNew(On(old(bs.db), h), args) && Granted(bs.denied, old(bs.calls), |args|))
            && (ok ==> bs.db == Put(old(bs.db), h, Added(On(old(bs.db), h), args)))
            && (ok && args != [] ==> handle' == Some(h))
    ensures !ok || args == [] ==> bs.db == old(bs.db) && handle' == handle
  {
    hide AllNew, Added, Removed, Put, On;
    ghost var db0 := bs.db;
    ghost var h := if handle.Some? then handle.value else fresh_;
    ghost var m := On(db0, h);
    PutSame(db0, h);
    NothingNew(m);
    var index;
    ok, handle', index := InstallWhilePossible(bs, handle, fresh_, args);
    if !ok {
      AddThenRemove(m, args[..index]);
      if index > 0 {
        UninstallFirst(bs, handle'.value, args, index, db0, Added(m, args[..index]));
      } else {
        assert args[..0] == [];
      }
      handle' := handle;
    }
  }

  lemma GrantedNext(denied: nat -> bool, from: nat, n: nat)
    ensures Granted(denied, from, 0)
    ensures Granted(denied, from, n + 1) <==> Granted(denied, from, n) && !denied(from + n)
  {
  }

  lemma NotGranted(denied: nat -> bool, from: nat, i: nat, n: nat)
    requires i < n
    ensures denied(from + i) ==> !Granted(denied, from, n)
  {
  }

  /** The install loop: stops at the first entry that is refused, with those before it installed. */
  method InstallWhilePossible(bs: BootServices, handle: Option<Handle>, fresh_: Handle, args: seq<Entry>)
    returns (ok: bool, handle': Option<Handle>, index: nat)
    requires handle.None? ==> fresh_ !in bs.db
    modifies bs
    ensures var h := if handle.Some? then handle.value else fresh_;
            var m := On(old(bs.db), h);
            && index <= |args| && (ok ==> index == |args|)
            && (ok <==> AllNew(m, args) && Granted(bs.denied, old(bs.calls), |args|))
            && AllNew(m, args[..index]) && bs.db == Put(old(bs.db), h, Added(m, args[..index]))
            && (ok ==> bs.db == Put(old(bs.db), h, Added(m, args)))
            && handle' == if index == 0 then handle else Some(h)
  {
    hide AllNew, Added, Put, On, Granted;
    ghost var db0, calls0 := bs.db, bs.calls;
    ghost var h := if handle.Some? then handle.value else fresh_;
    ghost var m := On(db0, h);
    PutSame(db0, h);
    NothingNew(m);
    GrantedNext(bs.denied, calls0, 0);
    handle' := handle;
    ok := true;
    index := 0;
    while ok && index < |args|
      invariant index <= |args| && AllNew(m, args[..index]) && Granted(bs.denied, calls0, index)
      invariant bs.db == Put(db0, h, Added(m, args[..index]))
      invariant handle' == if index == 0 then handle else Some(h)
      invariant ok ==> bs.calls == calls0 + index
      invariant !ok ==> index < |args| && (args[index].protocol in Added(m, args[..index]) || bs.denied(calls0 + index))
      decreases |args| - index, ok
    {
      AddedNext(m, args, index);
      GrantedNext(bs.denied, calls0, index);
      PutTwice(db0, h, Added(m, args[..index]));
      ok, handle' := bs.InstallProtocolInterface(handle', fresh_, args[index].protocol, args[index].interface);
      if ok {
        index := index + 1;
      }
    }
    if ok {
      assert args[..|args|] == args;
    } else {
      NotAllNew(m, args, index);
      NotGranted(bs.denied, calls0, index, |args|);
    }
  }

  /** The undo loop: uninstalls the first `n` entries, first to last. */
  method UninstallFirst(bs: BootServices, h: Handle, args: seq<Entry>, n: nat, ghost db0: Database, ghost m: Interfaces)
    requires n <= |args| && bs.db == Put(db0, h, m)
    modifies bs`db
    ensures bs.db == Put(db0, h, Removed(m, args[..n]))
  {
    hide Put, On;
    var i, index := 0, n;
    ghost var rest := m;
    while index > 0
      invariant i + index == n
      invariant bs.db == Put(db0, h, rest) && Removed(rest, args[i..n]) == Removed(m, args[..n])
      decreases index
    {
      PutTwice(db0, h, rest);
      assert args[i..n][1..] == args[i + 1..n];
      bs.UninstallProtocolInterface(h, args[i].protocol, args[i].interface);
      rest := Uninstalled(rest, args[i].protocol, args[i].interface);
      i := i + 1;
      index := index - 1;
    }
  }

  lemma PutSame(d: Database, h: Handle)
    ensures Put(d, h, On(d, h)) == d
  {
  }

  lemma PutTwice(d: Database, h: Handle, m: Interfaces)
    ensures On(Put(d, h, m), h) == m
    ensures forall m' :: Put(Put(d, h, m), h, m') == Put(d, h, m')
  {
  }

  lemma NothingNew(m: Interfaces)
    ensures AllNew(m, []) && Added(m, []) == m
  {
  }

  lemma OneMore(m: Interfaces, args: seq<Entry>, e: Entry)
    requires AllNew(m, args)
    ensures AllNew(m, args + [e]) <==> e.protocol !in Added(m, args)
    ensures Added(m, args + [e]) == Added(m, args)[e.protocol := e.interface]
  {
    var all := args + [e];
    assert all[..|all| - 1] == args && all[|args|] == e;
    AddedHas(m, args, e.protocol);
    assert forall i :: 0 <= i < |args| ==> all[i] == args[i];
  }

  lemma NotAllNew(m: Interfaces, args: seq<Entry>, n: nat)
    requires n < |args| && AllNew(m, args[..n])
    ensures args[n].protocol in Added(m, args[..n]) ==> !AllNew(m, args)
  {
    OneMore(m, args[..n], args[n]);
    assert args[..n + 1] == args[..n] + [args[n]];
    if AllNew(m, args) {
      assert forall i :: 0 <= i <= n ==> args[..n + 1][i] == args[i];
      assert AllNew(m, args[..n + 1]);
    }
  }

  // ---------- reinstalling several protocols ----------

  /** Every change finds what it expects when its turn comes. */
  predicate AllApply(m: Interfaces, args: seq<Change>)
    decreases |args|
  {
    args == [] || (CanReinstall(m, args[0]) && AllApply(Changed(m, args[0]), args[1..]))
  }

  function Applied(m: Interfaces, args: seq<Change>): Interfaces
    decreases |args|
  {
    if args == [] then m else Applied(Changed(m, args[0]), args[1..])
  }

  /** Taking one change back, if its outcome is still there. */
  function Revert(m: Interfaces, c: Change): Interfaces {
    if CanReinstall(m, Change(c.protocol, c.after, c.before)) then m[c.protocol := c.before] else m
  }

  /** Taking changes back in the order in which they were made. */
  function Reverted(m: Interfaces, args: seq<Change>): Interfaces
    decreases |args|
  {
    if args == [] then m else Reverted(Revert(m, args[0]), args[1..])
  }

  /** Changes that change something. */
  predicate Real(c: Change) {
    c.before != c.after
  }

  /** No protocol is really changed twice. In particular this holds of distinct protocols. */
  predicate Calm(args: seq<Change>) {
    forall i, j :: 0 <= i < j < |args| && args[i].protocol == args[j].protocol ==> !Real(args[i]) || !Real(args[j])
  }

  /** No real change of `p`. */
  predicate Still(args: seq<Change>, p: Guid) {
    forall i :: 0 <= i < |args| && args[i].protocol == p ==> !Real(args[i])
  }

  lemma {:induction false} StillReverts(m: Interfaces, args: seq<Change>, p: Guid, v: Interface)
    requires Still(args, p) && p in m
    ensures p in Reverted(m, args) && Reverted(m, args)[p] == m[p]
    ensures Reverted(m[p := v], args) == Reverted(m, args)[p := v]
    decreases |args|
  {
    if args != [] {
      var c := args[0];
      assert Revert(m[p := v], c) == Revert(m, c)[p := v];
      assert Still(args[1..], p);
      StillReverts(Revert(m, c), args[1..], p, v);
    }
  }

  lemma {:induction false} StillApplies(m: Interfaces, args: seq<Change>, p: Guid)
    requires AllApply(m, args) && Still(args, p) && p in m
    ensures p in Applied(m, args) && Applied(m, args)[p] == m[p]
    decreases |args|
  {
    if args != [] {
      assert Still(args[1..], p);
      StillApplies(Changed(m, args[0]), args[1..], p);
    }
  }

  /** Calm changes are undone even though the undo goes first to last. */
  lemma {:induction false} CalmReverts(m: Interfaces, args: seq<Change>)
    requires AllApply(m, args) && Calm(args)
    ensures Reverted(Applied(m, args), args) == m
    decreases |args|
  {
    if args != [] {
      var c, rest := args[0], args[1..];
      var m1 := Changed(m, c);
      var mk := Applied(m1, rest);
      assert Calm(rest);
      CalmReverts(m1, rest);
      if Real(c) {
        assert Still(rest, c.protocol);
        StillApplies(m1, rest, c.protocol);
        StillReverts(mk, rest, c.protocol, c.before);
      } else {
        assert m1 == m && Revert(mk, c) == mk;
      }
    }
  }

  // ---------- the undo order matters ----------

  lemma {:induction false} RevertedSnoc(m: Interfaces, args: seq<Change>, c: Change)
    ensures Reverted(m, args + [c]) == Revert(Reverted(m, args), c)
    decreases |args|
  {
    if args == [] {
      assert [c][1..] == [] && args + [c] == [c];
    } else {
      assert (args + [c])[1..] == args[1..] + [c];
      RevertedSnoc(Revert(m, args[0]), args[1..], c);
    }
  }

  lemma {:induction false} AppliedSnoc(m: Interfaces, args: seq<Change>, c: Change)
    ensures AllApply(m, args + [c]) <==> AllApply(m, args) && CanReinstall(Applied(m, args), c)
    ensures Applied(m, args + [c]) == Changed(Applied(m, args), c)
    decreases |args|
  {
    if args == [] {
      assert [c][1..] == [] && args + [c] == [c];
    } else {
      assert (args + [c])[1..] == args[1..] + [c];
      AppliedSnoc(Changed(m, args[0]), args[1..], c);
    }
  }

  /** What becomes of one protocol does not depend on the others. */
  lemma {:induction false} RevertsAlone(m: Interfaces, m': Interfaces, args: seq<Change>, p: Guid)
    requires p in m && p in m' && m[p] == m'[p]
    ensures p in Reverted(m, args) && p in Reverted(m', args) && Reverted(m, args)[p] == Reverted(m', args)[p]
    decreases |args|
  {
    if args != [] {
      RevertsAlone(Revert(m, args[0]), Revert(m', args[0]), args[1..], p);
    }
  }

  /** The second real change of a protocol is the last of the changes made: then undoing first to last
      leaves the outcome of the first one. */
  lemma {:induction false} SecondChangeStays(m: Interfaces, args: seq<Change>, i: nat)
    requires AllApply(m, args) && i < |args| - 1 && Calm(args[..|args| - 1])
    requires Real(args[i]) && Real(args[|args| - 1]) && args[i].protocol == args[|args| - 1].protocol
    ensures var p := args[i].protocol;
            p in m && p in Reverted(Applied(m, args), args) && Reverted(Applied(m, args), args)[p] != m[p]
    decreases |args|
  {
    var c, rest := args[0], args[1..];
    var p, m1 := args[i].protocol, Changed(m, c);
    var mk := Applied(m1, rest);
    assert args[..|args| - 1][0] == c && args[..|args| - 1][i] == args[i];
    if i > 0 {
      assert rest[..|rest| - 1] == args[..|args| - 1][1..];
      SecondChangeStays(m1, rest, i - 1);
      LastApplied(m1, rest);
      RevertsAlone(mk, Revert(mk, c), rest, p);
    } else {
      var middle, last := rest[..|rest| - 1], rest[|rest| - 1];
      assert rest == middle + [last];
      forall j | 0 <= j < |middle| && middle[j].protocol == p ensures !Real(middle[j]) {
        assert args[..|args| - 1][j + 1] == middle[j];
      }
      AppliedSnoc(m1, middle, last);
      StillApplies(m1, middle, p);
      StillReverts(mk, middle, p, 0);
      RevertedSnoc(mk, middle, last);
    }
  }

  lemma LastApplied(m: Interfaces, args: seq<Change>)
    requires args != [] && AllApply(m, args)
    ensures args[|args| - 1].protocol in Applied(m, args)
  {
  }

  /** A failure after the first `k` changes is undone. */
  predicate Restores(m: Interfaces, args: seq<Change>, k: nat)
    requires k <= |args|
  {
    AllApply(m, args[..k]) ==> Reverted(Applied(m, args[..k]), args[..k]) == m
  }

  predicate CalmUpTo(m: Interfaces, args: seq<Change>, k: nat)
    requires k <= |args|
  {
    AllApply(m, args[..k]) ==> Calm(args[..k])
  }

  lemma {:induction false} AppliesPrefix(m: Interfaces, args: seq<Change>, k: nat)
    requires k <= |args| && AllApply(m, args)
    ensures AllApply(m, args[..k])
    decreases |args| - k
  {
    if k == |args| {
      assert args[..k] == args;
    } else {
      AppliesPrefix(m, args, k + 1);
      assert args[..k + 1] == args[..k] + [args[k]];
      AppliedSnoc(m, args[..k], args[k]);
    }
  }

  /** If the changes before position k are not calm, then a failure at some position up to k is not undone. */
  lemma {:induction false} NotCalmNotRestored(m: Interfaces, args: seq<Change>, k: nat) returns (j: nat)
    requires k <= |args| && !CalmUpTo(m, args, k)
    ensures j <= k && !Restores(m, args, j)
    decreases k
  {
    var a := args[..k];
    assert k > 0;
    var shorter := args[..k - 1];
    assert a[..k - 1] == shorter;
    AppliesPrefix(m, a, k - 1);
    if !Calm(shorter) {
      j := NotCalmNotRestored(m, args, k - 1);
    } else {
      j := k;
      var x, y :| 0 <= x < y < |a| && a[x].protocol == a[y].protocol && Real(a[x]) && Real(a[y]);
      assert y == k - 1;
      SecondChangeStays(m, a, x);
    }
  }

  /** Exactly when a failure at any position is undone: no protocol is really changed twice among the
      changes that can have been made before a failure. */
  lemma RestoresIff(m: Interfaces, args: seq<Change>)
    ensures (forall k :: 0 <= k < |args| ==> Restores(m, args, k))
            <==> (forall k :: 0 <= k < |args| ==> CalmUpTo(m, args, k))
  {
    forall k | 0 <= k < |args| && CalmUpTo(m, args, k) ensures Restores(m, args, k) {
      if AllApply(m, args[..k]) { CalmReverts(m, args[..k]); }
    }
    if k :| 0 <= k < |args| && !CalmUpTo(m, args, k) {
      var j := NotCalmNotRestored(m, args, k);
      assert !Restores(m, args, j);
    }
  }

  /** Distinct protocols are calm. */
  lemma DistinctIsCalm(args: seq<Change>)
    requires forall i, j :: 0 <= i < j < |args| ==> args[i].protocol != args[j].protocol
    ensures Calm(args)
  {
  }

  lemma AppliedNext(m: Interfaces, args: seq<Change>, n: nat)
    requires n < |args|
    ensures AllApply(m, args[..n + 1]) <==> AllApply(m, args[..n]) && CanReinstall(Applied(m, args[..n]), args[n])
    ensures Applied(m, args[..n + 1]) == Changed(Applied(m, args[..n]), args[n])
  {
    assert args[..n + 1] == args[..n] + [args[n]];
    AppliedSnoc(m, args[..n], args[n]);
  }

  /** The reinstall loop: `made` changes are made; it stops at the first that is refused. */
  method ReinstallWhilePossible(bs: BootServices, h: Handle, args: seq<Change>) returns (ok: bool, made: nat)
    modifies bs
    ensures made <= |args| && (ok <==> made == |args|)
    ensures var m := On(old(bs.db), h);
            && AllApply(m, args[..made]) && Granted(bs.denied, old(bs.calls), made)
            && bs.db == Put(old(bs.db), h, Applied(m, args[..made]))
            && (!ok ==> !CanReinstall(Applied(m, args[..made]), args[made]) || bs.denied(old(bs.calls) + made))
    ensures bs.calls == old(bs.calls) + made + (if ok then 0 else 1)
  {
    hide Put, On, AllApply, Applied, Reverted, Changed, CanReinstall;
    ghost var db0, calls0, m := bs.db, bs.calls, On(bs.db, h);
    PutSame(db0, h);
    NothingApplied(m);
    ok := true;
    made := 0;
    while ok && made < |args|
      invariant made <= |args| && AllApply(m, args[..made]) && Granted(bs.denied, calls0, made)
      invariant bs.db == Put(db0, h, Applied(m, args[..made]))
      invariant bs.calls == calls0 + made + (if ok then 0 else 1)
      invariant !ok ==> made < |args| && (!CanReinstall(Applied(m, args[..made]), args[made]) || bs.denied(calls0 + made))
      decreases |args| - made, ok
    {
      AppliedNext(m, args, made);
      PutTwice(db0, h, Applied(m, args[..made]));
      ok := bs.ReinstallProtocolInterface(h, args[made]);
      if ok {
        made := made + 1;
      }
    }
  }

  /** Reinstalls every interface; on a failure at position `made` the first `made` changes are taken back,
      first to last. Unless the firmware refuses that too, the database is as before whenever `Restores`
      holds there. */
  method LibReinstallProtocolInterfaces(bs: BootServices, h: Handle, args: seq<Change>) returns (ok: bool, made: nat)
    modifies bs
    ensures made <= |args| && (ok <==> made == |args|)
    ensures var m := On(old(bs.db), h);
            && AllApply(m, args[..made]) && Granted(bs.denied, old(bs.calls), made)
            && (!ok ==> !CanReinstall(Applied(m, args[..made]), args[made]) || bs.denied(old(bs.calls) + made))
            && (ok ==> bs.db == Put(old(bs.db), h, Applied(m, args)))
    ensures !ok && Granted(bs.denied, old(bs.calls) + made + 1, made) ==>
              var m := On(old(bs.db), h);
              && bs.db == Put(old(bs.db), h, Reverted(Applied(m, args[..made]), args[..made]))
              && (Restores(m, args, made) ==> bs.db == old(bs.db))
  {
    hide Put, On, AllApply, Applied, Reverted;
    ghost var db0, m := bs.db, On(bs.db, h);
    PutSame(db0, h);
    ok, made := ReinstallWhilePossible(bs, h, args);
    if ok {
      assert args[..made] == args;
    } else {
      RevertFirst(bs, h, args, made, db0, Applied(m, args[..made]));
    }
  }

  lemma NothingApplied(m: Interfaces)
    ensures AllApply(m, []) && Applied(m, []) == m
  {
  }

  /** The undo loop: reinstalls the old interfaces, first to last. A denied call is ignored; the result
      is stated for the case that none is. */
  method RevertFirst(bs: BootServices, h: Handle, args: seq<Change>, n: nat, ghost db0: Database, ghost m: Interfaces)
    requires n <= |args| && bs.db == Put(db0, h, m)
    modifies bs
    ensures Granted(bs.denied, old(bs.calls), n) ==> bs.db == Put(db0, h, Reverted(m, args[..n]))
  {
    hide Put, On;
    var i, index := 0, n;
    ghost var rest, granted := m, Granted(bs.denied, bs.calls, n);
    while index > 0
      invariant i + index == n && bs.calls == old(bs.calls) + i
      invariant granted ==> bs.db == Put(db0, h, rest) && Reverted(rest, args[i..n]) == Reverted(m, args[..n])
      decreases index
    {
      PutTwice(db0, h, rest);
      assert args[i..n][1..] == args[i + 1..n];
      var done := bs.ReinstallProtocolInterface(h, Change(args[i].protocol, args[i].after, args[i].before));
      rest := Revert(rest, args[i]);
      i := i + 1;
      index := index - 1;
    }
  }

  /** A protocol changed twice is not restored: changing an interface from 1 to 2 and from 2 to 3 and
      failing at the third argument leaves 2. */
  lemma TwiceChangedNotRestored(other: Change)
    ensures var args := [Change(7, 1, 2), Change(7, 2, 3), other];
            && AllApply(map[7 := 1], args[..2])
            && Reverted(Applied(map[7 := 1], args[..2]), args[..2]) == map[7 := 2]
  {
    var m: Interfaces := map[7 := 1];
    var x, y := Change(7, 1, 2), Change(7, 2, 3);
    assert [x, y, other][..2] == [x, y] && [x, y][1..] == [y] && [y][1..] == [];
    assert AllApply(Changed(m, x), [y]);
    assert Applied(Changed(m, x), [y]) == map[7 := 3];
    var m3: Interfaces := map[7 := 3];
    assert Revert(m3, x) == m3;
    assert Reverted(m3, [y]) == map[7 := 2];
  }
}
