/** The resumable PCI enumerator of src/PCI/PCI.cpp: four nested loops whose counters survive between
    calls. The configuration space does not change while it is enumerated. */
module Pci {

  const WORD: nat := 0x1_0000_0000_0000_0000
  const NO_DEVICE: nat := 0xFFFF

  newtype uint8 = x: int | 0 <= x < 256

  /** One MCFG entry. */
  datatype DeviceConfig = DeviceConfig(Base: nat, StartBus: uint8, EndBus: uint8)

  /** The MCFG entries and the DeviceID found at each address. */
  datatype Machine = Machine(configs: seq<DeviceConfig>, deviceID: nat -> nat)

  datatype Location = Location(entry: nat, bus: nat, device: nat, func: nat)

  /** Section 7.2.2 of the PCI Express Base Specification: 1 MiB a bus, 32 KiB a device, 4 KiB a function. */
  function Address(m: Machine, l: Location): nat {
    (Base(m, l.entry) + l.bus * 0x10_0000 + l.device * 0x8000 + l.func * 0x1000) % WORD
  }

  predicate Responds(m: Machine, l: Location) {
    m.deviceID(Address(m, l)) != 0 && m.deviceID(Address(m, l)) != NO_DEVICE
  }

  function Base(m: Machine, e: nat): nat {
    if e < |m.configs| then m.configs[e].Base else 0
  }

  function Start(m: Machine, e: nat): nat
    requires e < |m.configs|
  {
    m.configs[e].StartBus as nat
  }

  function End(m: Machine, e: nat): nat
    requires e < |m.configs|
  {
    m.configs[e].EndBus as nat
  }

  // ---------- what there is to enumerate ----------

  /** A function is found if it lies below the last bus of its entry and responds itself, and function 0
      of its device and device 0 of its bus respond. */
  predicate Findable(m: Machine, l: Location) {
    && l.entry < |m.configs| && Start(m, l.entry) <= l.bus < End(m, l.entry) && l.device < 32 && l.func < 8
    && Responds(m, Location(l.entry, l.bus, 0, 0))
    && Responds(m, Location(l.entry, l.bus, l.device, 0))
    && Responds(m, l)
  }

  predicate Before(k: Location, l: Location) {
    k.entry < l.entry || (k.entry == l.entry && (k.bus < l.bus || (k.bus == l.bus &&
    (k.device < l.device || (k.device == l.device && k.func < l.func)))))
  }

  /** The plain four-fold nested loop, innermost first, each from a given position on. */
  function Functions(m: Machine, e: nat, b: nat, d: nat, f: nat): seq<Location>
    requires e < |m.configs|
    decreases 8 - f
  {
    if f >= 8 then []
    else (if Responds(m, Location(e, b, d, f)) then [Location(e, b, d, f)] else []) + Functions(m, e, b, d, f + 1)
  }

  function Devices(m: Machine, e: nat, b: nat, d: nat): seq<Location>
    requires e < |m.configs|
    decreases 32 - d
  {
    if d >= 32 then []
    else (if Responds(m, Location(e, b, d, 0)) then Functions(m, e, b, d, 0) else []) + Devices(m, e, b, d + 1)
  }

  function Buses(m: Machine, e: nat, b: nat): seq<Location>
    requires e < |m.configs|
    decreases End(m, e) - b
  {
    if b >= End(m, e) then []
    else (if Responds(m, Location(e, b, 0, 0)) then Devices(m, e, b, 0) else []) + Buses(m, e, b + 1)
  }

  function Entries(m: Machine, e: nat): seq<Location>
    decreases |m.configs| - e
  {
    if e >= |m.configs| then [] else Buses(m, e, Start(m, e)) + Entries(m, e + 1)
  }

  // ---------- it is exactly the findable functions, in order ----------

  ghost predicate Sorted(s: seq<Location>) {
    forall i, j :: 0 <= i < j < |s| ==> Before(s[i], s[j])
  }

  lemma SortedConcat(s: seq<Location>, t: seq<Location>)
    requires Sorted(s) && Sorted(t)
    requires forall k, l :: k in s && l in t ==> Before(k, l)
    ensures Sorted(s + t)
  {
  }

  lemma {:induction false} FunctionsExact(m: Machine, e: nat, b: nat, d: nat, f: nat)
    requires e < |m.configs| && Start(m, e) <= b < End(m, e) && d < 32
    requires Responds(m, Location(e, b, 0, 0)) && Responds(m, Location(e, b, d, 0))
    ensures Sorted(Functions(m, e, b, d, f))
    ensures forall l :: l in Functions(m, e, b, d, f)
                        <==> Findable(m, l) && l.entry == e && l.bus == b && l.device == d && f <= l.func
    decreases 8 - f
  {
    if f < 8 {
      FunctionsExact(m, e, b, d, f + 1);
      var l := Location(e, b, d, f);
      assert Findable(m, l) <==> Responds(m, l);
      FunctionsNext(m, e, b, d, f);
      hide Functions, Findable;
      SortedConcat(Here(m, l), Functions(m, e, b, d, f + 1));
      MembersConcat(Here(m, l), Functions(m, e, b, d, f + 1));
      hide Responds;
      FindableFrom(m, e, b, d, f);
    }
  }

  function Here(m: Machine, l: Location): (s: seq<Location>)
    requires l.entry < |m.configs|
    ensures Sorted(s) && forall k :: k in s <==> k == l && Responds(m, l)
  {
    if Responds(m, l) then [l] else []
  }

  lemma FunctionsNext(m: Machine, e: nat, b: nat, d: nat, f: nat)
    requires e < |m.configs| && f < 8
    ensures Functions(m, e, b, d, f) == Here(m, Location(e, b, d, f)) + Functions(m, e, b, d, f + 1)
  {
  }

  lemma MembersConcat(s: seq<Location>, t: seq<Location>)
    ensures forall l :: l in s + t <==> l in s || l in t
  {
  }

  /** The functions from `f` on are `f` and those from `f + 1` on. */
  lemma FindableFrom(m: Machine, e: nat, b: nat, d: nat, f: nat)
    ensures forall l :: Findable(m, l) && l.entry == e && l.bus == b && l.device == d && f <= l.func <==>
              || (l == Location(e, b, d, f) && Findable(m, l))
              || (Findable(m, l) && l.entry == e && l.bus == b && l.device == d && f + 1 <= l.func)
  {
  }

  lemma {:induction false} DevicesExact(m: Machine, e: nat, b: nat, d: nat)
    requires e < |m.configs| && Start(m, e) <= b < End(m, e)
    requires Responds(m, Location(e, b, 0, 0))
    ensures Sorted(Devices(m, e, b, d))
    ensures forall l :: l in Devices(m, e, b, d) <==> Findable(m, l) && l.entry == e && l.bus == b && d <= l.device
    decreases 32 - d
  {
    hide Responds, Functions;
    if d < 32 {
      DevicesExact(m, e, b, d + 1);
      if Responds(m, Location(e, b, d, 0)) {
        FunctionsExact(m, e, b, d, 0);
        SortedConcat(Functions(m, e, b, d, 0), Devices(m, e, b, d + 1));
      }
    }
  }

  lemma {:induction false} BusesExact(m: Machine, e: nat, b: nat)
    requires e < |m.configs| && Start(m, e) <= b
    ensures Sorted(Buses(m, e, b))
    ensures forall l :: l in Buses(m, e, b) <==> Findable(m, l) && l.entry == e && b <= l.bus
    decreases End(m, e) - b
  {
    hide Responds, Devices;
    if b < End(m, e) {
      BusesExact(m, e, b + 1);
      if Responds(m, Location(e, b, 0, 0)) {
        DevicesExact(m, e, b, 0);
        SortedConcat(Devices(m, e, b, 0), Buses(m, e, b + 1));
      }
    }
  }

  /** The nested loops list exactly the findable functions, each once, in lexicographic order. */
  lemma {:induction false} EntriesExact(m: Machine, e: nat)
    ensures Sorted(Entries(m, e))
    ensures forall l :: l in Entries(m, e) <==> Findable(m, l) && e <= l.entry
    decreases |m.configs| - e
  {
    hide Responds, Buses;
    if e < |m.configs| {
      BusesExact(m, e, Start(m, e));
      EntriesExact(m, e + 1);
      SortedConcat(Buses(m, e, Start(m, e)), Entries(m, e + 1));
    }
  }

  // ---------- addresses ----------

  /** Bus, device and function can be read back from the offset of a place in the window of its entry. */
  lemma OffsetBus(b: nat, d: nat, f: nat)
    requires d < 32 && f < 8
    ensures (b * 0x10_0000 + d * 0x8000 + f * 0x1000) / 0x10_0000 == b
  {
  }

  lemma OffsetDevice(b: nat, d: nat, f: nat)
    requires d < 32 && f < 8
    ensures (b * 0x10_0000 + d * 0x8000 + f * 0x1000) / 0x8000 % 32 == d
  {
    assert (b * 0x10_0000 + d * 0x8000 + f * 0x1000) / 0x8000 == b * 32 + d;
  }

  lemma OffsetFunc(b: nat, d: nat, f: nat)
    requires d < 32 && f < 8
    ensures (b * 0x10_0000 + d * 0x8000 + f * 0x1000) / 0x1000 % 8 == f
    ensures (b * 0x10_0000 + d * 0x8000 + f * 0x1000) % 0x1000 == 0
  {
    var devices: nat := b * 32 + d;
    WholePages(b * 0x10_0000 + d * 0x8000 + f * 0x1000, devices * 8 + f);
    WholeDevices(devices, f);
  }

  lemma WholeDevices(devices: nat, f: nat)
    requires f < 8
    ensures (devices * 8 + f) % 8 == f
  {
  }

  lemma WholePages(off: nat, pages: nat)
    requires off == pages * 0x1000
    ensures off / 0x1000 == pages && off % 0x1000 == 0
  {
  }

  /** An address lies in the window of its entry, in the MiB of its bus, and is that of a 4 KiB page. */
  lemma AddressFields(m: Machine, l: Location)
    requires l.entry < |m.configs| && l.device < 32 && l.func < 8
    requires m.configs[l.entry].Base + (l.bus + 1) * 0x10_0000 <= 0x1_0000_0000_0000_0000
    ensures var off := Address(m, l) - m.configs[l.entry].Base;
            && l.bus * 0x10_0000 <= off < (l.bus + 1) * 0x10_0000
            && off / 0x10_0000 == l.bus && off / 0x8000 % 32 == l.device && off / 0x1000 % 8 == l.func && off % 0x1000 == 0
  {
    var off := l.bus * 0x10_0000 + l.device * 0x8000 + l.func * 0x1000;
    assert l.bus * 0x10_0000 <= off < (l.bus + 1) * 0x10_0000;
    assert Address(m, l) == m.configs[l.entry].Base + off by { NoWrap(m.configs[l.entry].Base + off); }
    OffsetBus(l.bus, l.device, l.func);
    OffsetDevice(l.bus, l.device, l.func);
    OffsetFunc(l.bus, l.device, l.func);
  }

  lemma NoWrap(a: nat)
    requires a < WORD
    ensures a % WORD == a
  {
  }

  /** The device at a place in the window of an entry answers with an ID. */
  predicate Answers(m: Machine, config: DeviceConfig, b: nat, d: nat, f: nat) {
    var id := m.deviceID((config.Base + 0x1000 * (f + 8 * (d + 32 * b))) % 0x1_0000_0000_0000_0000);
    id != 0 && id != 0xFFFF
  }

  lemma AnswersResponds(m: Machine, l: Location)
    requires l.entry < |m.configs|
    ensures Answers(m, m.configs[l.entry], l.bus, l.device, l.func) == Responds(m, l)
  {
    assert 0x1000 * (l.func + 8 * (l.device + 32 * l.bus)) == l.bus * 0x10_0000 + l.device * 0x8000 + l.func * 0x1000;
  }

  /** What is listed, read off the configuration space. */
  lemma ListedIff(m: Machine, l: Location)
    ensures l in Entries(m, 0) <==>
            && l.entry < |m.configs| && l.device < 32 && l.func < 8
            && var c := m.configs[l.entry];
               && c.StartBus as nat <= l.bus < c.EndBus as nat
               && Answers(m, c, l.bus, 0, 0) && Answers(m, c, l.bus, l.device, 0) && Answers(m, c, l.bus, l.device, l.func)
  {
    EntriesExact(m, 0);
    if l.entry < |m.configs| {
      hide Responds, Answers, Entries;
      AnswersResponds(m, Location(l.entry, l.bus, 0, 0));
      AnswersResponds(m, Location(l.entry, l.bus, l.device, 0));
      AnswersResponds(m, l);
    }
  }

  /** Where the window of an entry begins and ends. */
  function Bottom(c: DeviceConfig): nat {
    c.Base + c.StartBus as nat * 0x10_0000
  }

  function Top(c: DeviceConfig): nat {
    c.Base + c.EndBus as nat * 0x10_0000
  }

  /** The windows of the entries lie in the address space and apart from one another. */
  predicate WindowsApart(m: Machine) {
    && (forall e :: 0 <= e < |m.configs| ==> Top(m.configs[e]) <= 0x1_0000_0000_0000_0000)
    && forall e, e' :: 0 <= e < |m.configs| && 0 <= e' < |m.configs| && e != e' ==>
         Top(m.configs[e]) <= Bottom(m.configs[e']) || Top(m.configs[e']) <= Bottom(m.configs[e])
  }

  /** Then no address is returned twice. */
  lemma NoAddressTwice(m: Machine, i: nat, j: nat)
    requires WindowsApart(m) && i < j < |Entries(m, 0)|
    ensures Address(m, Entries(m, 0)[i]) != Address(m, Entries(m, 0)[j])
  {
    var s := Entries(m, 0);
    EntriesExact(m, 0);
    assert Before(s[i], s[j]);
    assert s[i] in s && s[j] in s;
    hide Entries, Responds, Address, Before;
    NotTwice(m, s[i], s[j]);
  }

  lemma NotTwice(m: Machine, k: Location, l: Location)
    requires WindowsApart(m) && Findable(m, k) && Findable(m, l) && Before(k, l)
    ensures Address(m, k) != Address(m, l)
  {
    hide Address, Responds;
    InWindow(m, k);
    InWindow(m, l);
    if Address(m, k) == Address(m, l) {
      assert k.entry == l.entry;
      AddressFields(m, k);
      AddressFields(m, l);
    }
  }

  lemma InWindow(m: Machine, l: Location)
    requires WindowsApart(m) && Findable(m, l)
    ensures Bottom(m.configs[l.entry]) <= Address(m, l) < Top(m.configs[l.entry])
    ensures m.configs[l.entry].Base + (l.bus + 1) * 0x10_0000 <= 0x1_0000_0000_0000_0000
  {
    hide Responds;
    var c := m.configs[l.entry];
    assert (l.bus + 1) * 0x10_0000 <= c.EndBus as nat * 0x10_0000;
    AddressFields(m, l);
  }

  // ---------- what a cursor stands for ----------

  /** The functions still to come when the device loop of bus `b` stands at (d, f). */
  function FromDevice(m: Machine, e: nat, b: nat, d: nat, f: nat): seq<Location>
    requires e < |m.configs|
  {
    (if d < 32 && Responds(m, Location(e, b, d, 0)) then Functions(m, e, b, d, f) else []) + Devices(m, e, b, d + 1)
  }

  function FromBus(m: Machine, e: nat, b: nat, d: nat, f: nat): seq<Location>
    requires e < |m.configs|
  {
    if b >= End(m, e) then Entries(m, e + 1)
    else (if Responds(m, Location(e, b, 0, 0)) then FromDevice(m, e, b, d, f) else []) + Buses(m, e, b + 1) + Entries(m, e + 1)
  }

  function Rest(m: Machine, e: nat, b: nat, d: nat, f: nat): seq<Location> {
    if e >= |m.configs| then [] else FromBus(m, e, if b == 0 then Start(m, e) else b, d, f)
  }

  /** A cursor inside a bus was left there by a function that was found. */
  predicate InBus(m: Machine, e: nat, b: nat, d: nat, f: nat)
    requires e < |m.configs|
  {
    && d <= 32 && f <= 8
    && (d > 0 || f > 0 ==> b < End(m, e) && Responds(m, Location(e, b, 0, 0)))
    && (f > 0 ==> d < 32 && Responds(m, Location(e, b, d, 0)))
  }

  lemma AtStart(m: Machine, e: nat, b: nat)
    requires e < |m.configs|
    ensures FromDevice(m, e, b, 0, 0) == Devices(m, e, b, 0)
    ensures FromBus(m, e, b, 0, 0) == Buses(m, e, b) + Entries(m, e + 1)
  {
  }

  /** One step of each loop. */
  lemma FunctionStep(m: Machine, e: nat, b: nat, d: nat, f: nat, after: seq<Location>)
    requires e < |m.configs| && f < 8
    ensures var l := Location(e, b, d, f);
            Functions(m, e, b, d, f) + after == (if Responds(m, l) then [l] else []) + (Functions(m, e, b, d, f + 1) + after)
  {
  }

  lemma FunctionsDone(m: Machine, e: nat, b: nat, d: nat)
    requires e < |m.configs|
    ensures Functions(m, e, b, d, 8) == []
  {
  }

  lemma Associate(s: seq<Location>, t: seq<Location>, u: seq<Location>)
    ensures (s + t) + u == s + (t + u)
  {
  }

  lemma DeviceStep(m: Machine, e: nat, b: nat, d: nat, f: nat, after: seq<Location>)
    requires e < |m.configs| && d < 32
    ensures FromDevice(m, e, b, d, f) + after ==
            (if Responds(m, Location(e, b, d, 0)) then Functions(m, e, b, d, f) else []) + (FromDevice(m, e, b, d + 1, 0) + after)
  {
    DevicesFrom(m, e, b, d + 1);
    hide Functions, Devices, Responds;
    var here := if Responds(m, Location(e, b, d, 0)) then Functions(m, e, b, d, f) else [];
    Associate(here, Devices(m, e, b, d + 1), after);
  }

  lemma DevicesFrom(m: Machine, e: nat, b: nat, d: nat)
    requires e < |m.configs|
    ensures Devices(m, e, b, d) == FromDevice(m, e, b, d, 0)
  {
    hide Functions, Responds;
  }

  lemma DevicesDone(m: Machine, e: nat, b: nat, f: nat)
    requires e < |m.configs|
    ensures FromDevice(m, e, b, 32, f) == []
  {
  }

  lemma BusStep(m: Machine, e: nat, b: nat, d: nat, f: nat)
    requires e < |m.configs| && b < End(m, e)
    ensures FromBus(m, e, b, d, f) ==
            (if Responds(m, Location(e, b, 0, 0)) then FromDevice(m, e, b, d, f) else []) + FromBus(m, e, b + 1, 0, 0)
  {
    BusesFrom(m, e, b + 1);
    hide FromDevice, Buses, Entries, Responds;
    var here := if Responds(m, Location(e, b, 0, 0)) then FromDevice(m, e, b, d, f) else [];
    Associate(here, Buses(m, e, b + 1), Entries(m, e + 1));
  }

  lemma BusesFrom(m: Machine, e: nat, b: nat)
    requires e < |m.configs|
    ensures FromBus(m, e, b, 0, 0) == Buses(m, e, b) + Entries(m, e + 1)
  {
    if b < End(m, e) {
      DevicesFrom(m, e, b, 0);
      hide FromDevice, Devices, Entries, Responds;
    }
  }

  lemma BusesDone(m: Machine, e: nat, b: nat, d: nat, f: nat)
    requires e < |m.configs| && b >= End(m, e)
    ensures FromBus(m, e, b, d, f) == Rest(m, e + 1, 0, 0, 0)
  {
  }

  class Enumerator {
    const m: Machine
    var Entry: nat
    var Bus: nat
    var Device: nat
    var Func: nat

    /** The four counters fit 8 bits, and a function was found where they stand. */
    predicate Valid()
      reads this
    {
      && |m.configs| <= 255 && Entry <= |m.configs| && Bus <= 255
      && (if Entry == |m.configs| then Bus == Device == Func == 0
          else InBus(m, Entry, Bus, Device, Func)
               && (Bus == 0 && (Device > 0 || Func > 0) ==> Start(m, Entry) == 0))
    }

    function Remaining(): seq<Location>
      reads this
    {
      Rest(m, Entry, Bus, Device, Func)
    }

    constructor (m: Machine)
      requires |m.configs| <= 255
      ensures this.m == m && Valid() && Remaining() == Entries(m, 0)
    {
      this.m := m;
      Entry, Bus, Device, Func := 0, 0, 0, 0;
      new;
      if |m.configs| > 0 { AtStart(m, 0, Start(m, 0)); }
    }

    method ResetEnumeration()
      requires |m.configs| <= 255
      modifies this
      ensures Valid() && Remaining() == Entries(m, 0)
      ensures Entry == Bus == Device == Func == 0
    {
      Entry, Bus, Device, Func := 0, 0, 0, 0;
      if |m.configs| > 0 { AtStart(m, 0, Start(m, 0)); }
    }

    /** The next function, or false with all counters back at zero. */
    method Enumerate() returns (found: bool, out: nat)
      requires Valid()
      modifies this
      ensures Valid()
      ensures found <==> old(Remaining()) != []
      ensures found ==> out == Address(m, old(Remaining())[0]) && Remaining() == old(Remaining())[1..]
      ensures !found ==> Entry == Bus == Device == Func == 0
    {
      hide Responds, Address, Functions, FromDevice, FromBus;
      ghost var todo := Remaining();
      while Entry < |m.configs|
        invariant Valid() && Remaining() == todo
        decreases |m.configs| - Entry
      {
        if Bus == 0 {
          Bus := Start(m, Entry);
        }
        ghost var e := Entry;
        while Bus < End(m, Entry)
          invariant Entry == e && Bus <= 255 && (Bus == 0 ==> Start(m, Entry) == 0)
          invariant InBus(m, Entry, Bus, Device, Func)
          invariant FromBus(m, Entry, Bus, Device, Func) == todo
          decreases End(m, Entry) - Bus
        {
          BusStep(m, Entry, Bus, Device, Func);
          if Responds(m, Location(Entry, Bus, 0, 0)) {
            found, out := EnumerateBus(FromBus(m, Entry, Bus + 1, 0, 0), todo);
            if found {
              BusStep(m, Entry, Bus, Device, Func);
              return;
            }
          }
          Bus := Bus + 1;
        }
        BusesDone(m, Entry, Bus, Device, Func);
        Bus := 0;
        Entry := Entry + 1;
      }
      Entry := 0;
      return false, 0;
    }

    /** The device and function loops. `after` is what follows this bus, `todo` all that is left. */
    method EnumerateBus(ghost after: seq<Location>, ghost todo: seq<Location>) returns (found: bool, out: nat)
      requires Entry < |m.configs| && Bus < End(m, Entry) && Responds(m, Location(Entry, Bus, 0, 0))
      requires InBus(m, Entry, Bus, Device, Func)
      requires FromDevice(m, Entry, Bus, Device, Func) + after == todo
      modifies this`Device, this`Func
      ensures InBus(m, Entry, Bus, Device, Func)
      ensures found ==> todo != [] && out == Address(m, todo[0]) && FromDevice(m, Entry, Bus, Device, Func) + after == todo[1..]
      ensures !found ==> Device == Func == 0 && after == todo
    {
      hide Responds, Address, Functions, FromDevice;
      while Device < 32
        invariant InBus(m, Entry, Bus, Device, Func)
        invariant FromDevice(m, Entry, Bus, Device, Func) + after == todo
        decreases 32 - Device
      {
        DeviceStep(m, Entry, Bus, Device, Func, after);
        if Responds(m, Location(Entry, Bus, Device, 0)) {
          ghost var d, later := Device, FromDevice(m, Entry, Bus, Device + 1, 0) + after;
          while Func < 8
            invariant Func <= 8 && Device == d
            invariant Functions(m, Entry, Bus, Device, Func) + later == todo
          {
            FunctionStep(m, Entry, Bus, Device, Func, later);
            if Responds(m, Location(Entry, Bus, Device, Func)) {
              out := Address(m, Location(Entry, Bus, Device, Func));
              Func := Func + 1;
              DeviceStep(m, Entry, Bus, Device, Func, after);
              return true, out;
            }
            Func := Func + 1;
          }
          FunctionsDone(m, Entry, Bus, Device);
          Func := 0;
        }
        Device := Device + 1;
      }
      DevicesDone(m, Entry, Bus, Func);
      Device := 0;
      return false, 0;
    }

    /** The callers' loop, which collects the functions until there are no more. */
    method Scan() returns (all: seq<nat>)
      requires |m.configs| <= 255
      modifies this
      ensures Valid() && |all| == |Entries(m, 0)|
      ensures forall i :: 0 <= i < |all| ==> all[i] == Address(m, Entries(m, 0)[i])
      ensures WindowsApart(m) ==> forall i, j :: 0 <= i < j < |all| ==> all[i] != all[j]
    {
      hide Address, Rest, Entries, WindowsApart;
      ResetEnumeration();
      all := [];
      ghost var todo := Remaining();
      var found, out := Enumerate();
      while found
        invariant Valid() && |all| <= |todo|
        invariant forall i :: 0 <= i < |all| ==> all[i] == Address(m, todo[i])
        invariant if found then |all| < |todo| && out == Address(m, todo[|all|]) && Remaining() == todo[|all| + 1..]
                  else |all| == |todo|
        decreases |todo| - |all|, found
      {
        all := all + [out];
        found, out := Enumerate();
      }
      if WindowsApart(m) {
        forall i, j | 0 <= i < j < |all| ensures all[i] != all[j] {
          NoAddressTwice(m, i, j);
        }
      }
    }
  }
}
