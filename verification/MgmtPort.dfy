/** `findNvswitchMgmtPort`: the port selection loops and the stack of deferred releases. */
module MgmtPort {
  import opened Hex
  import opened Options

  /** What libibumad answers for a port: `readable` when umad_get_port succeeds; the GUID
      (eight bytes) and the capability mask (four) are big-endian. */
  datatype PortReading = PortReading(readable: bool, guid: seq<Byte>, capMask: seq<Byte>)

  /** An LPF device: `readable` when umad_get_ca succeeds; `ports[i]` is port index i + 1. */
  datatype Device = Device(name: string, readable: bool, ports: seq<PortReading>)

  datatype Port = Port(device: string, guid: nat)
  datatype Failure = NoDevice | NoLibrary | NoPort
  datatype Search = Found(port: Port) | Failed(failure: Failure)

  function BigEndian(bytes: seq<Byte>): nat {
    if bytes == [] then 0 else BigEndian(bytes[..|bytes| - 1]) * 256 + bytes[|bytes| - 1] as nat
  }

  const SM_DISABLED_MASK: nat := 0x400

  predicate IsSMDisabled(capMask: nat) {
    capMask / SM_DISABLED_MASK % 2 != 0
  }

  predicate IsUsable(p: PortReading) {
    p.readable && BigEndian(p.guid) != 0 && !IsSMDisabled(BigEndian(p.capMask))
  }

  function Power256(n: nat): nat {
    if n == 0 then 1 else 256 * Power256(n - 1)
  }

  lemma {:induction false} Times256(a: nat, b: nat)
    ensures a * (256 * b) == 256 * (a * b)
  {
  }

  /** The first byte counts most. */
  lemma {:induction false} BigEndianMeans(x: Byte, a: seq<Byte>, b: seq<Byte>)
    ensures BigEndian([x]) == x as nat
    ensures BigEndian(a + b) == BigEndian(a) * Power256(|b|) + BigEndian(b)
    decreases |b|
  {
    assert BigEndian([]) == 0 && [x][..0] == [];
    if b == [] {
      assert a + b == a;
    } else {
      var n := |b| - 1;
      assert (a + b)[..|a + b| - 1] == a + b[..n];
      BigEndianMeans(x, a, b[..n]);
      Times256(BigEndian(a), Power256(n));
    }
  }

  lemma {:induction false} BigEndianZero(bytes: seq<Byte>)
    ensures BigEndian(bytes) != 0 <==> exists i :: 0 <= i < |bytes| && bytes[i] != 0
  {
    if bytes != [] {
      var n := |bytes| - 1;
      BigEndianZero(bytes[..n]);
      if i :| 0 <= i < n && bytes[i] != 0 {
        assert bytes[..n][i] != 0;
      }
      if i :| 0 <= i < n && bytes[..n][i] != 0 {
        assert bytes[i] != 0;
      }
    }
  }

  lemma {:induction false} FourBytes(c: seq<Byte>)
    requires |c| == 4
    ensures BigEndian(c) == ((c[0] as nat * 256 + c[1] as nat) * 256 + c[2] as nat) * 256 + c[3] as nat
  {
    var c3, c2, c1 := c[..3], c[..2], c[..1];
    assert c3[..2] == c2 && c2[..1] == c1 && c1[..0] == [];
    assert BigEndian([]) == 0;
    assert BigEndian(c1) == c[0] as nat;
    assert BigEndian(c2) == c[0] as nat * 256 + c[1] as nat;
    assert BigEndian(c3) == (c[0] as nat * 256 + c[1] as nat) * 256 + c[2] as nat;
  }

  lemma {:induction false} BitTen(high: nat, c2: nat, c3: nat)
    requires c2 < 256 && c3 < 256
    ensures ((high * 256 + c2) * 256 + c3) / 1024 == high * 64 + c2 / 4
    ensures (high * 64 + c2 / 4) % 2 == c2 / 4 % 2
  {
    var q, r := c2 / 4, c2 % 4;
    Quotient(high * 64 + q, r * 256 + c3);
    Parity(high * 32, q);
    assert (high * 256 + c2) * 256 + c3 == (high * 64 + q) * 1024 + (r * 256 + c3);
  }

  lemma {:induction false} Quotient(q: nat, r: nat)
    requires r < 1024
    ensures (q * 1024 + r) / 1024 == q
  {
  }

  lemma {:induction false} Parity(a: nat, b: nat)
    ensures (2 * a + b) % 2 == b % 2
  {
  }

  /** In terms of the bytes as they come from the library: some byte of the GUID is not
      zero, and bit 10 of the mask, which is bit 2 of its third byte, is clear. */
  lemma {:induction false} UsableMeans(p: PortReading)
    requires |p.guid| == 8 && |p.capMask| == 4
    ensures IsUsable(p) <==>
      p.readable && (exists i :: 0 <= i < 8 && p.guid[i] != 0) && p.capMask[2] as nat / 4 % 2 == 0
  {
    var c := p.capMask;
    BigEndianZero(p.guid);
    FourBytes(c);
    BitTen(c[0] as nat * 256 + c[1] as nat, c[2] as nat, c[3] as nat);
  }

  // ----- memory and library calls -----

  datatype Block = NameOf(device: nat) | CaOf(device: nat) | PortOf(device: nat)

  datatype Event =
    | Open                // umad_init
    | Close               // umad_done
    | Alloc(block: Block)
    | Free(block: Block)
    | Fill(block: Block)     // umad_get_ca or umad_get_port succeeded on the block
    | Release(block: Block)  // umad_release_ca or umad_release_port

  /** What is open, allocated, and filled but not released (and how often). */
  datatype Held = Held(open: bool, live: set<Block>, filled: multiset<Block>)

  const NOTHING: Held := Held(false, {}, multiset{})

  /** One event, or None for a misuse: a second allocation of a live block, a use or a
      free of a dead one, a free before the last release, a release without a fill, any
      call outside the open library, or closing it with something outstanding. */
  function Step(h: Held, e: Event): Option<Held> {
    match e
    case Open => if h.open then None else Some(h.(open := true))
    case Close => if h == Held(true, {}, multiset{}) then Some(NOTHING) else None
    case Alloc(b) => if h.open && b !in h.live then Some(h.(live := h.live + {b})) else None
    case Free(b) => if h.open && b in h.live && b !in h.filled then Some(h.(live := h.live - {b})) else None
    case Fill(b) => if h.open && b in h.live then Some(h.(filled := h.filled + multiset{b})) else None
    case Release(b) =>
      if h.open && b in h.live && b in h.filled then Some(h.(filled := h.filled - multiset{b})) else None
  }

  function Replay(h: Held, trace: seq<Event>): Option<Held>
    decreases |trace|
  {
    if trace == [] then Some(h)
    else
      match Step(h, trace[0])
      case None => None
      case Some(h') => Replay(h', trace[1..])
  }

  /** Deferred calls run last in, first out. */
  function Unwind(defers: seq<Event>): (trace: seq<Event>)
    ensures |trace| == |defers|
  {
    if defers == [] then [] else [defers[|defers| - 1]] + Unwind(defers[..|defers| - 1])
  }

  lemma {:induction false} ReplayAppend(h: Held, trace: seq<Event>, more: seq<Event>)
    ensures Replay(h, trace + more) ==
      match Replay(h, trace)
      case None => None
      case Some(h') => Replay(h', more)
    decreases |trace|
  {
    if trace == [] {
      assert trace + more == more;
    } else {
      assert (trace + more)[1..] == trace[1..] + more;
      match Step(h, trace[0]) {
        case None =>
        case Some(h') => ReplayAppend(h', trace[1..], more);
      }
    }
  }

  /** The execution so far is clean and leaves `h`, and running the deferred calls now
      would leave nothing behind. */
  ghost predicate IsBalancedAt(trace: seq<Event>, defers: seq<Event>, h: Held) {
    Replay(NOTHING, trace) == Some(h) && Replay(h, Unwind(defers)) == Some(NOTHING)
  }

  /** Acquiring something and deferring its release keeps the balance. */
  lemma {:induction false} Acquire(trace: seq<Event>, defers: seq<Event>, h: Held, e: Event, undo: Event, h': Held)
    requires IsBalancedAt(trace, defers, h)
    requires Step(h, e) == Some(h') && Step(h', undo) == Some(h)
    ensures IsBalancedAt(trace + [e], defers + [undo], h')
  {
    ReplayAppend(NOTHING, trace, [e]);
    assert (defers + [undo])[..|defers|] == defers;
    assert ([undo] + Unwind(defers))[1..] == Unwind(defers);
  }

  /** The whole execution, deferred calls included. */
  lemma {:induction false} FullTrace(trace: seq<Event>, defers: seq<Event>, h: Held)
    requires IsBalancedAt(trace, defers, h)
    ensures Replay(NOTHING, trace + Unwind(defers)) == Some(NOTHING)
  {
    ReplayAppend(NOTHING, trace, Unwind(defers));
  }

  lemma {:induction false} UnwindEndsWithFirst(defers: seq<Event>)
    requires defers != []
    ensures Unwind(defers)[|defers| - 1] == defers[0]
  {
    if |defers| > 1 {
      UnwindEndsWithFirst(defers[..|defers| - 1]);
    }
  }

  // ----- the search -----

  ghost predicate IsCandidate(devices: seq<Device>, d: nat, i: nat) {
    d < |devices| && devices[d].readable && i < |devices[d].ports| && IsUsable(devices[d].ports[i])
  }

  predicate Before(d: nat, i: nat, e: nat, j: nat) {
    d < e || (d == e && i < j)
  }

  /** The first candidate in the order of devices, then port indices. */
  ghost predicate IsFirst(devices: seq<Device>, d: nat, i: nat) {
    IsCandidate(devices, d, i) && forall e: nat, j: nat :: IsCandidate(devices, e, j) ==> !Before(e, j, d, i)
  }

  ghost predicate HasCandidate(devices: seq<Device>) {
    exists d: nat, i: nat :: IsCandidate(devices, d, i)
  }

  /** The choice made once device `d` has been scanned up to port `i`. */
  ghost predicate IsChoice(devices: seq<Device>, d: nat, i: nat, port: Option<Port>) {
    match port
    case None => forall e: nat, j: nat :: IsCandidate(devices, e, j) ==> !Before(e, j, d, i)
    case Some(p) =>
      exists e: nat, j: nat :: IsFirst(devices, e, j) && p == Port(devices[e].name, BigEndian(devices[e].ports[j].guid))
  }

  /** Scanning one port settles it: the first usable one is taken, later ones change nothing. */
  lemma {:induction false} ScanPort(devices: seq<Device>, d: nat, i: nat, port: Option<Port>)
    requires d < |devices| && devices[d].readable && i < |devices[d].ports| && IsChoice(devices, d, i, port)
    ensures var p := devices[d].ports[i];
      IsChoice(devices, d, i + 1,
               if port == None && IsUsable(p) then Some(Port(devices[d].name, BigEndian(p.guid))) else port)
  {
    if port == None && IsUsable(devices[d].ports[i]) {
      assert IsFirst(devices, d, i);
    }
  }

  /** A device is done when its ports are scanned, or when it cannot be read. */
  lemma {:induction false} ScanDevice(devices: seq<Device>, d: nat, i: nat, port: Option<Port>)
    requires d < |devices| && IsChoice(devices, d, i, port)
    requires devices[d].readable ==> i == |devices[d].ports|
    ensures IsChoice(devices, d + 1, 0, port)
  {
  }

  lemma {:induction false} ScanDone(devices: seq<Device>, port: Option<Port>)
    requires IsChoice(devices, |devices|, 0, port)
    ensures port.Some? <==> HasCandidate(devices)
  {
    if HasCandidate(devices) {
      var d: nat, i: nat :| IsCandidate(devices, d, i);
      assert Before(d, i, |devices|, 0);
    }
  }

  /** The library is open, only live blocks are filled, and the deferred calls are the
      undoing of what was acquired, which leaves nothing behind. */
  ghost predicate IsOrderly(trace: seq<Event>, defers: seq<Event>, h: Held) {
    h.open && (forall b :: b in h.filled ==> b in h.live) && defers == Undos(trace) && IsBalancedAt(trace, defers, h)
  }

  /** An allocation with its deferred free. */
  method PushAlloc(trace: seq<Event>, defers: seq<Event>, ghost h: Held, b: Block)
      returns (trace': seq<Event>, defers': seq<Event>, ghost h': Held)
    requires IsOrderly(trace, defers, h) && b !in h.live
    ensures trace' == trace + [Alloc(b)] && IsOrderly(trace', defers', h') && h'.live == h.live + {b}
  {
    h' := h.(live := h.live + {b});
    assert h'.live - {b} == h.live;
    Acquire(trace, defers, h, Alloc(b), Free(b), h');
    UndosAppend(trace, Alloc(b));
    trace', defers' := trace + [Alloc(b)], defers + [Free(b)];
  }

  /** A successful read into a block with its deferred release. */
  method PushFill(trace: seq<Event>, defers: seq<Event>, ghost h: Held, b: Block)
      returns (trace': seq<Event>, defers': seq<Event>, ghost h': Held)
    requires IsOrderly(trace, defers, h) && b in h.live
    ensures trace' == trace + [Fill(b)] && IsOrderly(trace', defers', h') && h'.live == h.live
  {
    h' := h.(filled := h.filled + multiset{b});
    assert h'.filled - multiset{b} == h.filled;
    Acquire(trace, defers, h, Fill(b), Release(b), h');
    UndosAppend(trace, Fill(b));
    trace', defers' := trace + [Fill(b)], defers + [Release(b)];
  }

  // ----- what the search acquires, in order -----

  function PortFills(ports: seq<PortReading>, d: nat, i: nat): seq<Event>
    requires i <= |ports|
  {
    if i == 0 then []
    else PortFills(ports, d, i - 1) + (if ports[i - 1].readable then [Fill(PortOf(d))] else [])
  }

  function DeviceAcquisitions(device: Device, d: nat): seq<Event> {
    [Alloc(NameOf(d)), Alloc(CaOf(d))]
    + if device.readable then [Fill(CaOf(d)), Alloc(PortOf(d))] + PortFills(device.ports, d, |device.ports|) else []
  }

  /** The acquisitions for the first `d` devices. */
  function Acquisitions(devices: seq<Device>, d: nat): seq<Event>
    requires d <= |devices|
  {
    if d == 0 then [Open] else Acquisitions(devices, d - 1) + DeviceAcquisitions(devices[d - 1], d - 1)
  }

  function Undo(e: Event): Event {
    match e
    case Open => Close
    case Alloc(b) => Free(b)
    case Fill(b) => Release(b)
    case _ => e
  }

  function Undos(events: seq<Event>): (u: seq<Event>)
    ensures |u| == |events|
  {
    seq(|events|, i requires 0 <= i < |events| => Undo(events[i]))
  }

  lemma {:induction false} UndosAppend(events: seq<Event>, e: Event)
    ensures Undos(events + [e]) == Undos(events) + [Undo(e)]
  {
  }

  lemma {:induction false} Joined(base: seq<Event>, more: seq<Event>, e: Event)
    ensures base + more + [e] == base + (more + [e])
  {
  }

  lemma {:induction false} AcquiredDevice(base: seq<Event>, device: Device, d: nat, fills: seq<Event>)
    requires device.readable ==> fills == PortFills(device.ports, d, |device.ports|)
    ensures base + DeviceAcquisitions(device, d) ==
      if device.readable
      then base + [Alloc(NameOf(d))] + [Alloc(CaOf(d))] + [Fill(CaOf(d))] + [Alloc(PortOf(d))] + fills
      else base + [Alloc(NameOf(d))] + [Alloc(CaOf(d))]
  {
  }

  /** The inner loop: the ports of a readable device, through one reused port block. */
  method ScanPorts(
      devices: seq<Device>, d: nat, trace0: seq<Event>, defers0: seq<Event>, port0: Option<Port>, ghost h0: Held)
      returns (trace: seq<Event>, defers: seq<Event>, port: Option<Port>, ghost h: Held)
    requires d < |devices| && devices[d].readable && IsChoice(devices, d, 0, port0)
    requires IsOrderly(trace0, defers0, h0) && PortOf(d) in h0.live
    ensures IsChoice(devices, d + 1, 0, port)
    ensures IsOrderly(trace, defers, h) && h.live == h0.live
    ensures trace == trace0 + PortFills(devices[d].ports, d, |devices[d].ports|)
  {
    trace, defers, port, h := trace0, defers0, port0, h0;
    var numPorts := |devices[d].ports|;
    for i := 0 to numPorts
      invariant trace == trace0 + PortFills(devices[d].ports, d, i)
      invariant IsOrderly(trace, defers, h) && h.live == h0.live
      invariant IsChoice(devices, d, i, port)
    {
      var p := devices[d].ports[i];
      ScanPort(devices, d, i, port);
      if !p.readable {
        continue;
      }
      Joined(trace0, PortFills(devices[d].ports, d, i), Fill(PortOf(d)));
      trace, defers, h := PushFill(trace, defers, h, PortOf(d));
      var guid := BigEndian(p.guid);
      var isSMDisabled := IsSMDisabled(BigEndian(p.capMask));
      if port == None {
        if guid != 0 && !isSMDisabled {
          port := Some(Port(devices[d].name, guid));
        }
      }
    }
    ScanDevice(devices, d, numPorts, port);
  }

  /** The outer loop's body. */
  method VisitDevice(
      devices: seq<Device>, d: nat, trace0: seq<Event>, defers0: seq<Event>, port0: Option<Port>, ghost h0: Held)
      returns (trace: seq<Event>, defers: seq<Event>, port: Option<Port>, ghost h: Held)
    requires d < |devices| && IsChoice(devices, d, 0, port0)
    requires IsOrderly(trace0, defers0, h0) && forall b :: b in h0.live ==> b.device < d
    ensures IsChoice(devices, d + 1, 0, port)
    ensures IsOrderly(trace, defers, h) && forall b :: b in h.live ==> b.device <= d
    ensures trace == trace0 + DeviceAcquisitions(devices[d], d)
  {
    AcquiredDevice(trace0, devices[d], d, PortFills(devices[d].ports, d, |devices[d].ports|));
    port := port0;
    trace, defers, h := PushAlloc(trace0, defers0, h0, NameOf(d));
    trace, defers, h := PushAlloc(trace, defers, h, CaOf(d));
    if !devices[d].readable {
      ScanDevice(devices, d, 0, port);
      return;
    }
    trace, defers, h := PushFill(trace, defers, h, CaOf(d));
    trace, defers, h := PushAlloc(trace, defers, h, PortOf(d));
    trace, defers, port, h := ScanPorts(devices, d, trace, defers, port, h);
  }

  /** `initialised` is whether umad_init succeeds.  The trace holds every allocation and
      library call that matters, the deferred ones last. */
  method FindNvswitchMgmtPort(devices: seq<Device>, initialised: bool) returns (search: Search, trace: seq<Event>)
    ensures devices == [] ==> search == Failed(NoDevice) && trace == []
    ensures devices != [] && !initialised ==> search == Failed(NoLibrary) && trace == []
    ensures devices != [] && initialised ==>
      if HasCandidate(devices) then
        exists d: nat, i: nat :: IsFirst(devices, d, i)
          && search == Found(Port(devices[d].name, BigEndian(devices[d].ports[i].guid)))
      else search == Failed(NoPort)
    ensures devices != [] && initialised ==>
      var acquired := Acquisitions(devices, |devices|); trace == acquired + Unwind(Undos(acquired))
    ensures Replay(NOTHING, trace) == Some(NOTHING)
    ensures trace != [] ==> trace[|trace| - 1] == Close
  {
    trace := [];
    if devices == [] {
      return Failed(NoDevice), trace;
    }
    if !initialised {
      return Failed(NoLibrary), trace;
    }
    trace := [Open];
    var defers := [Close];
    ghost var h := Held(true, {}, multiset{});
    OpenBalanced();

    var port: Option<Port> := None;
    for d := 0 to |devices|
      invariant trace == Acquisitions(devices, d) && IsOrderly(trace, defers, h)
      invariant forall b :: b in h.live ==> b.device < d
      invariant IsChoice(devices, d, 0, port)
    {
      trace, defers, port, h := VisitDevice(devices, d, trace, defers, port, h);
    }
    ScanDone(devices, port);
    FullTrace(trace, defers, h);
    AcquisitionsOpen(devices, |devices|);
    UnwindEndsWithFirst(defers);
    trace := trace + Unwind(defers);
    search := if port == None then Failed(NoPort) else Found(port.value);
  }

  lemma {:induction false} AcquisitionsOpen(devices: seq<Device>, d: nat)
    requires d <= |devices|
    ensures Acquisitions(devices, d) != [] && Acquisitions(devices, d)[0] == Open
  {
    if d > 0 {
      AcquisitionsOpen(devices, d - 1);
    }
  }

  lemma {:induction false} OpenBalanced()
    ensures IsBalancedAt([Open], [Close], Held(true, {}, multiset{})) && Undos([Open]) == [Close]
  {
    assert Unwind([Close]) == [Close];
    assert [Open][1..] == [] && [Close][1..] == [];
  }

  /** Later ports never change the choice: there is one first candidate at most. */
  lemma {:induction false} FirstIsUnique(devices: seq<Device>, d: nat, i: nat, e: nat, j: nat)
    requires IsFirst(devices, d, i) && IsFirst(devices, e, j)
    ensures d == e && i == j
  {
    assert !Before(d, i, e, j) && !Before(e, j, d, i);
  }

  ghost function Count(trace: seq<Event>, e: Event): nat
    decreases |trace|
  {
    if trace == [] then 0 else (if trace[0] == e then 1 else 0) + Count(trace[1..], e)
  }

  /** In a clean execution every allocation is freed once and every fill released once. */
  lemma {:induction false} CleanCounts(h: Held, trace: seq<Event>, b: Block)
    requires Replay(h, trace).Some?
    ensures var h' := Replay(h, trace).value;
      && Count(trace, Alloc(b)) + (if b in h.live then 1 else 0)
         == Count(trace, Free(b)) + (if b in h'.live then 1 else 0)
      && Count(trace, Fill(b)) + h.filled[b] == Count(trace, Release(b)) + h'.filled[b]
    decreases |trace|
  {
    if trace != [] {
      CleanCounts(Step(h, trace[0]).value, trace[1..], b);
    }
  }

  /** And a release never comes behind the free that ends the block's life. */
  lemma {:induction false} NoUseAfterFree(h: Held, trace: seq<Event>, b: Block)
    requires Replay(h, trace).Some? && b !in h.live && Count(trace, Alloc(b)) == 0
    ensures Count(trace, Fill(b)) == 0 && Count(trace, Release(b)) == 0 && Count(trace, Free(b)) == 0
    decreases |trace|
  {
    if trace != [] {
      NoUseAfterFree(Step(h, trace[0]).value, trace[1..], b);
    }
  }

  lemma {:induction false} CountAppend(trace: seq<Event>, more: seq<Event>, e: Event)
    ensures Count(trace + more, e) == Count(trace, e) + Count(more, e)
    decreases |trace|
  {
    if trace == [] {
      assert trace + more == more;
    } else {
      assert (trace + more)[1..] == trace[1..] + more;
      CountAppend(trace[1..], more, e);
    }
  }

  lemma {:induction false} NotUnwound(defers: seq<Event>, e: Event)
    requires forall i :: 0 <= i < |defers| ==> defers[i] != e
    ensures Count(Unwind(defers), e) == 0
    decreases |defers|
  {
    if defers != [] {
      NotUnwound(defers[..|defers| - 1], e);
      assert ([defers[|defers| - 1]] + Unwind(defers[..|defers| - 1]))[1..] == Unwind(defers[..|defers| - 1]);
    }
  }

  lemma {:induction false} NoAllocInFills(ports: seq<PortReading>, d: nat, i: nat, b: Block)
    requires i <= |ports|
    ensures Count(PortFills(ports, d, i), Alloc(b)) == 0
  {
    if i > 0 {
      NoAllocInFills(ports, d, i - 1, b);
      CountAppend(PortFills(ports, d, i - 1), if ports[i - 1].readable then [Fill(PortOf(d))] else [], Alloc(b));
    }
  }

  function ReadablePorts(ports: seq<PortReading>, i: nat): nat
    requires i <= |ports|
  {
    if i == 0 then 0 else ReadablePorts(ports, i - 1) + if ports[i - 1].readable then 1 else 0
  }

  /** How often the search reads into block `b`: once into the CA block of a readable
      device, once per readable port into its port block, never into a name. */
  function Fills(devices: seq<Device>, d: nat, b: Block): nat
    requires d <= |devices|
  {
    if b.device >= d || !devices[b.device].readable then 0
    else
      match b
      case NameOf(_) => 0
      case CaOf(_) => 1
      case PortOf(e) => ReadablePorts(devices[e].ports, |devices[e].ports|)
  }

  lemma {:induction false} PortFillsCount(ports: seq<PortReading>, d: nat, i: nat, b: Block)
    requires i <= |ports|
    ensures Count(PortFills(ports, d, i), Fill(b)) == if b == PortOf(d) then ReadablePorts(ports, i) else 0
  {
    if i > 0 {
      var last := if ports[i - 1].readable then [Fill(PortOf(d))] else [];
      PortFillsCount(ports, d, i - 1, b);
      CountAppend(PortFills(ports, d, i - 1), last, Fill(b));
      assert last != [] ==> last[1..] == [];
    }
  }

  lemma {:induction false} DeviceFillsCount(device: Device, d: nat, b: Block)
    ensures Count(DeviceAcquisitions(device, d), Fill(b)) ==
      if b == CaOf(d) && device.readable then 1
      else if b == PortOf(d) && device.readable then ReadablePorts(device.ports, |device.ports|)
      else 0
  {
    var start, fills := [Alloc(NameOf(d)), Alloc(CaOf(d))], PortFills(device.ports, d, |device.ports|);
    CountPair(Alloc(NameOf(d)), Alloc(CaOf(d)), Fill(b));
    if device.readable {
      var mid := [Fill(CaOf(d)), Alloc(PortOf(d))];
      CountPair(Fill(CaOf(d)), Alloc(PortOf(d)), Fill(b));
      PortFillsCount(device.ports, d, |device.ports|, b);
      CountAppend(mid, fills, Fill(b));
      CountAppend(start, mid + fills, Fill(b));
    } else {
      assert start + [] == start;
    }
  }

  lemma {:induction false} FillsCount(devices: seq<Device>, d: nat, b: Block)
    requires d <= |devices|
    ensures Count(Acquisitions(devices, d), Fill(b)) == Fills(devices, d, b)
  {
    if d > 0 {
      FillsCount(devices, d - 1, b);
      DeviceFillsCount(devices[d - 1], d - 1, b);
      CountAppend(Acquisitions(devices, d - 1), DeviceAcquisitions(devices[d - 1], d - 1), Fill(b));
    } else {
      assert [Open][1..] == [];
    }
  }

  /** Over the whole search every successful read is released, and released once. */
  lemma {:induction false} ReleasedAsFilled(devices: seq<Device>, trace: seq<Event>, b: Block)
    requires var acquired := Acquisitions(devices, |devices|); trace == acquired + Unwind(Undos(acquired))
    requires Replay(NOTHING, trace) == Some(NOTHING)
    ensures Count(trace, Release(b)) == Count(trace, Fill(b)) == Fills(devices, |devices|, b)
  {
    var acquired := Acquisitions(devices, |devices|);
    FillsCount(devices, |devices|, b);
    NotUnwound(Undos(acquired), Fill(b));
    CountAppend(acquired, Unwind(Undos(acquired)), Fill(b));
    CleanCounts(NOTHING, trace, b);
  }

  predicate IsAllocated(devices: seq<Device>, d: nat, b: Block)
    requires d <= |devices|
  {
    b.device < d && (b.PortOf? ==> devices[b.device].readable)
  }

  lemma {:induction false} CountPair(x: Event, y: Event, e: Event)
    ensures Count([x, y], e) == (if x == e then 1 else 0) + (if y == e then 1 else 0)
  {
    assert [x, y][1..] == [y] && [y][1..] == [];
    assert Count([y], e) == if y == e then 1 else 0;
  }

  lemma {:induction false} DeviceAllocations(device: Device, d: nat, b: Block)
    ensures Count(DeviceAcquisitions(device, d), Alloc(b)) ==
      if b.device == d && (b.PortOf? ==> device.readable) then 1 else 0
  {
    var start, fills := [Alloc(NameOf(d)), Alloc(CaOf(d))], PortFills(device.ports, d, |device.ports|);
    CountPair(Alloc(NameOf(d)), Alloc(CaOf(d)), Alloc(b));
    if device.readable {
      var mid := [Fill(CaOf(d)), Alloc(PortOf(d))];
      CountPair(Fill(CaOf(d)), Alloc(PortOf(d)), Alloc(b));
      NoAllocInFills(device.ports, d, |device.ports|, b);
      CountAppend(mid, fills, Alloc(b));
      CountAppend(start, mid + fills, Alloc(b));
    } else {
      assert start + [] == start;
    }
  }

  lemma {:induction false} AllocatedOnce(devices: seq<Device>, d: nat, b: Block)
    requires d <= |devices|
    ensures Count(Acquisitions(devices, d), Alloc(b)) == if IsAllocated(devices, d, b) then 1 else 0
  {
    if d > 0 {
      AllocatedOnce(devices, d - 1, b);
      DeviceAllocations(devices[d - 1], d - 1, b);
      CountAppend(Acquisitions(devices, d - 1), DeviceAcquisitions(devices[d - 1], d - 1), Alloc(b));
    }
  }

  /** Over the whole search a block is allocated at most once and freed exactly as often:
      once for the name and the CA of every device and the port block of readable ones. */
  lemma {:induction false} FreedExactlyOnce(devices: seq<Device>, trace: seq<Event>, b: Block)
    requires var acquired := Acquisitions(devices, |devices|); trace == acquired + Unwind(Undos(acquired))
    requires Replay(NOTHING, trace) == Some(NOTHING)
    ensures Count(trace, Free(b)) == Count(trace, Alloc(b)) == if IsAllocated(devices, |devices|, b) then 1 else 0
  {
    var acquired := Acquisitions(devices, |devices|);
    AllocatedOnce(devices, |devices|, b);
    NotUnwound(Undos(acquired), Alloc(b));
    CountAppend(acquired, Unwind(Undos(acquired)), Alloc(b));
    CleanCounts(NOTHING, trace, b);
  }
}
