/**
 * Laws of the hub traversal and of the requests made at one port, stated over
 * the traces of HubTree.
 */
module HubTraversal {
  import opened Wrappers
  import opened Sequences
  import opened UsbDescriptors
  import opened HubTree

  // ------------------------------------------------- the strings asked for at a port

  /** The string requests of a trace. */
  function Asked(events: seq<Event>): seq<Event> {
    if events == [] then []
    else if events[0].GetLanguage? || events[0].GetString? then [events[0]] + Asked(events[1..])
    else Asked(events[1..])
  }

  lemma {:induction false} AskedConcat(a: seq<Event>, b: seq<Event>)
    ensures Asked(a + b) == Asked(a) + Asked(b)
  {
    if a == [] {
      EmptyConcat(b);
      EmptyConcat(Asked(b));
    } else {
      HeadTail(a, b);
      AskedConcat(a[1..], b);
      if a[0].GetLanguage? || a[0].GetString? {
        Assoc([a[0]], Asked(a[1..]), Asked(b));
      }
    }
  }

  lemma AskedOfRequest(port: nat, language: Ushort, known: Ushort, index: Byte)
    ensures Asked(StringRequest(port, language, known, index)) == StringRequest(port, language, known, index)
  {
    if index != 0 {
      var id := NextLanguage(language, known, index);
      var ask := [GetString(port, index, id % 256, id / 256)];
      assert Asked(ask) == ask by {
        assert ask[1..] == [];
      }
      if known == 0 {
        assert ([GetLanguage(port)] + ask)[1..] == ask;
      } else {
        EmptyConcat(ask);
      }
    }
  }

  lemma {:induction false} AskedOfRequests(port: nat, language: Ushort, known: Ushort, indices: seq<Byte>)
    ensures Asked(StringRequests(port, language, known, indices)) == StringRequests(port, language, known, indices)
    decreases |indices|
  {
    if indices != [] {
      var next := NextLanguage(language, known, indices[0]);
      AskedOfRequest(port, language, known, indices[0]);
      AskedOfRequests(port, language, next, indices[1..]);
      AskedConcat(StringRequest(port, language, known, indices[0]), StringRequests(port, language, next, indices[1..]));
    }
  }

  lemma {:induction false} RequestsConcat(port: nat, language: Ushort, known: Ushort, a: seq<Byte>, b: seq<Byte>)
    ensures StringRequests(port, language, known, a + b)
         == StringRequests(port, language, known, a)
            + StringRequests(port, language, LanguageAfter(language, known, a), b)
    decreases |a|
  {
    if a == [] {
      EmptyConcat(b);
      EmptyConcat(StringRequests(port, language, known, b));
    } else {
      HeadTail(a, b);
      var next := NextLanguage(language, known, a[0]);
      RequestsConcat(port, language, next, a[1..], b);
      Assoc(StringRequest(port, language, known, a[0]), StringRequests(port, language, next, a[1..]),
            StringRequests(port, language, LanguageAfter(language, known, a), b));
    }
  }

  lemma {:induction false} AskedOfConfiguration(port: nat, language: Ushort, known: Ushort, ds: seq<Descriptor>)
    ensures Asked(ConfigurationTrace(port, language, known, ds))
         == StringRequests(port, language, known, StringIndices(ds))
    decreases |ds|
  {
    if ds != [] {
      var i := StringIndex(ds[0]);
      var next := NextLanguage(language, known, i);
      var rest := ConfigurationTrace(port, language, next, ds[1..]);
      AskedOfConfiguration(port, language, next, ds[1..]);
      AskedOfRequest(port, language, known, i);
      AskedConcat(StringRequest(port, language, known, i), [Shown(ds[0])]);
      AskedConcat(StringRequest(port, language, known, i) + [Shown(ds[0])], rest);
      assert Asked([Shown(ds[0])]) == [] by {
        assert [Shown(ds[0])][1..] == [];
      }
      EmptyConcat(StringRequest(port, language, known, i));
      HeadTail([i], StringIndices(ds[1..]));
      EmptyConcat(StringIndices(ds[1..]));
    }
  }

  /** All string indices of a device, in the order they are come across. */
  function AllIndices(d: Device): seq<Byte>
    requires |d.descriptor| == 18
  {
    DeviceStringIndices(d.descriptor) + StringIndices(Walk(d.configuration, 0))
  }

  /**
   * Over a whole port - device descriptor, then configuration - the language
   * ID is carried along: the requests are those for one list of indices.
   */
  lemma AskedOfDevice(port: nat, d: Device)
    requires |d.descriptor| == 18
    ensures Asked(DeviceTrace(port, d)) == StringRequests(port, d.language, 0, AllIndices(d))
  {
    var own, ds := DeviceStringIndices(d.descriptor), Walk(d.configuration, 0);
    var known := LanguageAfter(d.language, 0, own);
    var first := StringRequests(port, d.language, 0, own);
    var mid := [ShownDevice(DecodeDevice(d.descriptor)), GetConfiguration(port)];
    var last := ConfigurationTrace(port, d.language, known, ds);
    AskedConcat(first, mid);
    AskedConcat(first + mid, last);
    AskedOfRequests(port, d.language, 0, own);
    AskedOfConfiguration(port, d.language, known, ds);
    assert Asked(mid) == [] by {
      assert mid[1..] == [GetConfiguration(port)];
      assert Asked(mid[1..]) == Asked(mid[1..][1..]) == [];
    }
    EmptyConcat(first);
    RequestsConcat(port, d.language, 0, own, StringIndices(ds));
  }

  /**
   * At a port whose device has a non-zero language ID, string descriptor 0 is
   * asked for once, first, and only if some index is non-zero; every string is
   * asked for under that ID.
   */
  lemma LanguageOncePerPort(port: nat, d: Device)
    requires |d.descriptor| == 18 && d.language != 0
    ensures Asked(DeviceTrace(port, d))
         == if NonZero(AllIndices(d)) == [] then []
            else [GetLanguage(port)] + StringsUnder(port, d.language, NonZero(AllIndices(d)))
  {
    AskedOfDevice(port, d);
    LanguageFetchedOnce(port, d.language, AllIndices(d));
  }

  // --------------------------------------------------------- replaying a traversal

  /** The hubs now open, outermost first, and the ports they were reached through. */
  datatype Place = Place(handles: seq<Handle>, path: seq<nat>)

  /** The addresses of the ports visited and of the hubs opened, and the place at the end. */
  datatype Replayed = Replayed(visited: seq<seq<nat>>, entered: seq<seq<nat>>, place: Place)

  /** Does the event fit the place: the innermost open hub, its depth, a handle not in use? */
  predicate Fits(e: Event, at: Place) {
    match e
    case Visit(h, _, depth) => at.handles != [] && h == at.handles[|at.handles| - 1] && depth == |at.path|
    case Open(h, _, child) =>
      at.handles != [] && h == at.handles[|at.handles| - 1] && child !in at.handles
    case Close(child) => |at.handles| > 1 && at.path != [] && child == at.handles[|at.handles| - 1]
    case _ => true
  }

  function Move(e: Event, at: Place): Place
    requires Fits(e, at)
  {
    match e
    case Open(_, port, child) => Place(at.handles + [child], at.path + [port])
    case Close(_) => Place(at.handles[..|at.handles| - 1], at.path[..|at.path| - 1])
    case _ => at
  }

  /** The address of the port an event is about. */
  function Address(e: Event, at: Place): seq<nat>
    requires e.Visit? || e.Open?
  {
    at.path + [e.port]
  }

  /** Follow a trace; None when an event does not fit. */
  function Replay(events: seq<Event>, at: Place): Option<Replayed> {
    if events == [] then Some(Replayed([], [], at))
    else if !Fits(events[0], at) then None
    else
      var rest := Replay(events[1..], Move(events[0], at));
      match rest
      case None => None
      case Some(r) =>
        if events[0].Visit? then Some(Replayed([Address(events[0], at)] + r.visited, r.entered, r.place))
        else if events[0].Open? then Some(Replayed(r.visited, [Address(events[0], at)] + r.entered, r.place))
        else rest
  }

  lemma {:induction false} ReplayConcat(a: seq<Event>, b: seq<Event>, at: Place)
    requires Replay(a, at).Some? && Replay(b, Replay(a, at).value.place).Some?
    ensures var ra := Replay(a, at).value;
            var rb := Replay(b, ra.place).value;
            Replay(a + b, at) == Some(Replayed(ra.visited + rb.visited, ra.entered + rb.entered, rb.place))
    decreases |a|
  {
    if a == [] {
      EmptyConcat(b);
      EmptyConcat(Replay(b, at).value.visited);
      EmptyConcat(Replay(b, at).value.entered);
    } else {
      HeadTail(a, b);
      var at' := Move(a[0], at);
      ReplayConcat(a[1..], b, at');
      var ra := Replay(a[1..], at').value;
      if a[0].Visit? {
        Assoc([Address(a[0], at)], ra.visited, Replay(b, ra.place).value.visited);
      } else if a[0].Open? {
        Assoc([Address(a[0], at)], ra.entered, Replay(b, ra.place).value.entered);
      }
    }
  }

  /** Events that move nowhere and visit nothing. */
  predicate Still(events: seq<Event>) {
    forall e :: e in events ==> !e.Visit? && !e.Open? && !e.Close?
  }

  lemma {:induction false} ReplayStill(events: seq<Event>, at: Place)
    requires Still(events)
    ensures Replay(events, at) == Some(Replayed([], [], at))
  {
    if events != [] {
      assert events[0] in events;
      ReplayStill(events[1..], at);
    }
  }

  lemma {:induction false} RequestsStill(port: nat, language: Ushort, known: Ushort, indices: seq<Byte>)
    ensures Still(StringRequests(port, language, known, indices))
    decreases |indices|
  {
    if indices != [] {
      RequestsStill(port, language, NextLanguage(language, known, indices[0]), indices[1..]);
    }
  }

  lemma {:induction false} ConfigurationStill(port: nat, language: Ushort, known: Ushort, ds: seq<Descriptor>)
    ensures Still(ConfigurationTrace(port, language, known, ds))
    decreases |ds|
  {
    if ds != [] {
      ConfigurationStill(port, language, NextLanguage(language, known, StringIndex(ds[0])), ds[1..]);
    }
  }

  lemma DeviceStill(port: nat, d: Device)
    requires |d.descriptor| == 18
    ensures Still(DeviceTrace(port, d))
  {
    var own := DeviceStringIndices(d.descriptor);
    RequestsStill(port, d.language, 0, own);
    ConfigurationStill(port, d.language, LanguageAfter(d.language, 0, own), Walk(d.configuration, 0));
  }

  // ---------------------------------------------------- the reference: all addresses

  /** Which ports an enumeration is about. */
  datatype Which = AllPorts | Hubs | Devices

  predicate Wanted(p: Port, which: Which) {
    match which
    case AllPorts => true
    case Hubs => p.HubAt?
    case Devices => p.Io?
  }

  /**
   * The addresses of the ports below a hub that are wanted: each before those
   * below it, in the order of the ports.
   */
  ghost function Preorder(path: seq<nat>, ports: seq<Port>, first: nat, which: Which): seq<seq<nat>>
    decreases ports, 1
  {
    if ports == [] then []
    else PortPreorder(path + [first], ports[0], which) + Preorder(path, ports[1..], first + 1, which)
  }

  ghost function PortPreorder(path: seq<nat>, p: Port, which: Which): seq<seq<nat>>
    decreases p, 0
  {
    (if Wanted(p, which) then [path] else []) + if p.HubAt? then Preorder(path, p.hub.ports, 1, which) else []
  }

  /** All ports are visited and all hubs opened, both in preorder. */
  ghost function Whole(at: Place, ports: seq<Port>, first: nat): Replayed {
    Replayed(Preorder(at.path, ports, first, AllPorts), Preorder(at.path, ports, first, Hubs), at)
  }

  ghost predicate StandsAt(place: Place, h: Handle, next: Handle, depth: nat) {
    && place.handles != [] && place.handles[|place.handles| - 1] == h && |place.path| == depth
    && forall c :: c in place.handles ==> c < next
  }

  /**
   * The traversal of a hub fits its place throughout - every event is about the
   * innermost open hub, at its true depth, and handles are closed in nested
   * order - ends where it began, visits the ports in preorder, and opens the
   * hubs in preorder.
   */
  lemma {:induction false} TraversalIsPreorder(ports: seq<Port>, first: nat, h: Handle, next: Handle, depth: nat,
                                               at: Place)
    requires ValidPorts(ports) && StandsAt(at, h, next, depth)
    ensures Replay(PortsTrace(ports, first, h, next, depth).events, at) == Some(Whole(at, ports, first))
    decreases ports, 1
  {
    if ports != [] {
      var one := PortTrace(ports[0], first, h, next, depth);
      PortIsPreorder(ports[0], first, h, next, depth, at);
      PortHandlesInTurn(ports[0], first, h, next, depth);
      TraversalIsPreorder(ports[1..], first + 1, h, one.next, depth, at);
      ReplayConcat(one.events, PortsTrace(ports[1..], first + 1, h, one.next, depth).events, at);
    }
  }

  lemma {:induction false} PortIsPreorder(p: Port, port: nat, h: Handle, next: Handle, depth: nat, at: Place)
    requires ValidPort(p) && StandsAt(at, h, next, depth)
    ensures Replay(PortTrace(p, port, h, next, depth).events, at)
         == Some(Replayed(PortPreorder(at.path + [port], p, AllPorts), PortPreorder(at.path + [port], p, Hubs), at))
    decreases p, 0
  {
    var visit := [Visit(h, port, depth)];
    ReplayOne(Visit(h, port, depth), at);
    EmptyConcat([at.path + [port]]);
    EmptyConcat<seq<nat>>([]);
    match p
    case Vacant(_) =>
    case Io(d) =>
      DeviceStill(port, d);
      ReplayStill(DeviceTrace(port, d), at);
      ReplayConcat(visit, DeviceTrace(port, d), at);
    case HubAt(hub) =>
      var inside := Place(at.handles + [next], at.path + [port]);
      assert StandsAt(inside, next, next + 1, depth + 1);
      TraversalIsPreorder(hub.ports, 1, next, next + 1, depth + 1, inside);
      EnterAndLeave(hub.ports, port, h, next, depth, at, inside);
  }

  lemma EnterAndLeave(ports: seq<Port>, port: nat, h: Handle, next: Handle, depth: nat, at: Place, inside: Place)
    requires ValidPorts(ports) && StandsAt(at, h, next, depth)
    requires inside == Place(at.handles + [next], at.path + [port])
    requires Replay(PortsTrace(ports, 1, next, next + 1, depth + 1).events, inside)
          == Some(Whole(inside, ports, 1))
    ensures Replay([Visit(h, port, depth), Open(h, port, next)] + PortsTrace(ports, 1, next, next + 1, depth + 1).events
                   + [Close(next)], at)
         == Some(Replayed([inside.path] + Preorder(inside.path, ports, 1, AllPorts),
                          [inside.path] + Preorder(inside.path, ports, 1, Hubs), at))
  {
    var visit, opens, closes := [Visit(h, port, depth)], [Open(h, port, next)], [Close(next)];
    var inner := PortsTrace(ports, 1, next, next + 1, depth + 1).events;
    assert next !in at.handles;
    assert inside.handles[..|inside.handles| - 1] == at.handles;
    assert inside.path[..|inside.path| - 1] == at.path;
    ReplayOne(Visit(h, port, depth), at);
    ReplayOne(Open(h, port, next), at);
    ReplayOne(Close(next), inside);
    ReplayConcat(visit, opens, at);
    EmptyConcat([inside.path]);
    ReplayConcat(visit + opens, inner, at);
    ReplayConcat(visit + opens + inner, closes, at);
    EmptyConcat([inside.path] + Preorder(inside.path, ports, 1, AllPorts));
    EmptyConcat([inside.path] + Preorder(inside.path, ports, 1, Hubs));
    assert visit + opens == [Visit(h, port, depth), Open(h, port, next)];
  }

  lemma ReplayOne(e: Event, at: Place)
    requires Fits(e, at)
    ensures Replay([e], at)
         == Some(Replayed(if e.Visit? then [Address(e, at)] else [], if e.Open? then [Address(e, at)] else [],
                          Move(e, at)))
  {
    assert [e][1..] == [];
    if e.Visit? || e.Open? {
      EmptyConcat([Address(e, at)]);
    }
  }

  /** Is this the address of a wanted port: port numbers leading through hubs to it? */
  ghost predicate IsAddress(ports: seq<Port>, first: nat, address: seq<nat>, which: Which)
    decreases |address|
  {
    && address != [] && first <= address[0] < first + |ports|
    && var p := ports[address[0] - first];
       if |address| == 1 then Wanted(p, which) else p.HubAt? && IsAddress(p.hub.ports, 1, address[1..], which)
  }

  /** The order of a traversal: an address comes before those below it, and siblings by port number. */
  predicate Before(a: seq<nat>, b: seq<nat>) {
    if b == [] then false
    else a == [] || a[0] < b[0] || (a[0] == b[0] && Before(a[1..], b[1..]))
  }

  ghost predicate InOrder(addresses: seq<seq<nat>>) {
    forall i, j :: 0 <= i < j < |addresses| ==> Before(addresses[i], addresses[j])
  }

  lemma {:induction false} BeforeUnderPath(path: seq<nat>, a: seq<nat>, b: seq<nat>)
    ensures Before(path + a, path + b) <==> Before(a, b)
  {
    if path == [] {
      EmptyConcat(a);
      EmptyConcat(b);
    } else {
      HeadTail(path, a);
      HeadTail(path, b);
      BeforeUnderPath(path[1..], a, b);
    }
  }

  lemma {:induction false} NotBeforeItself(a: seq<nat>)
    ensures !Before(a, a)
  {
    if a != [] {
      NotBeforeItself(a[1..]);
    }
  }

  /** Every listed address is the path followed by an address below it. */
  lemma {:induction false} PreorderMember(path: seq<nat>, ports: seq<Port>, first: nat, which: Which, k: nat)
    requires k < |Preorder(path, ports, first, which)|
    ensures var a := Preorder(path, ports, first, which)[k];
            |path| < |a| && a[..|path|] == path && IsAddress(ports, first, a[|path|..], which)
    decreases ports, 1
  {
    var own := PortPreorder(path + [first], ports[0], which);
    if k < |own| {
      var a := own[k];
      PortMember(path + [first], ports[0], which, k);
      assert a[..|path| + 1] == path + [first];
      assert a[|path|..][1..] == a[|path| + 1..];
      assert a[|path|..][0] == a[..|path| + 1][|path|] == first;
      assert a[..|path|] == a[..|path| + 1][..|path|] == path;
    } else {
      PreorderMember(path, ports[1..], first + 1, which, k - |own|);
      var a := Preorder(path, ports[1..], first + 1, which)[k - |own|];
      AddressInTail(ports, first, a[|path|..], which);
    }
  }

  lemma AddressInTail(ports: seq<Port>, first: nat, address: seq<nat>, which: Which)
    requires ports != [] && address != [] && address[0] != first
    ensures IsAddress(ports, first, address, which) <==> IsAddress(ports[1..], first + 1, address, which)
  {
  }

  /** Every address is listed. */
  lemma {:induction false} AddressListed(path: seq<nat>, ports: seq<Port>, first: nat, address: seq<nat>,
                                         which: Which)
    requires IsAddress(ports, first, address, which)
    ensures path + address in Preorder(path, ports, first, which)
    decreases |address|, |ports|
  {
    var own := PortPreorder(path + [first], ports[0], which);
    if address[0] == first {
      if |address| == 1 {
        assert address == [first];
        assert own[0] == path + address;
      } else {
        AddressListed(path + [first], ports[0].hub.ports, 1, address[1..], which);
        assert address == [first] + address[1..];
        Assoc(path, [first], address[1..]);
        assert path + address in own;
      }
    } else {
      AddressInTail(ports, first, address, which);
      AddressListed(path, ports[1..], first + 1, address, which);
    }
  }

  lemma {:induction false} PreorderInOrder(path: seq<nat>, ports: seq<Port>, first: nat, which: Which)
    ensures InOrder(Preorder(path, ports, first, which))
    decreases ports, 1
  {
    if ports != [] {
      var own := PortPreorder(path + [first], ports[0], which);
      var rest := Preorder(path, ports[1..], first + 1, which);
      PortInOrder(path + [first], ports[0], which);
      PreorderInOrder(path, ports[1..], first + 1, which);
      forall i, j | 0 <= i < |own| && 0 <= j < |rest| ensures Before(own[i], rest[j]) {
        PortMember(path + [first], ports[0], which, i);
        PreorderMember(path, ports[1..], first + 1, which, j);
        var x, y := own[i][|path|..], rest[j][|path|..];
        assert own[i] == path + x by {
          assert own[i][..|path|] == own[i][..|path| + 1][..|path|] == path;
        }
        assert rest[j] == path + y;
        assert x[0] == own[i][..|path| + 1][|path|] == first;
        BeforeUnderPath(path, x, y);
      }
    }
  }

  lemma {:induction false} PortMember(path: seq<nat>, p: Port, which: Which, k: nat)
    requires k < |PortPreorder(path, p, which)|
    ensures var a := PortPreorder(path, p, which)[k];
            && |path| <= |a| && a[..|path|] == path
            && (if |path| == |a| then Wanted(p, which) else p.HubAt? && IsAddress(p.hub.ports, 1, a[|path|..], which))
    decreases p, 0
  {
    if !(k == 0 && Wanted(p, which)) {
      PreorderMember(path, p.hub.ports, 1, which, if Wanted(p, which) then k - 1 else k);
    }
  }

  lemma {:induction false} PortInOrder(path: seq<nat>, p: Port, which: Which)
    ensures InOrder(PortPreorder(path, p, which))
    decreases p, 0
  {
    if p.HubAt? {
      var inner := Preorder(path, p.hub.ports, 1, which);
      PreorderInOrder(path, p.hub.ports, 1, which);
      forall j | 0 <= j < |inner| ensures Before(path, inner[j]) {
        PreorderMember(path, p.hub.ports, 1, which, j);
        var y := inner[j][|path|..];
        assert inner[j] == path + y;
        EmptyConcat(path);
        BeforeUnderPath(path, [], y);
      }
    }
  }

  /** The listed addresses are exactly those of the tree, in its order, each once. */
  lemma PreorderExact(ports: seq<Port>, first: nat, which: Which)
    ensures InOrder(Preorder([], ports, first, which))
    ensures forall a :: a in Preorder([], ports, first, which) <==> IsAddress(ports, first, a, which)
    ensures Distinct(Preorder([], ports, first, which))
  {
    var listed := Preorder([], ports, first, which);
    PreorderInOrder([], ports, first, which);
    forall a ensures a in listed <==> IsAddress(ports, first, a, which) {
      if a in listed {
        var k :| 0 <= k < |listed| && listed[k] == a;
        PreorderMember([], ports, first, which, k);
        assert a[0..] == a;
      }
      if IsAddress(ports, first, a, which) {
        AddressListed([], ports, first, a, which);
        EmptyConcat(a);
      }
    }
    forall i, j | 0 <= i < j < |listed| ensures listed[i] != listed[j] {
      NotBeforeItself(listed[i]);
    }
  }

  ghost predicate Distinct<T>(s: seq<T>) {
    forall i, j :: 0 <= i < j < |s| ==> s[i] != s[j]
  }

  /** The handles given out, and those closed, in the order of the trace. */
  function OpenedHandles(events: seq<Event>): seq<Handle> {
    if events == [] then []
    else (if events[0].Open? then [events[0].child] else []) + OpenedHandles(events[1..])
  }

  function ClosedHandles(events: seq<Event>): seq<Handle> {
    if events == [] then []
    else (if events[0].Close? then [events[0].child] else []) + ClosedHandles(events[1..])
  }

  lemma {:induction false} HandlesConcat(a: seq<Event>, b: seq<Event>)
    ensures OpenedHandles(a + b) == OpenedHandles(a) + OpenedHandles(b)
    ensures ClosedHandles(a + b) == ClosedHandles(a) + ClosedHandles(b)
  {
    if a == [] {
      EmptyConcat(b);
      EmptyConcat(OpenedHandles(b));
      EmptyConcat(ClosedHandles(b));
    } else {
      HeadTail(a, b);
      HandlesConcat(a[1..], b);
      Assoc(if a[0].Open? then [a[0].child] else [], OpenedHandles(a[1..]), OpenedHandles(b));
      Assoc(if a[0].Close? then [a[0].child] else [], ClosedHandles(a[1..]), ClosedHandles(b));
    }
  }

  lemma {:induction false} StillHandles(events: seq<Event>)
    requires Still(events)
    ensures OpenedHandles(events) == [] && ClosedHandles(events) == []
  {
    if events != [] {
      assert events[0] in events;
      StillHandles(events[1..]);
    }
  }

  /** The numbers from a on, below b. */
  function Range(a: nat, b: nat): (r: seq<nat>)
    requires a <= b
    ensures |r| == b - a && forall i :: 0 <= i < |r| ==> r[i] == a + i
  {
    seq(b - a, i => a + i)
  }

  lemma RangeConcat(a: nat, b: nat, c: nat)
    requires a <= b <= c
    ensures Range(a, b) + Range(b, c) == Range(a, c)
    ensures a < b ==> [a] + Range(a + 1, b) == Range(a, b)
  {
  }

  /** Handles are given out one after the other, none twice, and all are closed, each once. */
  lemma {:induction false} HandlesInTurn(ports: seq<Port>, first: nat, h: Handle, next: Handle, depth: nat)
    requires ValidPorts(ports)
    ensures var t := PortsTrace(ports, first, h, next, depth);
            && t.next >= next && OpenedHandles(t.events) == Range(next, t.next)
            && multiset(ClosedHandles(t.events)) == multiset(Range(next, t.next))
    decreases ports, 1
  {
    if ports != [] {
      var one := PortTrace(ports[0], first, h, next, depth);
      var rest := PortsTrace(ports[1..], first + 1, h, one.next, depth);
      PortHandlesInTurn(ports[0], first, h, next, depth);
      HandlesInTurn(ports[1..], first + 1, h, one.next, depth);
      HandlesConcat(one.events, rest.events);
      RangeConcat(next, one.next, rest.next);
      ConcatMultiset(ClosedHandles(one.events), ClosedHandles(rest.events));
      ConcatMultiset(Range(next, one.next), Range(one.next, rest.next));
    }
  }

  lemma {:induction false} PortHandlesInTurn(p: Port, port: nat, h: Handle, next: Handle, depth: nat)
    requires ValidPort(p)
    ensures var t := PortTrace(p, port, h, next, depth);
            && t.next >= next && OpenedHandles(t.events) == Range(next, t.next)
            && multiset(ClosedHandles(t.events)) == multiset(Range(next, t.next))
    decreases p, 0
  {
    var visit := [Visit(h, port, depth)];
    StillHandlesOfOne(Visit(h, port, depth));
    match p
    case Vacant(_) =>
    case Io(d) =>
      DeviceStill(port, d);
      StillHandles(DeviceTrace(port, d));
      HandlesConcat(visit, DeviceTrace(port, d));
    case HubAt(hub) =>
      var inner := PortsTrace(hub.ports, 1, next, next + 1, depth + 1);
      HandlesInTurn(hub.ports, 1, next, next + 1, depth + 1);
      HubHandles(Visit(h, port, depth), Open(h, port, next), inner.events, Close(next));
      RangeConcat(next, inner.next, inner.next);
      ConcatMultiset([next], Range(next + 1, inner.next));
      ConcatMultiset(ClosedHandles(inner.events), [next]);
  }

  lemma StillHandlesOfOne(e: Event)
    ensures OpenedHandles([e]) == if e.Open? then [e.child] else []
    ensures ClosedHandles([e]) == if e.Close? then [e.child] else []
  {
    assert [e][1..] == [];
  }

  lemma HubHandles(visit: Event, open: Event, inner: seq<Event>, close: Event)
    requires visit.Visit? && open.Open? && close.Close?
    ensures OpenedHandles([visit, open] + inner + [close]) == [open.child] + OpenedHandles(inner)
    ensures ClosedHandles([visit, open] + inner + [close]) == ClosedHandles(inner) + [close.child]
  {
    assert [visit, open] == [visit] + [open];
    StillHandlesOfOne(visit);
    StillHandlesOfOne(open);
    StillHandlesOfOne(close);
    HandlesConcat([visit], [open]);
    HandlesConcat([visit, open], inner);
    HandlesConcat([visit, open] + inner, [close]);
    EmptyConcat([open.child] + OpenedHandles(inner));
    EmptyConcat(ClosedHandles(inner));
  }

  /**
   * A traversal from the root visits exactly the addresses of the tree, each
   * once, in the order of the tree, and ends with only the root hub open.
   */
  lemma EveryPortOnce(hub: Hub, root: Handle)
    requires ValidHub(hub)
    ensures var at := Place([root], []);
            var r := Replay(PortsTrace(hub.ports, 1, root, root + 1, 0).events, at);
            && r.Some? && r.value.place == at
            && InOrder(r.value.visited) && Distinct(r.value.visited)
            && (forall a :: a in r.value.visited <==> IsAddress(hub.ports, 1, a, AllPorts))
  {
    TraversalIsPreorder(hub.ports, 1, root, root + 1, 0, Place([root], []));
    PreorderExact(hub.ports, 1, AllPorts);
  }

  /**
   * It opens exactly the hubs of the tree, each once, in the order of the
   * tree; every handle it is given is a new one, and is closed once.
   */
  lemma EveryHubOnce(hub: Hub, root: Handle)
    requires ValidHub(hub)
    ensures var events := PortsTrace(hub.ports, 1, root, root + 1, 0).events;
            var r := Replay(events, Place([root], []));
            && r.Some?
            && InOrder(r.value.entered) && Distinct(r.value.entered)
            && (forall a :: a in r.value.entered <==> IsAddress(hub.ports, 1, a, Hubs))
            && Distinct(OpenedHandles(events)) && root !in OpenedHandles(events)
            && multiset(ClosedHandles(events)) == multiset(OpenedHandles(events))
  {
    TraversalIsPreorder(hub.ports, 1, root, root + 1, 0, Place([root], []));
    PreorderExact(hub.ports, 1, Hubs);
    HandlesInTurn(hub.ports, 1, root, root + 1, 0);
  }
}
