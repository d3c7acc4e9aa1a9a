/**
 * What a traversal says of each device: the trace of a whole tree, cut at every
 * move from one port or hub to another, tied to the tree itself.
 */
module PortReports {
  import opened Wrappers
  import opened Sequences
  import opened UsbDescriptors
  import opened HubTree
  import opened HubTraversal

  // ------------------------------------------------------ cutting a trace at its moves

  predicate Moves(e: Event) {
    e.Visit? || e.Open? || e.Close?
  }

  /** What is said before the next move. */
  function Leading(events: seq<Event>): seq<Event> {
    if events == [] || Moves(events[0]) then [] else [events[0]] + Leading(events[1..])
  }

  /** The port or hub that the traversal is at after a move. */
  function Where(e: Event, at: Place): seq<nat>
    requires Moves(e) && Fits(e, at)
  {
    if e.Close? then Move(e, at).path else Address(e, at)
  }

  datatype Report = Report(address: seq<nat>, said: seq<Event>)

  /** Wherever something is said: at which address, and what. */
  function Reports(events: seq<Event>, at: Place): seq<Report>
    requires Replay(events, at).Some?
  {
    if events == [] then []
    else
      var said := Leading(events[1..]);
      (if Moves(events[0]) && said != [] then [Report(Where(events[0], at), said)] else [])
      + Reports(events[1..], Move(events[0], at))
  }

  lemma {:induction false} LeadingConcat(a: seq<Event>, b: seq<Event>)
    requires Leading(b) == []
    ensures Leading(a + b) == Leading(a)
  {
    if a == [] {
      EmptyConcat(b);
    } else {
      HeadTail(a, b);
      LeadingConcat(a[1..], b);
    }
  }

  lemma {:induction false} ReportsConcat(a: seq<Event>, b: seq<Event>, at: Place)
    requires Replay(a, at).Some? && Replay(b, Replay(a, at).value.place).Some? && Leading(b) == []
    ensures Replay(a + b, at).Some?
    ensures Reports(a + b, at) == Reports(a, at) + Reports(b, Replay(a, at).value.place)
    decreases |a|
  {
    ReplayConcat(a, b, at);
    if a == [] {
      EmptyConcat(b);
      EmptyConcat(Reports(b, at));
    } else {
      HeadTail(a, b);
      var at' := Move(a[0], at);
      ReportsConcat(a[1..], b, at');
      LeadingConcat(a[1..], b);
      var said := Leading(a[1..]);
      Assoc(if Moves(a[0]) && said != [] then [Report(Where(a[0], at), said)] else [], Reports(a[1..], at'),
            Reports(b, Replay(a, at).value.place));
    }
  }

  lemma {:induction false} StillLeading(events: seq<Event>)
    requires Still(events)
    ensures Leading(events) == events
  {
    if events != [] {
      assert events[0] in events;
      StillLeading(events[1..]);
      ConsHeadTail(events);
    }
  }

  lemma {:induction false} StillReports(events: seq<Event>, at: Place)
    requires Still(events)
    ensures Replay(events, at).Some? && Reports(events, at) == []
  {
    ReplayStill(events, at);
    if events != [] {
      assert events[0] in events;
      StillReports(events[1..], at);
    }
  }

  /** A move and what is said after it. */
  lemma MoveReports(e: Event, said: seq<Event>, at: Place)
    requires Moves(e) && Fits(e, at) && Still(said)
    ensures Replay([e] + said, at).Some?
    ensures Reports([e] + said, at) == if said == [] then [] else [Report(Where(e, at), said)]
  {
    HeadTail([e], said);
    assert [e][1..] == [];
    EmptyConcat(said);
    StillLeading(said);
    StillReports(said, Move(e, at));
    ReplayStill(said, Move(e, at));
    EmptyConcat(if said == [] then [] else [Report(Where(e, at), said)]);
  }

  // ------------------------------------------------------- what is said of one device

  /** What is said apart from the requests for strings. */
  function Told(events: seq<Event>): seq<Event> {
    if events == [] then []
    else (if events[0].GetLanguage? || events[0].GetString? then [] else [events[0]]) + Told(events[1..])
  }

  lemma {:induction false} ToldConcat(a: seq<Event>, b: seq<Event>)
    ensures Told(a + b) == Told(a) + Told(b)
  {
    if a == [] {
      EmptyConcat(b);
      EmptyConcat(Told(b));
    } else {
      HeadTail(a, b);
      ToldConcat(a[1..], b);
      Assoc(if a[0].GetLanguage? || a[0].GetString? then [] else [a[0]], Told(a[1..]), Told(b));
    }
  }

  function ShownAll(ds: seq<Descriptor>): (r: seq<Event>)
    ensures |r| == |ds| && forall i :: 0 <= i < |ds| ==> r[i] == Shown(ds[i])
  {
    seq(|ds|, i requires 0 <= i < |ds| => Shown(ds[i]))
  }

  /** After these things have been told and these strings asked for, this is told next. */
  ghost predicate ToldAfter(said: seq<Event>, k: nat, next: Event, told: seq<Event>, asked: seq<Event>) {
    k < |said| && said[k] == next && Told(said[..k]) == told && Asked(said[..k]) == asked
  }

  ghost predicate ToldSomewhere(said: seq<Event>, next: Event, told: seq<Event>, asked: seq<Event>) {
    exists k :: ToldAfter(said, k, next, told, asked)
  }

  /** The string requests for the first indices of a device. */
  function RequestsFor(port: nat, d: Device, indices: seq<Byte>): seq<Event> {
    StringRequests(port, d.language, 0, indices)
  }

  /** The device descriptor and the request for the configuration, as they are told. */
  function Opening(port: nat, d: Device): seq<Event>
    requires |d.descriptor| == 18
  {
    [ShownDevice(DecodeDevice(d.descriptor)), GetConfiguration(port)]
  }

  /**
   * A device is described in full: its descriptor is shown, its configuration
   * asked for, and every descriptor of that shown, in order and once; the
   * strings asked for are those of its indices, in order; and each descriptor
   * is shown when the strings up to its own have been asked for.
   */
  ghost predicate Describes(port: nat, d: Device, said: seq<Event>) {
    && |d.descriptor| == 18
    && var own, ds := DeviceStringIndices(d.descriptor), Walk(d.configuration, 0);
       && Told(said) == Opening(port, d) + ShownAll(ds)
       && Asked(said) == RequestsFor(port, d, own + StringIndices(ds))
       && ToldSomewhere(said, Opening(port, d)[0], [], RequestsFor(port, d, own))
       && forall j {:trigger ds[j]} :: 0 <= j < |ds| ==>
            ToldSomewhere(said, Shown(ds[j]), Opening(port, d) + ShownAll(ds[..j]),
                          RequestsFor(port, d, own + StringIndices(ds[..j + 1])))
  }

  lemma {:induction false} ToldOfRequests(port: nat, language: Ushort, known: Ushort, indices: seq<Byte>)
    ensures Told(StringRequests(port, language, known, indices)) == []
    decreases |indices|
  {
    if indices != [] {
      var next := NextLanguage(language, known, indices[0]);
      ToldOfRequest(port, language, known, indices[0]);
      ToldOfRequests(port, language, next, indices[1..]);
      ToldConcat(StringRequest(port, language, known, indices[0]), StringRequests(port, language, next, indices[1..]));
    }
  }

  lemma ToldOfRequest(port: nat, language: Ushort, known: Ushort, index: Byte)
    ensures Told(StringRequest(port, language, known, index)) == []
  {
    if index != 0 {
      var id := NextLanguage(language, known, index);
      var ask := [GetString(port, index, id % 256, id / 256)];
      assert ask[1..] == [] && [GetLanguage(port)][1..] == [];
      ToldConcat([GetLanguage(port)], ask);
    }
  }

  /** The configuration part, cut after some of its descriptors. */
  lemma {:induction false} ConfigurationConcat(port: nat, language: Ushort, known: Ushort, a: seq<Descriptor>,
                                               b: seq<Descriptor>)
    ensures var known' := LanguageAfter(language, known, StringIndices(a));
            ConfigurationTrace(port, language, known, a + b)
            == ConfigurationTrace(port, language, known, a) + ConfigurationTrace(port, language, known', b)
    decreases |a|
  {
    if a == [] {
      EmptyConcat(b);
      EmptyConcat(ConfigurationTrace(port, language, known, b));
    } else {
      HeadTail(a, b);
      HeadTail([StringIndex(a[0])], StringIndices(a[1..]));
      EmptyConcat(StringIndices(a[1..]));
      var next := NextLanguage(language, known, StringIndex(a[0]));
      ConfigurationConcat(port, language, next, a[1..], b);
      Assoc(StringRequest(port, language, known, StringIndex(a[0])) + [Shown(a[0])],
            ConfigurationTrace(port, language, next, a[1..]),
            ConfigurationTrace(port, language, LanguageAfter(language, next, StringIndices(a[1..])), b));
    }
  }

  lemma ToldShown(d: Descriptor)
    ensures Told([Shown(d)]) == [Shown(d)]
  {
    assert [Shown(d)][1..] == [];
  }

  lemma ShownAllFirst(ds: seq<Descriptor>)
    requires ds != []
    ensures ShownAll(ds) == [Shown(ds[0])] + ShownAll(ds[1..])
  {
  }

  lemma {:induction false} ToldOfConfiguration(port: nat, language: Ushort, known: Ushort, ds: seq<Descriptor>)
    ensures Told(ConfigurationTrace(port, language, known, ds)) == ShownAll(ds)
    decreases |ds|
  {
    if ds != [] {
      var ask := StringRequest(port, language, known, StringIndex(ds[0]));
      var next := NextLanguage(language, known, StringIndex(ds[0]));
      var rest := ConfigurationTrace(port, language, next, ds[1..]);
      ToldOfConfiguration(port, language, next, ds[1..]);
      ToldOfRequest(port, language, known, StringIndex(ds[0]));
      ToldConcat(ask, [Shown(ds[0])]);
      ToldConcat(ask + [Shown(ds[0])], rest);
      ToldShown(ds[0]);
      EmptyConcat([Shown(ds[0])]);
      ShownAllFirst(ds);
    }
  }

  lemma {:induction false} StringIndicesConcat(a: seq<Descriptor>, b: seq<Descriptor>)
    ensures StringIndices(a + b) == StringIndices(a) + StringIndices(b)
  {
    if a == [] {
      EmptyConcat(b);
      EmptyConcat(StringIndices(b));
    } else {
      HeadTail(a, b);
      StringIndicesConcat(a[1..], b);
      Assoc([StringIndex(a[0])], StringIndices(a[1..]), StringIndices(b));
    }
  }

  /** The trace of a device up to its j-th descriptor, its own string included. */
  function UpTo(port: nat, d: Device, ds: seq<Descriptor>, index: Byte): seq<Event>
    requires |d.descriptor| == 18
  {
    var own := DeviceStringIndices(d.descriptor);
    var known := LanguageAfter(d.language, 0, own);
    var known' := LanguageAfter(d.language, known, StringIndices(ds));
    StringRequests(port, d.language, 0, own) + Opening(port, d)
    + ConfigurationTrace(port, d.language, known, ds) + StringRequest(port, d.language, known', index)
  }

  lemma ToldUpTo(port: nat, d: Device, ds: seq<Descriptor>, index: Byte)
    requires |d.descriptor| == 18
    ensures Told(UpTo(port, d, ds, index)) == Opening(port, d) + ShownAll(ds)
  {
    var own := DeviceStringIndices(d.descriptor);
    var known := LanguageAfter(d.language, 0, own);
    var first := StringRequests(port, d.language, 0, own);
    var mid := ConfigurationTrace(port, d.language, known, ds);
    var last := StringRequest(port, d.language, LanguageAfter(d.language, known, StringIndices(ds)), index);
    ToldOfRequests(port, d.language, 0, own);
    ToldOfConfiguration(port, d.language, known, ds);
    ToldOfRequest(port, d.language, LanguageAfter(d.language, known, StringIndices(ds)), index);
    ToldConcat(first, Opening(port, d));
    ToldConcat(first + Opening(port, d), mid);
    ToldConcat(first + Opening(port, d) + mid, last);
    ToldOpening(port, d);
    EmptyConcat(Opening(port, d));
    EmptyConcat(Opening(port, d) + ShownAll(ds));
  }

  lemma ToldOpening(port: nat, d: Device)
    requires |d.descriptor| == 18
    ensures Told(Opening(port, d)) == Opening(port, d) && Asked(Opening(port, d)) == []
  {
    var o := Opening(port, d);
    assert o[1..] == [o[1]] && [o[1]][1..] == [];
    assert Told([o[1]]) == [o[1]] && Asked([o[1]]) == [];
  }

  lemma AskedUpTo(port: nat, d: Device, ds: seq<Descriptor>, index: Byte)
    requires |d.descriptor| == 18
    ensures Asked(UpTo(port, d, ds, index))
         == RequestsFor(port, d, DeviceStringIndices(d.descriptor) + (StringIndices(ds) + [index]))
  {
    var own := DeviceStringIndices(d.descriptor);
    var known := LanguageAfter(d.language, 0, own);
    var known' := LanguageAfter(d.language, known, StringIndices(ds));
    var first := StringRequests(port, d.language, 0, own);
    var mid := ConfigurationTrace(port, d.language, known, ds);
    var last := StringRequest(port, d.language, known', index);
    AskedOfRequests(port, d.language, 0, own);
    AskedOfConfiguration(port, d.language, known, ds);
    AskedOfRequest(port, d.language, known', index);
    AskedConcat(first, Opening(port, d));
    AskedConcat(first + Opening(port, d), mid);
    AskedConcat(first + Opening(port, d) + mid, last);
    ToldOpening(port, d);
    EmptyConcat(first);
    OneRequest(port, d.language, known', index);
    RequestsConcat(port, d.language, known, StringIndices(ds), [index]);
    RequestsConcat(port, d.language, 0, own, StringIndices(ds) + [index]);
    Assoc(first, StringRequests(port, d.language, known, StringIndices(ds)), last);
  }

  lemma OneRequest(port: nat, language: Ushort, known: Ushort, index: Byte)
    ensures StringRequests(port, language, known, [index]) == StringRequest(port, language, known, index)
  {
    assert [index][1..] == [];
    EmptyConcat(StringRequest(port, language, known, index));
  }

  /** The trace of a device splits at each of its descriptors. */
  lemma DeviceSplit(port: nat, d: Device, j: nat) returns (rest: seq<Event>)
    requires |d.descriptor| == 18 && j < |Walk(d.configuration, 0)|
    ensures var ds := Walk(d.configuration, 0);
            DeviceTrace(port, d) == UpTo(port, d, ds[..j], StringIndex(ds[j])) + ([Shown(ds[j])] + rest)
  {
    var own, ds := DeviceStringIndices(d.descriptor), Walk(d.configuration, 0);
    var known := LanguageAfter(d.language, 0, own);
    var known' := LanguageAfter(d.language, known, StringIndices(ds[..j]));
    var x := StringRequests(port, d.language, 0, own) + Opening(port, d);
    var a, b := ConfigurationTrace(port, d.language, known, ds[..j]), ds[j..];
    var ask := StringRequest(port, d.language, known', StringIndex(ds[j]));
    rest := ConfigurationTrace(port, d.language, NextLanguage(d.language, known', StringIndex(ds[j])), b[1..]);
    assert ds == ds[..j] + b && b[0] == ds[j];
    ConfigurationConcat(port, d.language, known, ds[..j], b);
    assert ConfigurationTrace(port, d.language, known', b) == ask + [Shown(ds[j])] + rest;
    Assoc(ask, [Shown(ds[j])], rest);
    Assoc(x, a, ask + ([Shown(ds[j])] + rest));
    Assoc(x + a, ask, [Shown(ds[j])] + rest);
  }

  lemma ToldAt(x: seq<Event>, e: Event, rest: seq<Event>)
    ensures ToldAfter(x + ([e] + rest), |x|, e, Told(x), Asked(x))
  {
    assert (x + ([e] + rest))[..|x|] == x;
  }

  lemma DescriptorInStep(port: nat, d: Device, j: nat)
    requires |d.descriptor| == 18 && j < |Walk(d.configuration, 0)|
    ensures var own, ds := DeviceStringIndices(d.descriptor), Walk(d.configuration, 0);
            ToldSomewhere(DeviceTrace(port, d), Shown(ds[j]), Opening(port, d) + ShownAll(ds[..j]),
                          RequestsFor(port, d, own + StringIndices(ds[..j + 1])))
  {
    var ds := Walk(d.configuration, 0);
    var rest := DeviceSplit(port, d, j);
    var x := UpTo(port, d, ds[..j], StringIndex(ds[j]));
    ToldAt(x, Shown(ds[j]), rest);
    ToldUpTo(port, d, ds[..j], StringIndex(ds[j]));
    AskedUpTo(port, d, ds[..j], StringIndex(ds[j]));
    assert ds[..j + 1] == ds[..j] + [ds[j]];
    StringIndicesConcat(ds[..j], [ds[j]]);
    assert StringIndices([ds[j]]) == [StringIndex(ds[j])] by {
      assert [ds[j]][1..] == [];
    }
  }

  lemma OpeningInStep(port: nat, d: Device)
    requires |d.descriptor| == 18
    ensures ToldSomewhere(DeviceTrace(port, d), Opening(port, d)[0], [],
                          RequestsFor(port, d, DeviceStringIndices(d.descriptor)))
  {
    var own := DeviceStringIndices(d.descriptor);
    var first := StringRequests(port, d.language, 0, own);
    var tail := ConfigurationTrace(port, d.language, LanguageAfter(d.language, 0, own), Walk(d.configuration, 0));
    var o := Opening(port, d);
    assert o == [o[0]] + [o[1]];
    Assoc(first, o, tail);
    Assoc([o[0]], [o[1]], tail);
    ToldAt(first, o[0], [o[1]] + tail);
    ToldOfRequests(port, d.language, 0, own);
    AskedOfRequests(port, d.language, 0, own);
  }

  /** What is said at the port of a device describes it. */
  lemma DeviceDescribed(port: nat, d: Device)
    requires |d.descriptor| == 18
    ensures Describes(port, d, DeviceTrace(port, d)) && DeviceTrace(port, d) != []
  {
    var own, ds := DeviceStringIndices(d.descriptor), Walk(d.configuration, 0);
    var known := LanguageAfter(d.language, 0, own);
    ToldUpTo(port, d, ds, 0);
    EmptyConcat(StringRequests(port, d.language, 0, own) + Opening(port, d)
                + ConfigurationTrace(port, d.language, known, ds));
    AskedOfDevice(port, d);
    OpeningInStep(port, d);
    forall j {:trigger ds[j]} | 0 <= j < |ds|
      ensures ToldSomewhere(DeviceTrace(port, d), Shown(ds[j]), Opening(port, d) + ShownAll(ds[..j]),
                            RequestsFor(port, d, own + StringIndices(ds[..j + 1])))
    {
      DescriptorInStep(port, d, j);
    }
  }

  // --------------------------------------------------------- the devices of the tree

  /** A device and the address of its port. */
  datatype Found = Found(address: seq<nat>, device: Device)

  /** The devices below a hub, in the order of the tree. */
  ghost function DeviceList(path: seq<nat>, ports: seq<Port>, first: nat): seq<Found>
    decreases ports, 1
  {
    if ports == [] then []
    else PortDevices(path + [first], ports[0]) + DeviceList(path, ports[1..], first + 1)
  }

  ghost function PortDevices(path: seq<nat>, p: Port): seq<Found>
    decreases p, 0
  {
    match p
    case Vacant(_) => []
    case Io(d) => [Found(path, d)]
    case HubAt(hub) => DeviceList(path, hub.ports, 1)
  }

  /** Each report is of the address of the device of the same number, and describes it. */
  ghost predicate Spoken(reports: seq<Report>, devices: seq<Found>) {
    && |reports| == |devices|
    && forall i :: 0 <= i < |reports| ==>
         && reports[i].address == devices[i].address && reports[i].address != []
         && Describes(reports[i].address[|reports[i].address| - 1], devices[i].device, reports[i].said)
  }

  lemma SpokenConcat(a: seq<Report>, b: seq<Report>, x: seq<Found>, y: seq<Found>)
    requires Spoken(a, x) && Spoken(b, y)
    ensures Spoken(a + b, x + y)
  {
    forall i | 0 <= i < |a + b|
      ensures (a + b)[i] == if i < |a| then a[i] else b[i - |a|]
      ensures (x + y)[i] == if i < |a| then x[i] else y[i - |a|]
    {
    }
  }

  lemma LeadingTrace(ports: seq<Port>, first: nat, h: Handle, next: Handle, depth: nat)
    requires ValidPorts(ports)
    ensures Leading(PortsTrace(ports, first, h, next, depth).events) == []
  {
    if ports != [] {
      var one := PortTrace(ports[0], first, h, next, depth);
      assert one.events[0] == Visit(h, first, depth);
      HeadTail(one.events, PortsTrace(ports[1..], first + 1, h, one.next, depth).events);
    }
  }

  /** Over the trace of a hub's ports: something is said at the devices and nowhere else, and describes them. */
  lemma {:induction false} PortsDescribed(ports: seq<Port>, first: nat, h: Handle, next: Handle, depth: nat, at: Place)
    requires ValidPorts(ports) && StandsAt(at, h, next, depth)
    ensures Replay(PortsTrace(ports, first, h, next, depth).events, at).Some?
    ensures Spoken(Reports(PortsTrace(ports, first, h, next, depth).events, at), DeviceList(at.path, ports, first))
    decreases ports, 1
  {
    if ports != [] {
      var one := PortTrace(ports[0], first, h, next, depth);
      var rest := PortsTrace(ports[1..], first + 1, h, one.next, depth);
      PortIsPreorder(ports[0], first, h, next, depth, at);
      PortHandlesInTurn(ports[0], first, h, next, depth);
      PortDescribed(ports[0], first, h, next, depth, at);
      TraversalIsPreorder(ports[1..], first + 1, h, one.next, depth, at);
      PortsDescribed(ports[1..], first + 1, h, one.next, depth, at);
      LeadingTrace(ports[1..], first + 1, h, one.next, depth);
      ReportsConcat(one.events, rest.events, at);
      SpokenConcat(Reports(one.events, at), Reports(rest.events, at), PortDevices(at.path + [first], ports[0]),
                   DeviceList(at.path, ports[1..], first + 1));
    }
  }

  lemma {:induction false} PortDescribed(p: Port, port: nat, h: Handle, next: Handle, depth: nat, at: Place)
    requires ValidPort(p) && StandsAt(at, h, next, depth)
    ensures Replay(PortTrace(p, port, h, next, depth).events, at).Some?
    ensures Spoken(Reports(PortTrace(p, port, h, next, depth).events, at), PortDevices(at.path + [port], p))
    decreases p, 0
  {
    match p
    case Vacant(_) =>
      MoveReports(Visit(h, port, depth), [], at);
      EmptyConcat([Visit(h, port, depth)]);
    case Io(d) =>
      PortOfDevice(d, port, h, next, depth, at);
    case HubAt(hub) =>
      var inside := Place(at.handles + [next], at.path + [port]);
      PortsDescribed(hub.ports, 1, next, next + 1, depth + 1, inside);
      HubReports(hub.ports, port, h, next, depth, at, inside);
  }

  lemma PortOfDevice(d: Device, port: nat, h: Handle, next: Handle, depth: nat, at: Place)
    requires |d.descriptor| == 18 && StandsAt(at, h, next, depth)
    ensures var events := [Visit(h, port, depth)] + DeviceTrace(port, d);
            Replay(events, at).Some? && Spoken(Reports(events, at), [Found(at.path + [port], d)])
  {
    DeviceStill(port, d);
    MoveReports(Visit(h, port, depth), DeviceTrace(port, d), at);
    DeviceDescribed(port, d);
  }

  /** Nothing is said on the way into a hub. */
  lemma EntryReports(port: nat, h: Handle, next: Handle, depth: nat, at: Place, inside: Place)
    requires StandsAt(at, h, next, depth) && inside == Place(at.handles + [next], at.path + [port])
    ensures var entry := [Visit(h, port, depth), Open(h, port, next)];
            && Replay(entry, at).Some? && Replay(entry, at).value.place == inside
            && Reports(entry, at) == []
  {
    var visit, opens := [Visit(h, port, depth)], [Open(h, port, next)];
    assert next !in at.handles;
    ReplayOne(Visit(h, port, depth), at);
    ReplayOne(Open(h, port, next), at);
    MoveReports(Visit(h, port, depth), [], at);
    MoveReports(Open(h, port, next), [], at);
    EmptyConcat(visit);
    EmptyConcat(opens);
    ReplayConcat(visit, opens, at);
    ReportsConcat(visit, opens, at);
    assert visit + opens == [Visit(h, port, depth), Open(h, port, next)];
  }

  /** Nor on the way out. */
  lemma ExitReports(port: nat, next: Handle, at: Place, inside: Place)
    requires at.handles != [] && inside == Place(at.handles + [next], at.path + [port])
    ensures Replay([Close(next)], inside).Some? && Reports([Close(next)], inside) == []
    ensures Leading([Close(next)]) == []
  {
    ReplayOne(Close(next), inside);
    MoveReports(Close(next), [], inside);
    EmptyConcat([Close(next)]);
  }

  lemma HubReports(ports: seq<Port>, port: nat, h: Handle, next: Handle, depth: nat, at: Place, inside: Place)
    requires ValidPorts(ports) && StandsAt(at, h, next, depth)
    requires inside == Place(at.handles + [next], at.path + [port])
    ensures var inner := PortsTrace(ports, 1, next, next + 1, depth + 1).events;
            var all := [Visit(h, port, depth), Open(h, port, next)] + inner + [Close(next)];
            && Replay(all, at).Some? && Replay(inner, inside).Some?
            && Reports(all, at) == Reports(inner, inside)
  {
    var entry, closes := [Visit(h, port, depth), Open(h, port, next)], [Close(next)];
    var inner := PortsTrace(ports, 1, next, next + 1, depth + 1).events;
    TraversalIsPreorder(ports, 1, next, next + 1, depth + 1, inside);
    EntryReports(port, h, next, depth, at, inside);
    ExitReports(port, next, at, inside);
    LeadingTrace(ports, 1, next, next + 1, depth + 1);
    ReplayConcat(entry, inner, at);
    ReportsConcat(entry, inner, at);
    ReportsConcat(entry + inner, closes, at);
    EmptyConcat(Reports(inner, inside));
  }

  // -------------------------------------------------------------- the reference again

  /** The addresses of the devices are the wanted addresses of the tree. */
  lemma {:induction false} DeviceAddresses(path: seq<nat>, ports: seq<Port>, first: nat)
    ensures |DeviceList(path, ports, first)| == |Preorder(path, ports, first, Devices)|
    ensures forall i :: 0 <= i < |DeviceList(path, ports, first)| ==>
              DeviceList(path, ports, first)[i].address == Preorder(path, ports, first, Devices)[i]
    decreases ports, 1
  {
    if ports != [] {
      PortDeviceAddresses(path + [first], ports[0]);
      DeviceAddresses(path, ports[1..], first + 1);
    }
  }

  lemma {:induction false} PortDeviceAddresses(path: seq<nat>, p: Port)
    ensures |PortDevices(path, p)| == |PortPreorder(path, p, Devices)|
    ensures forall i :: 0 <= i < |PortDevices(path, p)| ==>
              PortDevices(path, p)[i].address == PortPreorder(path, p, Devices)[i]
    decreases p, 0
  {
    if p.HubAt? {
      DeviceAddresses(path, p.hub.ports, 1);
    }
  }

  /** This device is attached to the port of this address. */
  ghost predicate DeviceAt(ports: seq<Port>, first: nat, address: seq<nat>, d: Device)
    decreases |address|
  {
    && address != [] && first <= address[0] < first + |ports|
    && var p := ports[address[0] - first];
       if |address| == 1 then p == Io(d) else p.HubAt? && DeviceAt(p.hub.ports, 1, address[1..], d)
  }

  lemma {:induction false} ListedIsThere(path: seq<nat>, ports: seq<Port>, first: nat, k: nat)
    requires k < |DeviceList(path, ports, first)|
    ensures var f := DeviceList(path, ports, first)[k];
            |path| < |f.address| && f.address[..|path|] == path && DeviceAt(ports, first, f.address[|path|..], f.device)
    decreases ports, 1
  {
    var own := PortDevices(path + [first], ports[0]);
    if k < |own| {
      PortListedIsThere(path + [first], ports[0], k);
      var a := own[k].address;
      assert a[|path|..][1..] == a[|path| + 1..];
      assert a[|path|..][0] == a[..|path| + 1][|path|] == first;
      assert a[..|path|] == a[..|path| + 1][..|path|] == path;
    } else {
      ListedIsThere(path, ports[1..], first + 1, k - |own|);
      var a := DeviceList(path, ports[1..], first + 1)[k - |own|].address;
      var b := a[|path|..];
      assert ports[1..][b[0] - (first + 1)] == ports[b[0] - first];
    }
  }

  lemma {:induction false} PortListedIsThere(path: seq<nat>, p: Port, k: nat)
    requires k < |PortDevices(path, p)|
    ensures var f := PortDevices(path, p)[k];
            && |path| <= |f.address| && f.address[..|path|] == path
            && if |path| == |f.address| then p == Io(f.device)
               else p.HubAt? && DeviceAt(p.hub.ports, 1, f.address[|path|..], f.device)
    decreases p, 0
  {
    if p.HubAt? {
      ListedIsThere(path, p.hub.ports, 1, k);
    }
  }

  /** The report describes the device that is attached to the port of its address. */
  ghost predicate Truthful(hub: Hub, r: Report) {
    r.address != []
    && exists d :: DeviceAt(hub.ports, 1, r.address, d) && Describes(r.address[|r.address| - 1], d, r.said)
  }

  lemma SpokenTruthful(hub: Hub, reports: seq<Report>, k: nat)
    requires Spoken(reports, DeviceList([], hub.ports, 1)) && k < |reports|
    ensures Truthful(hub, reports[k])
  {
    ListedIsThere([], hub.ports, 1, k);
    var f := DeviceList([], hub.ports, 1)[k];
    assert f.address[0..] == f.address;
    assert DeviceAt(hub.ports, 1, reports[k].address, f.device);
  }

  /** The addresses reported on are the listed ones, in their order. */
  lemma ReportedAddresses(hub: Hub, reports: seq<Report>)
    requires Spoken(reports, DeviceList([], hub.ports, 1))
    ensures |reports| == |Preorder([], hub.ports, 1, Devices)|
    ensures forall k :: 0 <= k < |reports| ==> reports[k].address == Preorder([], hub.ports, 1, Devices)[k]
  {
    DeviceAddresses([], hub.ports, 1);
  }

  /**
   * A traversal from the root says something at exactly the ports with a
   * device, at each once and in the order of the tree, and what it says there
   * describes the device that is attached.
   */
  lemma EveryDeviceDescribed(hub: Hub, root: Handle) returns (reports: seq<Report>)
    requires ValidHub(hub)
    ensures var events := PortsTrace(hub.ports, 1, root, root + 1, 0).events;
            && Leading(events) == [] && Replay(events, Place([root], [])).Some?
            && reports == Reports(events, Place([root], []))
    ensures forall a ::
              IsAddress(hub.ports, 1, a, Devices) <==> exists k :: 0 <= k < |reports| && reports[k].address == a
    ensures forall i, j :: 0 <= i < j < |reports| ==> Before(reports[i].address, reports[j].address)
    ensures forall k :: 0 <= k < |reports| ==> Truthful(hub, reports[k])
  {
    var events := PortsTrace(hub.ports, 1, root, root + 1, 0).events;
    LeadingTrace(hub.ports, 1, root, root + 1, 0);
    PortsDescribed(hub.ports, 1, root, root + 1, 0, Place([root], []));
    reports := Reports(events, Place([root], []));
    ReportedAddresses(hub, reports);
    PreorderExact(hub.ports, 1, Devices);
    var listed := Preorder([], hub.ports, 1, Devices);
    forall a
      ensures IsAddress(hub.ports, 1, a, Devices) <==> exists k :: 0 <= k < |reports| && reports[k].address == a
    {
      if a in listed {
        var k :| 0 <= k < |listed| && listed[k] == a;
        assert reports[k].address == a;
      }
      if k :| 0 <= k < |reports| && reports[k].address == a {
        assert listed[k] == a;
      }
    }
    forall k | 0 <= k < |reports| ensures Truthful(hub, reports[k]) {
      SpokenTruthful(hub, reports, k);
    }
  }
}
