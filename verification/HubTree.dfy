/**
 * The tree of hubs and devices below a host controller, and what displayusb.c
 * asks of it: the trace of one traversal as a function of the tree.
 */
module HubTree {
  import opened Wrappers
  import opened Sequences
  import opened UsbDescriptors

  type Handle = nat

  /** USHORT */
  type Ushort = w: int | 0 <= w < 65536

  /** What is attached to one port; a port without a connected device has a status other than 1. */
  datatype Port =
    | Vacant(status: Byte)
    | Io(device: Device)
    | HubAt(hub: Hub)

  datatype Hub = Hub(ports: seq<Port>)

  /**
   * language is the first language ID of string descriptor 0, or zero when the
   * device does not return it.
   */
  datatype Device = Device(descriptor: seq<Byte>, configuration: seq<Byte>, language: Ushort)

  const DEVICE_CONNECTED: Byte := 1

  ghost predicate ValidPort(p: Port)
    decreases p, 0
  {
    match p
    case Vacant(status) => status != DEVICE_CONNECTED
    case Io(d) => |d.descriptor| == 18 && |d.configuration| <= 256
    case HubAt(hub) => |hub.ports| <= 255 && ValidPorts(hub.ports)
  }

  ghost predicate ValidPorts(ports: seq<Port>)
    decreases ports, 1
  {
    forall p :: p in ports ==> ValidPort(p)
  }

  /** A hub reports its number of ports in one byte. */
  ghost predicate ValidHub(hub: Hub) {
    |hub.ports| <= 255 && ValidPorts(hub.ports)
  }

  datatype Event =
    | Visit(hub: Handle, port: nat, depth: nat)
    | Open(hub: Handle, port: nat, child: Handle)
    | Close(child: Handle)
    | ShownDevice(fields: DeviceDescriptor)
    | Shown(descriptor: Descriptor)
    | GetConfiguration(port: nat)
    | GetLanguage(port: nat)
    | GetString(port: nat, index: Byte, indexLow: Byte, indexHigh: Byte)

  // ------------------------------------------------------------- string requests

  /** The language ID in hand after one string request. */
  function NextLanguage(language: Ushort, known: Ushort, index: Byte): Ushort {
    if index == 0 || known != 0 then known else language
  }

  function LanguageAfter(language: Ushort, known: Ushort, indices: seq<Byte>): Ushort
    decreases indices
  {
    if indices == [] then known
    else LanguageAfter(language, NextLanguage(language, known, indices[0]), indices[1..])
  }

  /** One string request: string descriptor 0 first while no language ID is known. */
  function StringRequest(port: nat, language: Ushort, known: Ushort, index: Byte): seq<Event> {
    if index == 0 then []
    else
      var id := NextLanguage(language, known, index);
      (if known == 0 then [GetLanguage(port)] else []) + [GetString(port, index, id % 256, id / 256)]
  }

  function StringRequests(port: nat, language: Ushort, known: Ushort, indices: seq<Byte>): seq<Event>
    decreases indices
  {
    if indices == [] then []
    else
      StringRequest(port, language, known, indices[0])
      + StringRequests(port, language, NextLanguage(language, known, indices[0]), indices[1..])
  }

  function NonZero(s: seq<Byte>): seq<Byte> {
    if s == [] then [] else (if s[0] == 0 then [] else [s[0]]) + NonZero(s[1..])
  }

  /** Requests for all these strings under one known language ID. */
  function StringsUnder(port: nat, id: Ushort, indices: seq<Byte>): seq<Event>
  {
    if indices == [] then []
    else [GetString(port, indices[0], id % 256, id / 256)] + StringsUnder(port, id, indices[1..])
  }

  lemma {:induction false} KnownLanguageIsKept(port: nat, language: Ushort, known: Ushort, indices: seq<Byte>)
    requires known != 0
    ensures StringRequests(port, language, known, indices) == StringsUnder(port, known, NonZero(indices))
    ensures LanguageAfter(language, known, indices) == known
  {
    if indices != [] {
      KnownLanguageIsKept(port, language, known, indices[1..]);
      if indices[0] == 0 {
        EmptyConcat(StringRequests(port, language, known, indices[1..]));
        EmptyConcat(NonZero(indices[1..]));
      } else {
        HeadTail([indices[0]], NonZero(indices[1..]));
        EmptyConcat(NonZero(indices[1..]));
        EmptyConcat([GetString(port, indices[0], known % 256, known / 256)]);
      }
    }
  }

  /**
   * A device with a non-zero language ID is asked for string descriptor 0 once,
   * before the first string and only if there is one; every string is then
   * asked for under that ID.
   */
  lemma {:induction false} LanguageFetchedOnce(port: nat, language: Ushort, indices: seq<Byte>)
    requires language != 0
    ensures StringRequests(port, language, 0, indices)
         == if NonZero(indices) == [] then []
            else [GetLanguage(port)] + StringsUnder(port, language, NonZero(indices))
  {
    if indices != [] {
      if indices[0] == 0 {
        LanguageFetchedOnce(port, language, indices[1..]);
        EmptyConcat(StringRequests(port, language, 0, indices[1..]));
        EmptyConcat(NonZero(indices[1..]));
      } else {
        KnownLanguageIsKept(port, language, language, indices[1..]);
        HeadTail([indices[0]], NonZero(indices[1..]));
        EmptyConcat(NonZero(indices[1..]));
        Assoc([GetLanguage(port)], [GetString(port, indices[0], language % 256, language / 256)],
              StringsUnder(port, language, NonZero(indices[1..])));
      }
    }
  }

  lemma {:induction false} NonZeroConcat(a: seq<Byte>, b: seq<Byte>)
    ensures NonZero(a + b) == NonZero(a) + NonZero(b)
  {
    if a == [] {
      EmptyConcat(b);
      EmptyConcat(NonZero(b));
    } else {
      HeadTail(a, b);
      NonZeroConcat(a[1..], b);
      Assoc(if a[0] == 0 then [] else [a[0]], NonZero(a[1..]), NonZero(b));
    }
  }

  /** Every index but zero is kept, as often as it occurs. */
  lemma {:induction false} NonZeroExactly(s: seq<Byte>, x: Byte)
    ensures multiset(NonZero(s))[x] == if x == 0 then 0 else multiset(s)[x]
  {
    if s != [] {
      NonZeroExactly(s[1..], x);
      ConsHeadTail(s);
      ConcatMultiset([s[0]], s[1..]);
      ConcatMultiset(if s[0] == 0 then [] else [s[0]], NonZero(s[1..]));
    }
  }

  /** The requests for strings proper among these. */
  function StringsAsked(events: seq<Event>): seq<Event> {
    if events == [] then []
    else (if events[0].GetString? then [events[0]] else []) + StringsAsked(events[1..])
  }

  lemma {:induction false} StringsAskedConcat(a: seq<Event>, b: seq<Event>)
    ensures StringsAsked(a + b) == StringsAsked(a) + StringsAsked(b)
  {
    if a == [] {
      EmptyConcat(b);
      EmptyConcat(StringsAsked(b));
    } else {
      HeadTail(a, b);
      StringsAskedConcat(a[1..], b);
      Assoc(if a[0].GetString? then [a[0]] else [], StringsAsked(a[1..]), StringsAsked(b));
    }
  }

  lemma StringAsked(port: nat, language: Ushort, known: Ushort, index: Byte)
    requires known == 0 || known == language
    ensures StringsAsked(StringRequest(port, language, known, index))
         == if index == 0 then [] else [GetString(port, index, language % 256, language / 256)]
  {
    if index != 0 {
      var ask := [GetString(port, index, language % 256, language / 256)];
      assert ask[1..] == [] && [GetLanguage(port)][1..] == [];
      assert StringsAsked(ask) == ask && StringsAsked([GetLanguage(port)]) == [];
      StringsAskedConcat([GetLanguage(port)], ask);
      EmptyConcat(ask);
    }
  }

  /**
   * Whatever the language ID, zero included: the strings asked for are those of
   * the non-zero indices, in order, each at this port and with the ID whose low
   * byte goes first.
   */
  lemma {:induction false} EveryStringAsked(port: nat, language: Ushort, known: Ushort, indices: seq<Byte>)
    requires known == 0 || known == language
    ensures var asked := StringsAsked(StringRequests(port, language, known, indices));
            && |asked| == |NonZero(indices)|
            && forall i :: 0 <= i < |asked| ==>
                 && asked[i].GetString? && asked[i].port == port && asked[i].index == NonZero(indices)[i]
                 && asked[i].indexLow + 256 * asked[i].indexHigh == language
    decreases |indices|
  {
    if indices != [] {
      var next := NextLanguage(language, known, indices[0]);
      EveryStringAsked(port, language, next, indices[1..]);
      StringAsked(port, language, known, indices[0]);
      StringsAskedConcat(StringRequest(port, language, known, indices[0]),
                         StringRequests(port, language, next, indices[1..]));
    }
  }

  function CountLanguage(events: seq<Event>): nat {
    if events == [] then 0 else (if events[0].GetLanguage? then 1 else 0) + CountLanguage(events[1..])
  }

  lemma {:induction false} CountLanguageConcat(a: seq<Event>, b: seq<Event>)
    ensures CountLanguage(a + b) == CountLanguage(a) + CountLanguage(b)
  {
    if a == [] {
      EmptyConcat(b);
    } else {
      HeadTail(a, b);
      CountLanguageConcat(a[1..], b);
    }
  }

  lemma {:induction false} CountUnder(port: nat, id: Ushort, indices: seq<Byte>)
    ensures CountLanguage(StringsUnder(port, id, indices)) == 0
  {
    if indices != [] {
      CountUnder(port, id, indices[1..]);
      CountLanguageConcat([GetString(port, indices[0], id % 256, id / 256)], StringsUnder(port, id, indices[1..]));
    }
  }

  /** A device whose language ID is zero is asked for it again before every string. */
  lemma {:induction false} ZeroLanguageRefetched(port: nat, indices: seq<Byte>)
    ensures CountLanguage(StringRequests(port, 0, 0, indices)) == |NonZero(indices)|
  {
    if indices != [] {
      ZeroLanguageRefetched(port, indices[1..]);
      CountLanguageConcat(StringRequest(port, 0, 0, indices[0]), StringRequests(port, 0, 0, indices[1..]));
      if indices[0] != 0 {
        CountLanguageConcat([GetLanguage(port)], [GetString(port, indices[0], 0, 0)]);
        assert CountLanguage([GetLanguage(port)]) == 1 + CountLanguage([]);
        assert CountLanguage([GetString(port, indices[0], 0, 0)]) == CountLanguage([]);
      }
    }
  }

  /** String descriptor 0 is asked for at most once exactly when its ID is non-zero or at most one string is wanted. */
  lemma LanguageAtMostOnceExactly(port: nat, language: Ushort, indices: seq<Byte>)
    ensures CountLanguage(StringRequests(port, language, 0, indices)) <= 1
            <==> language != 0 || |NonZero(indices)| <= 1
  {
    if language == 0 {
      ZeroLanguageRefetched(port, indices);
    } else {
      LanguageFetchedOnce(port, language, indices);
      var strings := StringsUnder(port, language, NonZero(indices));
      CountUnder(port, language, NonZero(indices));
      CountLanguageConcat([GetLanguage(port)], strings);
      assert CountLanguage([GetLanguage(port)]) == 1 + CountLanguage([]);
    }
  }

  // --------------------------------------------------------- the trace of a port

  /** The configuration part: each descriptor shown, after the string it refers to. */
  function ConfigurationTrace(port: nat, language: Ushort, known: Ushort, ds: seq<Descriptor>): seq<Event>
    decreases ds
  {
    if ds == [] then []
    else
      StringRequest(port, language, known, StringIndex(ds[0])) + [Shown(ds[0])]
      + ConfigurationTrace(port, language, NextLanguage(language, known, StringIndex(ds[0])), ds[1..])
  }

  function DeviceTrace(port: nat, d: Device): seq<Event>
    requires |d.descriptor| == 18
  {
    var known := LanguageAfter(d.language, 0, DeviceStringIndices(d.descriptor));
    StringRequests(port, d.language, 0, DeviceStringIndices(d.descriptor))
    + [ShownDevice(DecodeDevice(d.descriptor)), GetConfiguration(port)]
    + ConfigurationTrace(port, d.language, known, Walk(d.configuration, 0))
  }

  // ----------------------------------------------------------- the trace of a hub

  datatype Traced = Traced(events: seq<Event>, next: Handle)

  /** One port of the hub open under handle h; next is the handle the next open will give. */
  ghost function PortTrace(p: Port, port: nat, h: Handle, next: Handle, depth: nat): Traced
    requires ValidPort(p)
    decreases p, 0
  {
    match p
    case Vacant(_) => Traced([Visit(h, port, depth)], next)
    case Io(d) => Traced([Visit(h, port, depth)] + DeviceTrace(port, d), next)
    case HubAt(hub) =>
      var inner := PortsTrace(hub.ports, 1, next, next + 1, depth + 1);
      Traced([Visit(h, port, depth), Open(h, port, next)] + inner.events + [Close(next)], inner.next)
  }

  /** The ports of that hub from number first on. */
  ghost function PortsTrace(ports: seq<Port>, first: nat, h: Handle, next: Handle, depth: nat): Traced
    requires ValidPorts(ports)
    decreases ports, 1
  {
    if ports == [] then Traced([], next)
    else
      var one := PortTrace(ports[0], first, h, next, depth);
      var rest := PortsTrace(ports[1..], first + 1, h, one.next, depth);
      Traced(one.events + rest.events, rest.next)
  }

  lemma {:induction false} PortsTraceConcat(a: seq<Port>, b: seq<Port>, first: nat, h: Handle, next: Handle, depth: nat)
    requires ValidPorts(a) && ValidPorts(b) && ValidPorts(a + b)
    ensures var ta := PortsTrace(a, first, h, next, depth);
            var tb := PortsTrace(b, first + |a|, h, ta.next, depth);
            PortsTrace(a + b, first, h, next, depth) == Traced(ta.events + tb.events, tb.next)
    decreases |a|
  {
    if a == [] {
      EmptyConcat(b);
      EmptyConcat(PortsTrace(b, first, h, next, depth).events);
    } else {
      HeadTail(a, b);
      assert forall p :: p in (a + b)[1..] ==> p in a + b;
      var one := PortTrace(a[0], first, h, next, depth);
      PortsTraceConcat(a[1..], b, first + 1, h, one.next, depth);
      var ta := PortsTrace(a[1..], first + 1, h, one.next, depth);
      Assoc(one.events, ta.events, PortsTrace(b, first + |a|, h, ta.next, depth).events);
    }
  }
}
