/**
 * The procedures of displayusb.c.  The host records what is asked of it and
 * what is shown; a PacketReader is a packet buffer with the pointer that is
 * stepped through it.
 */
module DisplayUsb {
  import opened Wrappers
  import opened Sequences
  import opened UsbDescriptors
  import opened HubTree

  /** The tree of hubs behind DeviceIoControl, CreateFile and CloseHandle, and the record of all calls. */
  class UsbHost {
    var log: seq<Event>
    /** The hubs now open. */
    var open: map<Handle, Hub>
    var next: Handle

    ghost predicate Valid()
      reads this
    {
      forall h :: h in open ==> h < next && ValidHub(open[h])
    }

    /** A host with its root hub open. */
    constructor (root: Hub)
      requires ValidHub(root)
      ensures Valid() && log == [] && next == 1 && open == map[0 := root]
    {
      log := [];
      open := map[0 := root];
      next := 1;
    }

    ghost predicate HasPort(h: Handle, port: nat)
      reads this
    {
      h in open && 1 <= port <= |open[h].ports|
    }

    ghost predicate HasDevice(h: Handle, port: nat, d: Device)
      reads this
    {
      HasPort(h, port) && open[h].ports[port - 1] == Io(d) && ValidPort(Io(d))
    }

    method Record(e: Event)
      modifies this`log
      ensures log == old(log) + [e]
    {
      log := log + [e];
    }

    method ConnectionInformation(h: Handle, port: nat) returns (p: Port)
      requires Valid() && HasPort(h, port)
      ensures p == open[h].ports[port - 1] && ValidPort(p)
    {
      p := open[h].ports[port - 1];
    }

    method NumberOfPorts(h: Handle) returns (count: Byte)
      requires Valid() && h in open
      ensures count == |open[h].ports|
    {
      count := |open[h].ports|;
    }

    /** Ask for the connected hub's name and open it. */
    method OpenHub(h: Handle, port: nat) returns (child: Handle)
      requires Valid() && HasPort(h, port) && open[h].ports[port - 1].HubAt?
      modifies this
      ensures Valid() && child == old(next) && next == old(next) + 1 && child !in old(open)
      ensures open == old(open)[child := old(open)[h].ports[port - 1].hub]
      ensures log == old(log) + [Open(h, port, child)]
    {
      var p := ConnectionInformation(h, port);
      assert ValidHub(p.hub);
      child := next;
      open := open[child := p.hub];
      next := next + 1;
      Record(Open(h, port, child));
    }

    method CloseHandle(h: Handle)
      requires Valid() && h in open
      modifies this`open, this`log
      ensures Valid() && open == old(open) - {h} && log == old(log) + [Close(h)]
    {
      open := open - {h};
      Record(Close(h));
    }

    /** String descriptor 0: bytes 2 and 3 of the reply, or of the zeroed buffer. */
    method LanguageBytes(h: Handle, port: nat, ghost d: Device) returns (low: Byte, high: Byte)
      requires Valid() && HasDevice(h, port, d)
      modifies this`log
      ensures Valid() && log == old(log) + [GetLanguage(port)]
      ensures Word(low, high) == d.language
    {
      var p := ConnectionInformation(h, port);
      low, high := p.device.language % 256, p.device.language / 256;
      Record(GetLanguage(port));
    }

    method ConfigurationBytes(h: Handle, port: nat, ghost d: Device) returns (reply: seq<Byte>)
      requires Valid() && HasDevice(h, port, d)
      modifies this`log
      ensures Valid() && log == old(log) + [GetConfiguration(port)]
      ensures reply == d.configuration && |reply| <= 256
    {
      var p := ConnectionInformation(h, port);
      reply := p.device.configuration;
      Record(GetConfiguration(port));
    }
  }

  class PacketReader {
    const data: array<Byte>
    var ptr: int
    /** The highest index read so far. */
    ghost var highest: int

    /** The buffer holds these bytes, and zeros after them. */
    ghost predicate Holds(bytes: seq<Byte>)
      reads this, data
    {
      |bytes| <= data.Length && forall i :: 0 <= i < data.Length ==> data[i] == At(bytes, i)
    }

    constructor (size: nat, bytes: seq<Byte>)
      requires |bytes| <= size
      ensures Holds(bytes) && data.Length == size && ptr == 0 && highest == -1 && fresh(data)
    {
      data := new Byte[size](i requires 0 <= i => if i < |bytes| then bytes[i] else 0);
      ptr, highest := 0, -1;
    }

    /** Read the byte at the pointer. */
    method Current(ghost bytes: seq<Byte>) returns (b: Byte)
      requires Holds(bytes) && 0 <= ptr < data.Length
      modifies this`highest
      ensures b == At(bytes, ptr) && highest == if old(highest) < ptr then ptr else old(highest)
    {
      b := data[ptr];
      highest := if highest < ptr then ptr else highest;
    }

    /** Move one byte on and read there. */
    method Next(ghost bytes: seq<Byte>) returns (b: Byte)
      requires Holds(bytes) && -1 <= ptr < data.Length - 1
      modifies this
      ensures Holds(bytes) && ptr == old(ptr) + 1 && b == At(bytes, ptr)
      ensures highest == if old(highest) < ptr then ptr else old(highest)
    {
      ptr := ptr + 1;
      b := data[ptr];
      highest := if highest < ptr then ptr else highest;
    }

    /** Read the next two bytes as a 16-bit value, low byte first. */
    method NextWord(ghost bytes: seq<Byte>) returns (w: nat)
      requires Holds(bytes) && -1 <= ptr < data.Length - 2
      modifies this
      ensures Holds(bytes) && ptr == old(ptr) + 2 && w == Word(At(bytes, ptr - 1), At(bytes, ptr))
      ensures highest == if old(highest) < ptr then ptr else old(highest)
    {
      var low := Next(bytes);
      var high := Next(bytes);
      w := Word(low, high);
    }

    /** Move back without reading. */
    method Back(n: nat)
      modifies this`ptr
      ensures ptr == old(ptr) - n
    {
      ptr := ptr - n;
    }
  }

  /** Ask for one string; the language ID comes back for the next time. */
  method DisplayStringDescriptor(host: UsbHost, h: Handle, port: nat, languageID: Ushort, index: Byte, ghost d: Device)
    returns (language: Ushort)
    requires host.Valid() && host.HasDevice(h, port, d) && index != 0
    modifies host`log
    ensures host.Valid()
    ensures host.log == old(host.log) + StringRequest(port, d.language, languageID, index)
    ensures language == NextLanguage(d.language, languageID, index)
  {
    language := languageID;
    ghost var asked := [];
    if language == 0 {
      var low, high := host.LanguageBytes(h, port, d);
      language := Word(low, high);
      asked := [GetLanguage(port)];
    }
    host.Record(GetString(port, index, language % 256, (language / 256) % 256));
    Assoc(old(host.log), asked, [GetString(port, index, language % 256, language / 256)]);
  }

  /** Ask for a string unless its index is zero, which stands for no string. */
  method StringIfAny(host: UsbHost, h: Handle, port: nat, languageID: Ushort, index: Byte, ghost d: Device)
    returns (language: Ushort)
    requires host.Valid() && host.HasDevice(h, port, d)
    modifies host`log
    ensures host.Valid()
    ensures host.log == old(host.log) + StringRequest(port, d.language, languageID, index)
    ensures language == NextLanguage(d.language, languageID, index)
  {
    language := languageID;
    if index != 0 {
      language := DisplayStringDescriptor(host, h, port, languageID, index, d);
    } else {
      EmptyConcat(host.log);
    }
  }

  method DisplayDeviceDescriptor(host: UsbHost, h: Handle, port: nat, languageID: Ushort, reader: PacketReader,
                                 ghost d: Device)
    returns (language: Ushort)
    requires host.Valid() && host.HasDevice(h, port, d)
    requires reader.Holds(d.descriptor) && reader.data.Length == 18 && reader.ptr == 0 && reader.highest < 18
    modifies host`log, reader
    ensures host.Valid() && reader.highest < 18
    ensures host.log == old(host.log) + StringRequests(port, d.language, languageID, DeviceStringIndices(d.descriptor))
                        + [ShownDevice(DecodeDevice(d.descriptor))]
    ensures language == LanguageAfter(d.language, languageID, DeviceStringIndices(d.descriptor))
  {
    ghost var b := d.descriptor;
    var length, kind, bcdUsb, deviceClass, subClass, protocol, maxPacketSize0 := ReadDeviceHead(reader, b);
    var vendor := reader.NextWord(b);
    var product := reader.NextWord(b);
    var release := reader.NextWord(b);
    var iManufacturer, iProduct, iSerialNumber;
    language, iManufacturer, iProduct, iSerialNumber := DeviceStrings(host, h, port, languageID, reader, d);
    var numConfigurations := reader.Next(b);
    host.Record(ShownDevice(DeviceDescriptor(length, kind, bcdUsb, deviceClass, subClass, protocol, maxPacketSize0,
      vendor, product, release, iManufacturer, iProduct, iSerialNumber, numConfigurations)));
  }

  method DeviceStrings(host: UsbHost, h: Handle, port: nat, languageID: Ushort, reader: PacketReader, ghost d: Device)
    returns (language: Ushort, iManufacturer: Byte, iProduct: Byte, iSerialNumber: Byte)
    requires host.Valid() && host.HasDevice(h, port, d)
    requires reader.Holds(d.descriptor) && reader.data.Length == 18 && reader.ptr == 13 && reader.highest < 18
    modifies host`log, reader
    ensures host.Valid() && reader.Holds(d.descriptor) && reader.ptr == 16 && reader.highest < 18
    ensures iManufacturer == d.descriptor[14] && iProduct == d.descriptor[15] && iSerialNumber == d.descriptor[16]
    ensures host.log == old(host.log) + StringRequests(port, d.language, languageID, DeviceStringIndices(d.descriptor))
    ensures language == LanguageAfter(d.language, languageID, DeviceStringIndices(d.descriptor))
  {
    ghost var log0 := host.log;
    iManufacturer := reader.Next(d.descriptor);
    language := StringIfAny(host, h, port, languageID, iManufacturer, d);
    iProduct := reader.Next(d.descriptor);
    language := StringIfAny(host, h, port, language, iProduct, d);
    iSerialNumber := reader.Next(d.descriptor);
    language := StringIfAny(host, h, port, language, iSerialNumber, d);
    ThreeRequests(port, d.language, languageID, iManufacturer, iProduct, iSerialNumber, log0);
  }

  method ReadDeviceHead(reader: PacketReader, ghost b: seq<Byte>)
    returns (length: Byte, kind: Byte, bcdUsb: nat, deviceClass: Byte, subClass: Byte, protocol: Byte,
             maxPacketSize0: Byte)
    requires reader.Holds(b) && |b| == 18 == reader.data.Length && reader.ptr == 0 && reader.highest < 18
    modifies reader
    ensures reader.Holds(b) && reader.ptr == 7 && reader.highest < 18
    ensures length == b[0] && kind == b[1] && bcdUsb == Word(b[2], b[3]) && deviceClass == b[4]
    ensures subClass == b[5] && protocol == b[6] && maxPacketSize0 == b[7]
  {
    reader.Back(1);
    length := reader.Next(b);
    kind := reader.Next(b);
    bcdUsb := reader.NextWord(b);
    deviceClass := reader.Next(b);
    subClass := reader.Next(b);
    protocol := reader.Next(b);
    maxPacketSize0 := reader.Next(b);
  }

  lemma ThreeRequests(port: nat, language: Ushort, k0: Ushort, a: Byte, b: Byte, c: Byte, log: seq<Event>)
    ensures var k1 := NextLanguage(language, k0, a);
            var k2 := NextLanguage(language, k1, b);
            && log + StringRequest(port, language, k0, a) + StringRequest(port, language, k1, b)
               + StringRequest(port, language, k2, c)
               == log + StringRequests(port, language, k0, [a, b, c])
            && LanguageAfter(language, k0, [a, b, c]) == NextLanguage(language, k2, c)
  {
    var k1 := NextLanguage(language, k0, a);
    var k2 := NextLanguage(language, k1, b);
    var k3 := NextLanguage(language, k2, c);
    assert [a, b, c][1..] == [b, c] && [b, c][1..] == [c] && [c][1..] == [];
    assert LanguageAfter(language, k3, []) == k3;
    assert LanguageAfter(language, k2, [c]) == k3;
    assert LanguageAfter(language, k1, [b, c]) == k3;
    var r1, r2, r3 := StringRequest(port, language, k0, a), StringRequest(port, language, k1, b),
                      StringRequest(port, language, k2, c);
    EmptyConcat(r3);
    assert StringRequests(port, language, k2, [c]) == r3 + StringRequests(port, language, k3, []);
    assert StringRequests(port, language, k1, [b, c]) == r2 + r3;
    Assoc(log, r1, r2 + r3);
    Assoc(log + r1, r2, r3);
  }

  /** The reader has just read the kind byte of the descriptor that starts at s. */
  ghost predicate AtKind(reader: PacketReader, bytes: seq<Byte>, s: nat)
    reads reader, reader.data
  {
    && reader.Holds(bytes) && reader.data.Length == 2048 && reader.ptr == s + 1
    && s <= 255 && reader.highest <= 510
  }

  /** The reader has read the whole descriptor that starts at s and stands on its last byte. */
  ghost predicate Past(reader: PacketReader, bytes: seq<Byte>, s: nat)
    reads reader, reader.data
  {
    && reader.Holds(bytes) && reader.data.Length == 2048 && reader.ptr == s + Stride(bytes, s) - 1
    && reader.highest <= 510
  }

  method ShowConfiguration(host: UsbHost, h: Handle, port: nat, languageID: Ushort, length: Byte, reader: PacketReader,
                           ghost bytes: seq<Byte>, ghost s: nat, ghost d: Device)
    returns (language: Ushort, shown: Descriptor)
    requires host.Valid() && host.HasDevice(h, port, d)
    requires AtKind(reader, bytes, s) && length == At(bytes, s) && At(bytes, s + 1) == CONFIGURATION
    modifies host`log, reader
    ensures host.Valid() && Past(reader, bytes, s) && shown == DescriptorAt(bytes, s)
    ensures host.log == old(host.log) + StringRequest(port, d.language, languageID, StringIndex(shown))
    ensures language == NextLanguage(d.language, languageID, StringIndex(shown))
  {
    var totalLength := reader.NextWord(bytes);
    var numInterfaces := reader.Next(bytes);
    var configValue := reader.Next(bytes);
    var iConfiguration := reader.Next(bytes);
    language := StringIfAny(host, h, port, languageID, iConfiguration, d);
    var attributes := reader.Next(bytes);
    var maxPower := reader.Next(bytes);
    shown := Configuration(length, totalLength, numInterfaces, configValue, iConfiguration, attributes, maxPower);
  }

  method ShowInterface(host: UsbHost, h: Handle, port: nat, languageID: Ushort, length: Byte, reader: PacketReader,
                       ghost bytes: seq<Byte>, ghost s: nat, ghost d: Device)
    returns (language: Ushort, shown: Descriptor)
    requires host.Valid() && host.HasDevice(h, port, d)
    requires AtKind(reader, bytes, s) && length == At(bytes, s) && At(bytes, s + 1) == INTERFACE
    modifies host`log, reader
    ensures host.Valid() && Past(reader, bytes, s) && shown == DescriptorAt(bytes, s)
    ensures host.log == old(host.log) + StringRequest(port, d.language, languageID, StringIndex(shown))
    ensures language == NextLanguage(d.language, languageID, StringIndex(shown))
  {
    var number := reader.Next(bytes);
    var alternate := reader.Next(bytes);
    var numEndpoints := reader.Next(bytes);
    var interfaceClass := reader.Next(bytes);
    var subClass := reader.Next(bytes);
    var protocol := reader.Next(bytes);
    var iInterface := reader.Next(bytes);
    language := StringIfAny(host, h, port, languageID, iInterface, d);
    shown := Interface(length, number, alternate, numEndpoints, interfaceClass, subClass, protocol, iInterface);
  }

  method ShowEndpoint(length: Byte, reader: PacketReader, ghost bytes: seq<Byte>, ghost s: nat)
    returns (shown: Descriptor)
    requires AtKind(reader, bytes, s) && length == At(bytes, s) && At(bytes, s + 1) == ENDPOINT
    modifies reader
    ensures Past(reader, bytes, s) && shown == DescriptorAt(bytes, s)
  {
    var address := reader.Next(bytes);
    var attributes := reader.Next(bytes);
    var maxPacketSize := reader.NextWord(bytes);
    var interval := reader.Next(bytes);
    shown := Endpoint(length, address, attributes, maxPacketSize, interval);
  }

  method ShowHid(length: Byte, reader: PacketReader, ghost bytes: seq<Byte>, ghost s: nat) returns (shown: Descriptor)
    requires AtKind(reader, bytes, s) && length == At(bytes, s) && At(bytes, s + 1) == HID
    modifies reader
    ensures Past(reader, bytes, s) && shown == DescriptorAt(bytes, s)
  {
    var version := reader.NextWord(bytes);
    var countryCode := reader.Next(bytes);
    var descriptorCount := reader.Next(bytes);
    var reportType := reader.Next(bytes);
    var reportLength := reader.NextWord(bytes);
    shown := Hid(length, version, countryCode, descriptorCount, reportType, reportLength);
  }

  /** The default case: back to the start of the descriptor, then as many bytes as its length says. */
  method ShowUnknown(length: Byte, kind: Byte, reader: PacketReader, ghost bytes: seq<Byte>, ghost s: nat)
    returns (shown: Descriptor)
    requires AtKind(reader, bytes, s) && length == At(bytes, s) && length != 0
    requires kind == At(bytes, s + 1) && !IsKnown(kind)
    modifies reader
    ensures Past(reader, bytes, s) && shown == DescriptorAt(bytes, s)
  {
    reader.Back(2);
    var dump: seq<Byte> := [];
    for i := 0 to length
      invariant reader.Holds(bytes) && reader.data.Length == 2048 && reader.ptr == s - 1 + i
      invariant reader.highest <= 510
      invariant |dump| == i && forall k :: 0 <= k < i ==> dump[k] == At(bytes, s + k)
    {
      var b := reader.Next(bytes);
      dump := dump + [b];
    }
    assert dump == BytesAt(bytes, s, length);
    shown := Unknown(kind, dump);
  }

  /** One pass of the walking loop, up to the next length byte. */
  method ShowDescriptor(host: UsbHost, h: Handle, port: nat, languageID: Ushort, length: Byte, reader: PacketReader,
                        ghost bytes: seq<Byte>, ghost s: nat, ghost d: Device)
    returns (language: Ushort)
    requires host.Valid() && host.HasDevice(h, port, d)
    requires reader.Holds(bytes) && reader.data.Length == 2048 && reader.ptr == s <= 255 && reader.highest <= 510
    requires length == At(bytes, s) && length != 0
    modifies host`log, reader
    ensures host.Valid() && Past(reader, bytes, s)
    ensures var shown := DescriptorAt(bytes, s);
            host.log == old(host.log)
                        + (StringRequest(port, d.language, languageID, StringIndex(shown)) + [Shown(shown)])
    ensures language == NextLanguage(d.language, languageID, StringIndex(DescriptorAt(bytes, s)))
  {
    ghost var log0 := host.log;
    var kind := reader.Next(bytes);
    var shown: Descriptor;
    language := languageID;
    if kind == CONFIGURATION {
      language, shown := ShowConfiguration(host, h, port, languageID, length, reader, bytes, s, d);
    } else if kind == INTERFACE {
      language, shown := ShowInterface(host, h, port, languageID, length, reader, bytes, s, d);
    } else if kind == ENDPOINT {
      shown := ShowEndpoint(length, reader, bytes, s);
      EmptyConcat(host.log);
    } else if kind == HID {
      shown := ShowHid(length, reader, bytes, s);
      EmptyConcat(host.log);
    } else {
      shown := ShowUnknown(length, kind, reader, bytes, s);
      EmptyConcat(host.log);
    }
    Assoc(log0, StringRequest(port, d.language, languageID, StringIndex(shown)), [Shown(shown)]);
    host.Record(Shown(shown));
  }

  /**
   * Walk the configuration of the device at a port.  Whatever the reply, the
   * walk ends, reads no index above 510 or below zero, and records what
   * ConfigurationTrace says of it.
   */
  method DisplayConfigurationDescriptor(host: UsbHost, h: Handle, port: nat, languageID: Ushort, ghost d: Device)
    returns (language: Ushort, ghost highest: int)
    requires host.Valid() && host.HasDevice(h, port, d)
    modifies host`log
    ensures host.Valid() && highest <= 510
    ensures host.log == old(host.log) + [GetConfiguration(port)]
                        + ConfigurationTrace(port, d.language, languageID, Walk(d.configuration, 0))
    ensures language == LanguageAfter(d.language, languageID, StringIndices(Walk(d.configuration, 0)))
  {
    language := languageID;
    var reply := host.ConfigurationBytes(h, port, d);
    var reader := new PacketReader(2048, reply);
    var length := reader.Current(reply);
    ghost var s: nat := 0;
    ghost var all := host.log + ConfigurationTrace(port, d.language, languageID, Walk(reply, 0));
    ghost var last := LanguageAfter(d.language, languageID, StringIndices(Walk(reply, 0)));
    while length != 0
      invariant host.Valid() && host.HasDevice(h, port, d)
      invariant reader.Holds(reply) && reader.data.Length == 2048 && reader.ptr == s && reader.highest <= 510
      invariant length == At(reply, s)
      invariant host.log + ConfigurationTrace(port, d.language, language, Walk(reply, s)) == all
      invariant LanguageAfter(d.language, language, StringIndices(Walk(reply, s))) == last
      decreases |reply| - s
    {
      ghost var before, known := host.log, language;
      language := ShowDescriptor(host, h, port, language, length, reader, reply, s, d);
      ConfigurationStep(port, d.language, known, reply, s, before);
      s := s + Stride(reply, s);
      length := reader.Next(reply);
    }
    EmptyConcat(host.log);
    highest := reader.highest;
  }

  lemma ConfigurationStep(port: nat, language: Ushort, known: Ushort, data: seq<Byte>, s: nat, log: seq<Event>)
    requires At(data, s) != 0
    ensures var shown := DescriptorAt(data, s);
            && log + ConfigurationTrace(port, language, known, Walk(data, s))
               == log + (StringRequest(port, language, known, StringIndex(shown)) + [Shown(shown)])
                  + ConfigurationTrace(port, language, NextLanguage(language, known, StringIndex(shown)),
                                       Walk(data, s + Stride(data, s)))
            && LanguageAfter(language, known, StringIndices(Walk(data, s)))
               == LanguageAfter(language, NextLanguage(language, known, StringIndex(shown)),
                                StringIndices(Walk(data, s + Stride(data, s))))
  {
    var shown, rest := DescriptorAt(data, s), Walk(data, s + Stride(data, s));
    HeadTail([shown], rest);
    EmptyConcat(rest);
    HeadTail([StringIndex(shown)], StringIndices(rest));
    EmptyConcat(StringIndices(rest));
    Assoc(log, StringRequest(port, language, known, StringIndex(shown)) + [Shown(shown)],
          ConfigurationTrace(port, language, NextLanguage(language, known, StringIndex(shown)), rest));
  }

  /** What is attached to one port: nothing, a device to be described, or a hub to be entered. */
  method GetOnePort(host: UsbHost, h: Handle, port: nat, depth: nat)
    requires host.Valid() && host.HasPort(h, port) && ValidPort(host.open[h].ports[port - 1])
    modifies host
    ensures host.Valid() && host.open == old(host.open)
    ensures var t := PortTrace(old(host.open)[h].ports[port - 1], port, h, old(host.next), depth);
            host.log == old(host.log) + t.events && host.next == t.next
    decreases host.open[h], 0
  {
    ghost var log0 := host.log;
    var information := host.ConnectionInformation(h, port);
    host.Record(Visit(h, port, depth));
    if information.Io? {
      ghost var d := information.device;
      var language: Ushort := 0;
      var buffer := new PacketReader(18, information.device.descriptor);
      language := DisplayDeviceDescriptor(host, h, port, language, buffer, d);
      ghost var highest;
      language, highest := DisplayConfigurationDescriptor(host, h, port, language, d);
      DeviceLog(port, d, log0 + [Visit(h, port, depth)]);
      Assoc(log0, [Visit(h, port, depth)], DeviceTrace(port, d));
    } else if information.HubAt? {
      var child := host.OpenHub(h, port);
      ghost var log1 := host.log;
      var count := host.NumberOfPorts(child);
      GetPortData(host, child, count, depth + 1);
      host.CloseHandle(child);
      assert host.open == old(host.open);
      ghost var inner := PortsTrace(information.hub.ports, 1, child, child + 1, depth + 1).events;
      HubLog(log0, Visit(h, port, depth), Open(h, port, child), inner, Close(child));
    }
  }

  lemma DeviceLog(port: nat, d: Device, log: seq<Event>)
    requires |d.descriptor| == 18
    ensures var own := DeviceStringIndices(d.descriptor);
            log + StringRequests(port, d.language, 0, own) + [ShownDevice(DecodeDevice(d.descriptor))]
            + [GetConfiguration(port)]
            + ConfigurationTrace(port, d.language, LanguageAfter(d.language, 0, own), Walk(d.configuration, 0))
            == log + DeviceTrace(port, d)
  {
    var own := DeviceStringIndices(d.descriptor);
    var first := StringRequests(port, d.language, 0, own);
    var a, b := [ShownDevice(DecodeDevice(d.descriptor))], [GetConfiguration(port)];
    var last := ConfigurationTrace(port, d.language, LanguageAfter(d.language, 0, own), Walk(d.configuration, 0));
    assert a + b == [ShownDevice(DecodeDevice(d.descriptor)), GetConfiguration(port)];
    Assoc(log + first, a, b);
    Assoc(log, first, a + b);
    Assoc(log, first + (a + b), last);
  }

  lemma HubLog(log: seq<Event>, visit: Event, open: Event, inner: seq<Event>, close: Event)
    ensures log + [visit] + [open] + inner + [close] == log + ([visit, open] + inner + [close])
  {
    assert [visit] + [open] == [visit, open];
    Assoc(log, [visit], [open]);
    Assoc(log, [visit, open], inner);
    Assoc(log, [visit, open] + inner, [close]);
  }

  /** Go over all ports of a hub. */
  method GetPortData(host: UsbHost, h: Handle, portCount: Byte, depth: nat)
    requires host.Valid() && h in host.open && portCount == |host.open[h].ports|
    modifies host
    ensures host.Valid() && host.open == old(host.open)
    ensures ValidPorts(old(host.open)[h].ports)
    ensures var t := PortsTrace(old(host.open)[h].ports, 1, h, old(host.next), depth);
            host.log == old(host.log) + t.events && host.next == t.next
    decreases host.open[h], 1
  {
    ghost var hub := host.open[h];
    ghost var ports := hub.ports;
    ghost var log0, next0 := host.log, host.next;
    assert ValidHub(hub);
    EmptyConcat(host.log);
    for portIndex := 1 to portCount + 1
      invariant host.Valid() && host.open == old(host.open)
      invariant ValidPorts(ports[..portIndex - 1])
      invariant var t := PortsTrace(ports[..portIndex - 1], 1, h, next0, depth);
                host.log == log0 + t.events && host.next == t.next
    {
      ghost var next1 := host.next;
      assert ports[portIndex - 1] in ports;
      GetOnePort(host, h, portIndex, depth);
      PortsTraceStep(ports, portIndex, h, next0, next1, depth, log0);
    }
    assert ports[..portCount as int] == ports;
  }

  lemma OnePortTrace(p: Port, port: nat, h: Handle, next: Handle, depth: nat)
    requires ValidPort(p) && ValidPorts([p])
    ensures PortsTrace([p], port, h, next, depth) == PortTrace(p, port, h, next, depth)
  {
    assert [p][1..] == [];
    EmptyConcat(PortTrace(p, port, h, next, depth).events);
  }

  lemma PortsTraceStep(ports: seq<Port>, port: nat, h: Handle, next0: Handle, next1: Handle, depth: nat,
                       log: seq<Event>)
    requires 1 <= port <= |ports| && ValidPorts(ports) && ValidPorts(ports[..port - 1])
    requires next1 == PortsTrace(ports[..port - 1], 1, h, next0, depth).next
    ensures ValidPorts(ports[..port])
    ensures ValidPort(ports[port - 1])
    ensures var t := PortsTrace(ports[..port - 1], 1, h, next0, depth);
            var one := PortTrace(ports[port - 1], port, h, next1, depth);
            var t' := PortsTrace(ports[..port], 1, h, next0, depth);
            log + t'.events == log + t.events + one.events && t'.next == one.next
  {
    var p := ports[port - 1];
    assert p in ports;
    assert forall q :: q in ports[..port] ==> q in ports;
    assert ports[..port] == ports[..port - 1] + [p];
    PortsTraceConcat(ports[..port - 1], [p], 1, h, next0, depth);
    OnePortTrace(p, port, h, next1, depth);
    Assoc(log, PortsTrace(ports[..port - 1], 1, h, next0, depth).events, PortTrace(p, port, h, next1, depth).events);
  }
}
