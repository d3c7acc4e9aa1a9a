/**
 * The descriptor formats that displayusb.c walks over (sections 9.6.1, 9.6.3,
 * 9.6.5 and 9.6.6 of USB 2.0, section 6.2.1 of HID 1.11), how the walk reads
 * them out of a zero-filled buffer, and how a device lays them out.
 */
module UsbDescriptors {
  import opened Wrappers
  import opened Sequences

  const CONFIGURATION: Byte := 2
  const INTERFACE: Byte := 4
  const ENDPOINT: Byte := 5
  const HID: Byte := 0x21

  /** The buffer is zeroed before the reply arrives, so it reads as zero past the reply. */
  function At(data: seq<Byte>, i: nat): Byte {
    if i < |data| then data[i] else 0
  }

  /** LowByte + (HighByte << 8) */
  function Word(low: Byte, high: Byte): (w: nat)
    ensures w < 65536 && w % 256 == low && w / 256 == high
  {
    low + 256 * high
  }

  datatype Descriptor =
    | Configuration(length: Byte, totalLength: nat, numInterfaces: Byte, configValue: Byte, iConfiguration: Byte,
                    attributes: Byte, maxPower: Byte)
    | Interface(length: Byte, number: Byte, alternate: Byte, numEndpoints: Byte, interfaceClass: Byte,
                subClass: Byte, protocol: Byte, iInterface: Byte)
    | Endpoint(length: Byte, address: Byte, epAttributes: Byte, maxPacketSize: nat, interval: Byte)
    | Hid(length: Byte, version: nat, countryCode: Byte, descriptorCount: Byte, reportType: Byte, reportLength: nat)
    | Unknown(kind: Byte, bytes: seq<Byte>)

  function KnownAt(data: seq<Byte>, s: nat): Descriptor
    requires At(data, s + 1) in {CONFIGURATION, INTERFACE, ENDPOINT, HID}
  {
    var length, kind := At(data, s), At(data, s + 1);
    if kind == CONFIGURATION then
      Configuration(length, Word(At(data, s + 2), At(data, s + 3)), At(data, s + 4), At(data, s + 5),
                    At(data, s + 6), At(data, s + 7), At(data, s + 8))
    else if kind == INTERFACE then
      Interface(length, At(data, s + 2), At(data, s + 3), At(data, s + 4), At(data, s + 5), At(data, s + 6),
                At(data, s + 7), At(data, s + 8))
    else if kind == ENDPOINT then
      Endpoint(length, At(data, s + 2), At(data, s + 3), Word(At(data, s + 4), At(data, s + 5)), At(data, s + 6))
    else
      Hid(length, Word(At(data, s + 2), At(data, s + 3)), At(data, s + 4), At(data, s + 5), At(data, s + 6),
          Word(At(data, s + 7), At(data, s + 8)))
  }

  predicate IsKnown(kind: Byte) {
    kind in {CONFIGURATION, INTERFACE, ENDPOINT, HID}
  }

  function BytesAt(data: seq<Byte>, s: nat, n: nat): (r: seq<Byte>)
    ensures |r| == n && forall i :: 0 <= i < n ==> r[i] == At(data, s + i)
  {
    seq<Byte>(n, i requires 0 <= i < n => At(data, s + i))
  }

  /** What the walk shows of the descriptor that starts at s. */
  function DescriptorAt(data: seq<Byte>, s: nat): Descriptor {
    if IsKnown(At(data, s + 1)) then KnownAt(data, s)
    else Unknown(At(data, s + 1), BytesAt(data, s, At(data, s)))
  }

  /** How far the walk moves: by kind for the known ones, by the length byte for the others. */
  function Stride(data: seq<Byte>, s: nat): (r: nat) {
    var kind := At(data, s + 1);
    if kind == ENDPOINT then 7 else if IsKnown(kind) then 9 else At(data, s)
  }

  /** The descriptors the walk shows from s on, up to a zero length byte. */
  function Walk(data: seq<Byte>, s: nat): seq<Descriptor>
    decreases |data| - s
  {
    if At(data, s) == 0 then [] else [DescriptorAt(data, s)] + Walk(data, s + Stride(data, s))
  }

  /** Where the walk stops: the index of the zero length byte. */
  function WalkEnd(data: seq<Byte>, s: nat): (e: nat)
    ensures e >= s && At(data, e) == 0
    decreases |data| - s
  {
    if At(data, s) == 0 then s else WalkEnd(data, s + Stride(data, s))
  }

  // -------------------------------------------------------------- the device side

  function Bytes(w: nat): seq<Byte>
    requires w < 65536
  {
    [w % 256, w / 256]
  }

  /** A descriptor as its standard has it; an unknown one has a length of at least two. */
  predicate WellFormed(d: Descriptor) {
    match d
    case Configuration(length, totalLength, _, _, _, _, _) => length == 9 && totalLength < 65536
    case Interface(length, _, _, _, _, _, _, _) => length == 9
    case Endpoint(length, _, _, maxPacketSize, _) => length == 7 && maxPacketSize < 65536
    case Hid(length, version, _, _, _, reportLength) => length == 9 && version < 65536 && reportLength < 65536
    case Unknown(kind, bytes) => 2 <= |bytes| < 256 && bytes[0] == |bytes| && bytes[1] == kind && !IsKnown(kind)
  }

  function Encode(d: Descriptor): (r: seq<Byte>)
    requires WellFormed(d)
    ensures |r| >= 2 && r[0] == |r|
  {
    match d
    case Configuration(length, totalLength, n, v, i, a, p) =>
      [length, CONFIGURATION] + Bytes(totalLength) + [n, v, i, a, p]
    case Interface(length, n, alt, e, c, sub, p, i) => [length, INTERFACE, n, alt, e, c, sub, p, i]
    case Endpoint(length, addr, a, size, i) => [length, ENDPOINT, addr, a] + Bytes(size) + [i]
    case Hid(length, version, c, n, t, len) => [length, HID] + Bytes(version) + [c, n, t] + Bytes(len)
    case Unknown(_, bytes) => bytes
  }

  /** The bytes of each kind, one by one as its standard numbers them. */
  lemma EncodedBytes(d: Descriptor)
    requires WellFormed(d)
    ensures d.Configuration? ==>
              && |Encode(d)| == 9 && Encode(d)[1] == 2
              && Encode(d)[2] == d.totalLength % 256 && Encode(d)[3] == d.totalLength / 256
              && Encode(d)[4..] == [d.numInterfaces, d.configValue, d.iConfiguration, d.attributes, d.maxPower]
    ensures d.Interface? ==>
              && |Encode(d)| == 9 && Encode(d)[1] == 4
              && Encode(d)[2..] == [d.number, d.alternate, d.numEndpoints, d.interfaceClass, d.subClass, d.protocol,
                                    d.iInterface]
    ensures d.Endpoint? ==>
              && |Encode(d)| == 7 && Encode(d)[1] == 5 && Encode(d)[2] == d.address && Encode(d)[3] == d.epAttributes
              && Encode(d)[4] == d.maxPacketSize % 256 && Encode(d)[5] == d.maxPacketSize / 256
              && Encode(d)[6] == d.interval
    ensures d.Hid? ==>
              && |Encode(d)| == 9 && Encode(d)[1] == 0x21
              && Encode(d)[2] == d.version % 256 && Encode(d)[3] == d.version / 256
              && Encode(d)[4..7] == [d.countryCode, d.descriptorCount, d.reportType]
              && Encode(d)[7] == d.reportLength % 256 && Encode(d)[8] == d.reportLength / 256
    ensures d.Unknown? ==> Encode(d) == d.bytes && Encode(d)[1] == d.kind && d.kind !in {2, 4, 5, 0x21}
  {
    var e := Encode(d);
    match d
    case Configuration(_, total, _, _, _, _, _) =>
      assert [e[2], e[3]] == Bytes(total);
      assert e[4..] == [d.numInterfaces, d.configValue, d.iConfiguration, d.attributes, d.maxPower];
    case Hid(_, version, _, _, _, len) =>
      assert [e[2], e[3]] == Bytes(version) && [e[7], e[8]] == Bytes(len);
      assert e[4..7] == [d.countryCode, d.descriptorCount, d.reportType];
    case Endpoint(_, _, _, size, _) =>
      assert [e[4], e[5]] == Bytes(size);
    case Interface(_, _, _, _, _, _, _, _) =>
      assert e[2..] == [d.number, d.alternate, d.numEndpoints, d.interfaceClass, d.subClass, d.protocol, d.iInterface];
    case Unknown(_, _) =>
  }

  /** A descriptor is shown as of the kind that its second byte says, whatever its length. */
  lemma KindsByByte(data: seq<Byte>, s: nat)
    ensures var d, kind := DescriptorAt(data, s), At(data, s + 1);
            && (d.Configuration? <==> kind == 2) && (d.Interface? <==> kind == 4)
            && (d.Endpoint? <==> kind == 5) && (d.Hid? <==> kind == 0x21)
            && (d.Unknown? ==> d.kind == kind && |d.bytes| == At(data, s))
    ensures Stride(data, s) == if At(data, s + 1) in {2, 4, 0x21} then 9
                               else if At(data, s + 1) == 5 then 7 else At(data, s)
  {
  }

  predicate AllWellFormed(ds: seq<Descriptor>) {
    ds == [] || (WellFormed(ds[0]) && AllWellFormed(ds[1..]))
  }

  function EncodeAll(ds: seq<Descriptor>): seq<Byte>
    requires AllWellFormed(ds)
  {
    if ds == [] then [] else Encode(ds[0]) + EncodeAll(ds[1..])
  }

  /** The buffer holds these bytes from s on. */
  predicate HoldsAt(data: seq<Byte>, s: nat, bytes: seq<Byte>) {
    forall i :: 0 <= i < |bytes| ==> At(data, s + i) == bytes[i]
  }

  lemma HoldsAtSplit(data: seq<Byte>, s: nat, a: seq<Byte>, b: seq<Byte>)
    requires HoldsAt(data, s, a + b)
    ensures HoldsAt(data, s, a) && HoldsAt(data, s + |a|, b)
  {
    forall i | 0 <= i < |a| ensures At(data, s + i) == a[i] {
      assert (a + b)[i] == a[i];
    }
    forall i | 0 <= i < |b| ensures At(data, s + |a| + i) == b[i] {
      assert (a + b)[|a| + i] == b[i];
    }
  }

  /** A well-formed descriptor is shown as it is, and the walk moves exactly past it. */
  lemma DescriptorRoundTrip(data: seq<Byte>, s: nat, d: Descriptor)
    requires WellFormed(d) && HoldsAt(data, s, Encode(d))
    ensures At(data, s) != 0 && DescriptorAt(data, s) == d && Stride(data, s) == |Encode(d)|
  {
    var e := Encode(d);
    assert At(data, s + 0) == e[0] && At(data, s + 1) == e[1];
    match d
    case Unknown(kind, bytes) =>
      assert BytesAt(data, s, At(data, s)) == bytes;
    case Endpoint(_, _, _, size, _) =>
      assert e[2] == d.address && e[3] == d.epAttributes && e[6] == d.interval;
      assert e[4] == size % 256 && e[5] == size / 256;
      assert Word(e[4], e[5]) == size;
      assert forall i :: 0 <= i < 7 ==> At(data, s + i) == e[i];
    case Configuration(_, total, _, _, _, _, _) =>
      assert Word(e[2], e[3]) == total;
      assert e[4] == d.numInterfaces && e[5] == d.configValue && e[6] == d.iConfiguration;
      assert e[7] == d.attributes && e[8] == d.maxPower;
      assert forall i :: 0 <= i < 9 ==> At(data, s + i) == e[i];
    case Hid(_, version, _, _, _, len) =>
      assert Word(e[2], e[3]) == version && Word(e[7], e[8]) == len;
      assert e[4] == d.countryCode && e[5] == d.descriptorCount && e[6] == d.reportType;
      assert forall i :: 0 <= i < 9 ==> At(data, s + i) == e[i];
    case Interface(_, _, _, _, _, _, _, _) =>
      assert e[2] == d.number && e[3] == d.alternate && e[4] == d.numEndpoints && e[5] == d.interfaceClass;
      assert e[6] == d.subClass && e[7] == d.protocol && e[8] == d.iInterface;
      assert forall i :: 0 <= i < 9 ==> At(data, s + i) == e[i];
  }

  lemma WalkPast(data: seq<Byte>, s: nat, d: Descriptor)
    requires WellFormed(d) && HoldsAt(data, s, Encode(d))
    ensures Walk(data, s) == [d] + Walk(data, s + |Encode(d)|)
    ensures WalkEnd(data, s) == WalkEnd(data, s + |Encode(d)|)
  {
    DescriptorRoundTrip(data, s, d);
  }

  lemma LayoutSplit(data: seq<Byte>, s: nat, ds: seq<Descriptor>) returns (next: nat)
    requires ds != [] && AllWellFormed(ds) && HoldsAt(data, s, EncodeAll(ds))
    ensures next == s + |Encode(ds[0])| && next + |EncodeAll(ds[1..])| == s + |EncodeAll(ds)|
    ensures HoldsAt(data, s, Encode(ds[0])) && HoldsAt(data, next, EncodeAll(ds[1..]))
  {
    next := s + |Encode(ds[0])|;
    HoldsAtSplit(data, s, Encode(ds[0]), EncodeAll(ds[1..]));
  }

  /** The walk over a layout shows its first descriptor and goes on with the rest. */
  lemma WalkFirst(data: seq<Byte>, s: nat, ds: seq<Descriptor>) returns (next: nat)
    requires ds != [] && AllWellFormed(ds) && HoldsAt(data, s, EncodeAll(ds))
    ensures next + |EncodeAll(ds[1..])| == s + |EncodeAll(ds)|
    ensures HoldsAt(data, next, EncodeAll(ds[1..]))
    ensures Walk(data, s) == [ds[0]] + Walk(data, next) && WalkEnd(data, s) == WalkEnd(data, next)
  {
    next := LayoutSplit(data, s, ds);
    WalkPast(data, s, ds[0]);
  }

  /**
   * Descriptors laid out one after the other and followed by a zero byte are
   * all shown, in order and with their fields, and the walk ends on that zero.
   */
  lemma {:induction false} WalkRoundTrip(data: seq<Byte>, s: nat, ds: seq<Descriptor>)
    requires AllWellFormed(ds)
    requires HoldsAt(data, s, EncodeAll(ds)) && At(data, s + |EncodeAll(ds)|) == 0
    ensures Walk(data, s) == ds && WalkEnd(data, s) == s + |EncodeAll(ds)|
    decreases |ds|
  {
    if ds != [] {
      var next := WalkFirst(data, s, ds);
      WalkRoundTrip(data, next, ds[1..]);
      ConsHeadTail(ds);
    }
  }

  /** In particular a reply that is nothing but well-formed descriptors is shown completely. */
  lemma ReplyRoundTrip(ds: seq<Descriptor>)
    requires AllWellFormed(ds)
    ensures Walk(EncodeAll(ds), 0) == ds
  {
    WalkRoundTrip(EncodeAll(ds), 0, ds);
  }

  // ------------------------------------------------- exactly when it stays aligned

  /** Where the walk takes descriptors to start. */
  function Starts(data: seq<Byte>, s: nat): seq<nat>
    decreases |data| - s
  {
    if At(data, s) == 0 then [] else [s] + Starts(data, s + Stride(data, s))
  }

  /** Any descriptor of at least two bytes, whatever its kind: its first byte is its length. */
  predicate Raw(d: seq<Byte>) {
    2 <= |d| < 256 && d[0] == |d|
  }

  predicate AllRaw(ds: seq<seq<Byte>>) {
    ds == [] || (Raw(ds[0]) && AllRaw(ds[1..]))
  }

  function Layout(ds: seq<seq<Byte>>): seq<Byte> {
    if ds == [] then [] else ds[0] + Layout(ds[1..])
  }

  /** Where the descriptors of a layout do start. */
  function Boundaries(ds: seq<seq<Byte>>, s: nat): seq<nat> {
    if ds == [] then [] else [s] + Boundaries(ds[1..], s + |ds[0]|)
  }

  /** Known kinds have the length of their standard. */
  predicate StandardLength(d: seq<Byte>)
    requires Raw(d)
  {
    IsKnown(d[1]) ==> |d| == if d[1] == ENDPOINT then 7 else 9
  }

  predicate AllStandard(ds: seq<seq<Byte>>)
    requires AllRaw(ds)
  {
    ds == [] || (StandardLength(ds[0]) && AllStandard(ds[1..]))
  }

  lemma StrideOfRaw(data: seq<Byte>, s: nat, d: seq<Byte>)
    requires Raw(d) && HoldsAt(data, s, d)
    ensures At(data, s) == |d| && (Stride(data, s) == |d| <==> StandardLength(d))
  {
    assert At(data, s + 0) == d[0] && At(data, s + 1) == d[1];
  }

  /**
   * Over any layout of descriptors the walk stops at every boundary, at nothing
   * else, and ends at the end of the layout, exactly when each configuration,
   * interface, endpoint and HID descriptor has its standard length.
   */
  lemma {:induction false} AlignedExactly(data: seq<Byte>, s: nat, ds: seq<seq<Byte>>)
    requires AllRaw(ds) && HoldsAt(data, s, Layout(ds)) && At(data, s + |Layout(ds)|) == 0
    ensures Starts(data, s) == Boundaries(ds, s) && WalkEnd(data, s) == s + |Layout(ds)| <==> AllStandard(ds)
    decreases |ds|
  {
    if ds != [] {
      var rest, boundary, next := ds[1..], s + |ds[0]|, s + Stride(data, s);
      HoldsAtSplit(data, s, ds[0], Layout(rest));
      StrideOfRaw(data, s, ds[0]);
      assert next + |Layout(rest)| == s + |Layout(ds)| <==> next == boundary;
      assert Starts(data, s) == [s] + Starts(data, next) && Starts(data, s)[1..] == Starts(data, next);
      assert Boundaries(ds, s)[1..] == Boundaries(rest, boundary);
      if StandardLength(ds[0]) {
        AlignedExactly(data, boundary, rest);
      } else {
        MisalignedAfter(data, next, boundary, rest);
      }
    }
  }

  lemma MisalignedAfter(data: seq<Byte>, next: nat, boundary: nat, rest: seq<seq<Byte>>)
    requires next != boundary
    ensures Starts(data, next) != Boundaries(rest, boundary) || WalkEnd(data, next) != boundary + |Layout(rest)|
  {
    if rest == [] {
      assert At(data, next) == 0 ==> WalkEnd(data, next) == next;
    } else {
      assert Boundaries(rest, boundary)[0] == boundary;
      assert Starts(data, next) != [] ==> Starts(data, next)[0] == next;
    }
  }

  /** A reply of n bytes is walked to at most index n - 1 + 255, whatever the bytes are. */
  lemma {:induction false} WalkBound(data: seq<Byte>, s: nat)
    ensures WalkEnd(data, s) <= if s < |data| then |data| + 254 else s
    ensures |Walk(data, s)| <= if s < |data| then |data| - s else 0
    decreases |data| - s
  {
    if At(data, s) != 0 {
      WalkBound(data, s + Stride(data, s));
    }
  }

  /** For replies of 256 bytes the bound of 510 is reached. */
  lemma WalkBoundIsTight()
    ensures exists data: seq<Byte> :: |data| == 256 && WalkEnd(data, 0) == 510
  {
    var data: seq<Byte> := seq(256, i => if i == 0 || i == 255 then 255 else 0);
    assert At(data, 0) == 255 && At(data, 1) == 0 && At(data, 255) == 255 && At(data, 256) == 0;
    assert WalkEnd(data, 510) == 510;
    assert WalkEnd(data, 255) == WalkEnd(data, 510);
    assert WalkEnd(data, 0) == WalkEnd(data, 255);
  }

  // ------------------------------------------------------------ string descriptors

  /** The string index a descriptor refers to; zero for none. */
  function StringIndex(d: Descriptor): Byte {
    match d
    case Configuration(_, _, _, _, i, _, _) => i
    case Interface(_, _, _, _, _, _, _, i) => i
    case _ => 0
  }

  /** The string indices of a list of descriptors, in order, zeros included. */
  function StringIndices(ds: seq<Descriptor>): seq<Byte> {
    if ds == [] then [] else [StringIndex(ds[0])] + StringIndices(ds[1..])
  }

  /** The byte of a descriptor that refers to a string: the seventh of a configuration, the ninth of an interface. */
  lemma StringIndexByByte(data: seq<Byte>, s: nat)
    ensures StringIndex(DescriptorAt(data, s))
         == if At(data, s + 1) == 2 then At(data, s + 6) else if At(data, s + 1) == 4 then At(data, s + 8) else 0
  {
  }

  lemma {:induction false} StringIndicesAt(ds: seq<Descriptor>, i: nat)
    requires i < |ds|
    ensures |StringIndices(ds)| == |ds| && StringIndices(ds)[i] == StringIndex(ds[i])
  {
    if |ds| > 1 {
      StringIndicesAt(ds[1..], if i > 0 then i - 1 else 0);
    }
  }

  // ------------------------------------------------------------- the device descriptor

  datatype DeviceDescriptor = DeviceDescriptor(
    length: Byte, kind: Byte, bcdUsb: nat, deviceClass: Byte, subClass: Byte, protocol: Byte, maxPacketSize0: Byte,
    vendor: nat, product: nat, release: nat, iManufacturer: Byte, iProduct: Byte, iSerialNumber: Byte,
    numConfigurations: Byte)

  predicate WellFormedDevice(d: DeviceDescriptor) {
    d.bcdUsb < 65536 && d.vendor < 65536 && d.product < 65536 && d.release < 65536
  }

  function EncodeDevice(d: DeviceDescriptor): (r: seq<Byte>)
    requires WellFormedDevice(d)
    ensures |r| == 18
  {
    [d.length, d.kind] + Bytes(d.bcdUsb) + [d.deviceClass, d.subClass, d.protocol, d.maxPacketSize0]
    + Bytes(d.vendor) + Bytes(d.product) + Bytes(d.release)
    + [d.iManufacturer, d.iProduct, d.iSerialNumber, d.numConfigurations]
  }

  function DecodeDevice(b: seq<Byte>): DeviceDescriptor
    requires |b| == 18
  {
    DeviceDescriptor(b[0], b[1], Word(b[2], b[3]), b[4], b[5], b[6], b[7], Word(b[8], b[9]), Word(b[10], b[11]),
                     Word(b[12], b[13]), b[14], b[15], b[16], b[17])
  }

  lemma DeviceRoundTrip(d: DeviceDescriptor)
    requires WellFormedDevice(d)
    ensures DecodeDevice(EncodeDevice(d)) == d
  {
    var e := EncodeDevice(d);
    assert Word(e[2], e[3]) == d.bcdUsb && Word(e[8], e[9]) == d.vendor;
    assert Word(e[10], e[11]) == d.product && Word(e[12], e[13]) == d.release;
  }

  /** The bytes of a device descriptor, one by one as table 9-8 of USB 2.0 numbers them. */
  lemma DeviceBytes(d: DeviceDescriptor)
    requires WellFormedDevice(d)
    ensures var e := EncodeDevice(d);
            && e[0] == d.length && e[1] == d.kind && e[2] == d.bcdUsb % 256 && e[3] == d.bcdUsb / 256
            && e[4] == d.deviceClass && e[5] == d.subClass && e[6] == d.protocol && e[7] == d.maxPacketSize0
            && e[8] == d.vendor % 256 && e[9] == d.vendor / 256
            && e[10] == d.product % 256 && e[11] == d.product / 256
            && e[12] == d.release % 256 && e[13] == d.release / 256
            && e[14] == d.iManufacturer && e[15] == d.iProduct && e[16] == d.iSerialNumber
            && e[17] == d.numConfigurations
    ensures DeviceStringIndices(EncodeDevice(d)) == [d.iManufacturer, d.iProduct, d.iSerialNumber]
  {
  }

  function DeviceStringIndices(b: seq<Byte>): seq<Byte>
    requires |b| == 18
  {
    [b[14], b[15], b[16]]
  }
}
