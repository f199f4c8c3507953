/**
 The walks over records nested inside one structure: the protocol records of a management
 controller host interface (type 42), the entries of an additional information structure
 (type 40) and the device list of a memory channel (type 37).
 */
module Records {
  import opened Bytes
  import opened StringSet
  import opened Table

  /** The offsets [start, end) of one nested record. */
  datatype Span = Span(start: nat, end: nat)

  /** Spans follow each other without gaps from one offset, none is empty, and all end by limit. */
  predicate Tiles(spans: seq<Span>, from: nat, limit: nat) {
    if spans == [] then from <= limit
    else spans[0].start == from && from < spans[0].end && Tiles(spans[1..], spans[0].end, limit)
  }

  /** Where the walk stands after these spans. */
  function After(spans: seq<Span>, from: nat): nat {
    if spans == [] then from else After(spans[1..], spans[0].end)
  }

  /** Spans that tile a range lie in it, in order, and do not overlap. */
  lemma {:induction false} TilesOrdered(spans: seq<Span>, from: nat, limit: nat)
    requires Tiles(spans, from, limit)
    ensures forall k :: 0 <= k < |spans| ==> from <= spans[k].start < spans[k].end <= limit
    ensures forall j, k :: 0 <= j < k < |spans| ==> spans[j].end <= spans[k].start
    decreases |spans|
  {
    if spans != [] {
      TilesOrdered(spans[1..], spans[0].end, limit);
      if |spans| == 1 {
        assert spans[0].end <= limit;
      } else {
        assert spans[1..][0] == spans[1];
      }
    }
  }

  lemma TilesMore(s: Span, spans: seq<Span>, limit: nat)
    requires s.start < s.end && Tiles(spans, s.end, limit)
    ensures Tiles([s] + spans, s.start, limit)
    ensures After([s] + spans, s.start) == After(spans, s.end)
  {
    assert ([s] + spans)[1..] == spans;
  }

  // ----- Type 42: protocol records

  const HOST_MINIMUM: u8 := 0x0B
  const NETWORK: u8 := 0x40
  const REDFISH: u8 := 0x04
  const REDFISH_MINIMUM: u8 := 91

  /** The records, at most count of them, as long as they end by limit; byte 1 of each is its payload size. */
  function Protocols(b: seq<u8>, at: nat, limit: nat, count: nat): seq<Span>
    requires at <= limit && limit + 2 <= |b|
    decreases count
  {
    var end := at + 2 + b[at + 1];
    if count == 0 || end > limit then [] else [Span(at, end)] + Protocols(b, end, limit, count - 1)
  }

  /**
   The decoded records are contiguous, disjoint, in order and inside the structure, and the
   walk gives up early only at a record that would end outside it.
   */
  lemma {:induction false} ProtocolsTile(b: seq<u8>, at: nat, limit: nat, count: nat)
    requires at <= limit && limit + 2 <= |b|
    ensures var spans := Protocols(b, at, limit, count);
      && Tiles(spans, at, limit) && |spans| <= count && After(spans, at) <= limit
      && (|spans| < count ==> After(spans, at) + 2 + b[After(spans, at) + 1] > limit)
    decreases count
  {
    var end := at + 2 + b[at + 1];
    if count != 0 && end <= limit {
      ProtocolsTile(b, end, limit, count - 1);
      ProtocolsMore(b, at, limit, count);
      hide Protocols, Tiles, After;
      TilesMore(Span(at, end), Protocols(b, end, limit, count - 1), limit);
    }
  }

  /** A protocol record as it is stored: identifier, payload size, payload. */
  datatype Protocol = Protocol(id: u8, payload: seq<u8>)

  function PrintProtocols(ps: seq<Protocol>): seq<u8>
    requires forall k :: 0 <= k < |ps| ==> |ps[k].payload| < 0x100
  {
    if ps == [] then []
    else [ps[0].id, |ps[0].payload| as u8] + ps[0].payload + PrintProtocols(ps[1..])
  }

  /** The spans hold the records, in order. */
  ghost predicate HoldProtocols(b: seq<u8>, spans: seq<Span>, ps: seq<Protocol>) {
    && |spans| == |ps|
    && forall k :: 0 <= k < |spans| ==> HoldsProtocol(b, spans[k], ps[k])
  }

  predicate HoldsProtocol(b: seq<u8>, s: Span, p: Protocol) {
    s.start + 2 <= s.end <= |b| && Protocol(b[s.start], b[s.start + 2..s.end]) == p
  }

  /** Stored records that fit are all decoded, each with its identifier and payload. */
  lemma {:induction false} ProtocolsRoundTrip(b: seq<u8>, at: nat, limit: nat, ps: seq<Protocol>)
    requires forall k :: 0 <= k < |ps| ==> |ps[k].payload| < 0x100
    requires at + |PrintProtocols(ps)| <= limit && limit + 2 <= |b| && StandsAt(b, at, PrintProtocols(ps))
    ensures HoldProtocols(b, Protocols(b, at, limit, |ps|), ps)
    ensures After(Protocols(b, at, limit, |ps|), at) == at + |PrintProtocols(ps)|
    decreases |ps|
  {
    if ps != [] {
      var p, rest := ps[0], PrintProtocols(ps[1..]);
      var end := at + 2 + |p.payload|;
      ProtocolHead(b, at, p, rest);
      ProtocolsRoundTrip(b, end, limit, ps[1..]);
      ProtocolsMore(b, at, limit, |ps|);
      hide *;
      HoldMore(b, Span(at, end), Protocols(b, end, limit, |ps| - 1), ps);
    }
  }

  lemma ProtocolHead(b: seq<u8>, at: nat, p: Protocol, rest: seq<u8>)
    requires |p.payload| < 0x100 && StandsAt(b, at, [p.id, |p.payload| as u8] + p.payload + rest)
    ensures var end := at + 2 + |p.payload|;
      HoldsProtocol(b, Span(at, end), p) && b[at + 1] == |p.payload| && StandsAt(b, end, rest)
  {
    var head := [p.id, |p.payload| as u8];
    StandsSplit(b, at, head + p.payload, rest);
    StandsSplit(b, at, head, p.payload);
    assert b[at] == b[at..at + 2][0] && b[at + 1] == b[at..at + 2][1];
  }

  lemma ProtocolsCases(b: seq<u8>, at: nat, limit: nat, count: nat)
    requires at <= limit && limit + 2 <= |b|
    ensures var end := at + 2 + b[at + 1];
      Protocols(b, at, limit, count) ==
        if count == 0 || end > limit then [] else [Span(at, end)] + Protocols(b, end, limit, count - 1)
  {
  }

  lemma ProtocolsMore(b: seq<u8>, at: nat, limit: nat, count: nat)
    requires at <= limit && limit + 2 <= |b| && count > 0 && at + 2 + b[at + 1] <= limit
    ensures var end := at + 2 + b[at + 1];
      Protocols(b, at, limit, count) == [Span(at, end)] + Protocols(b, end, limit, count - 1)
  {
  }

  lemma HoldMore(b: seq<u8>, s: Span, spans: seq<Span>, ps: seq<Protocol>)
    requires ps != [] && HoldsProtocol(b, s, ps[0]) && HoldProtocols(b, spans, ps[1..])
    ensures HoldProtocols(b, [s] + spans, ps)
    ensures After([s] + spans, s.start) == After(spans, s.end)
  {
    hide HoldsProtocol;
    assert ([s] + spans)[1..] == spans;
  }

  /** The bootstrapping handle of a device that has one; without the field nothing is known. */
  datatype Extension = Absent | NoBootstrap(characteristics: u16) | Bootstrap(characteristics: u16, handle: u16)

  /** What is shown of the interface-specific data, by device type (DSP0270, section 8.3). */
  datatype Device =
    | NoData
    | Unshown(typ: u8)                 // an unknown type, or too little data for its layout
    | Usb(vendor: u16, product: u16)
    | Pci(vendor: u16, device: u16, subVendor: u16, subDevice: u16)
    | UsbV2(vendor: u16, product: u16, mac: seq<u8>, extension: Extension)
    | PciV2(vendor: u16, device: u16, subVendor: u16, subDevice: u16, mac: seq<u8>, slot: seq<u8>, extension: Extension)
    | Oem(typ: u8, vendorId: seq<u8>)

  /** The layout of the data, whose first byte is the device type. */
  function DeviceAt(d: seq<u8>): Device {
    if d == [] then NoData
    else if d[0] == 2 && |d| >= 5 then Usb(Word(d, 1), Word(d, 3))
    else if d[0] == 3 && |d| >= 9 then Pci(Word(d, 1), Word(d, 3), Word(d, 5), Word(d, 7))
    else if d[0] == 4 && |d| >= 0x0D then
      UsbV2(Word(d, 2), Word(d, 4), d[7..13], if |d| >= 0x11 then ExtensionAt(d, 13) else Absent)
    else if d[0] == 5 && |d| >= 0x14 then
      PciV2(Word(d, 2), Word(d, 4), Word(d, 6), Word(d, 8), d[10..16], d[16..20],
            if |d| >= 0x18 then ExtensionAt(d, 20) else Absent)
    else if d[0] >= 0x80 && |d| >= 5 then Oem(d[0], d[1..5])
    else Unshown(d[0])
  }

  function ExtensionAt(d: seq<u8>, at: nat): Extension
    requires at + 4 <= |d|
  {
    if Word(d, at) % 2 == 1 then Bootstrap(Word(d, at), Word(d, at + 2)) else NoBootstrap(Word(d, at))
  }

  /** The number of data bytes that a device type needs to be shown. */
  function Needed(typ: u8): Option<nat> {
    if typ == 2 then Some(5)
    else if typ == 3 then Some(9)
    else if typ == 4 then Some(13)
    else if typ == 5 then Some(20)
    else if typ >= 0x80 then Some(5)
    else None
  }

  /** A device with data is shown exactly when its type is known and its layout fits the announced size. */
  lemma DeviceShownIff(d: seq<u8>)
    ensures !DeviceAt(d).NoData? && !DeviceAt(d).Unshown? <==> d != [] && Needed(d[0]).Some? && Needed(d[0]).value <= |d|
  {
  }

  function Bytes2(n: u16): (b: seq<u8>)
    ensures |b| == 2
  {
    [n % 0x100, n / 0x100]
  }

  /** The data of a device; unread bytes are zero, and a device with an extension fills the longer layout. */
  function PrintDevice(d: Device): seq<u8> {
    match d
    case NoData => []
    case Unshown(typ) => [typ]
    case Usb(vendor, product) => [2] + Bytes2(vendor) + Bytes2(product)
    case Pci(vendor, device, subVendor, subDevice) =>
      [3] + Bytes2(vendor) + Bytes2(device) + Bytes2(subVendor) + Bytes2(subDevice)
    case UsbV2(vendor, product, mac, extension) =>
      [4, 0] + Bytes2(vendor) + Bytes2(product) + [0] + mac + PrintExtension(extension)
    case PciV2(vendor, device, subVendor, subDevice, mac, slot, extension) =>
      [5, 0] + Bytes2(vendor) + Bytes2(device) + Bytes2(subVendor) + Bytes2(subDevice) + mac + slot
      + PrintExtension(extension)
    case Oem(typ, vendorId) => [typ] + vendorId
  }

  function PrintExtension(e: Extension): seq<u8> {
    match e
    case Absent => []
    case NoBootstrap(characteristics) => Bytes2(characteristics) + [0, 0]
    case Bootstrap(characteristics, handle) => Bytes2(characteristics) + Bytes2(handle)
  }

  predicate ExtensionOk(e: Extension) {
    (e.NoBootstrap? ==> e.characteristics % 2 == 0) && (e.Bootstrap? ==> e.characteristics % 2 == 1)
  }

  predicate DeviceOk(d: Device) {
    match d
    case Unshown(typ) => Needed(typ) == None || Needed(typ).value > 1
    case UsbV2(_, _, mac, extension) => |mac| == 6 && ExtensionOk(extension)
    case PciV2(_, _, _, _, mac, slot, extension) => |mac| == 6 && |slot| == 4 && ExtensionOk(extension)
    case Oem(typ, vendorId) => typ >= 0x80 && |vendorId| == 4
    case _ => true
  }

  lemma WordBytes(b: seq<u8>, at: nat, n: u16)
    requires StandsAt(b, at, Bytes2(n))
    ensures Word(b, at) == n
  {
    assert b[at] == b[at..at + 2][0] && b[at + 1] == b[at..at + 2][1];
  }

  lemma ExtensionFound(d: seq<u8>, at: nat, e: Extension)
    requires ExtensionOk(e) && at <= |d| && d[at..] == PrintExtension(e)
    ensures |d| == if e.Absent? then at else at + 4
    ensures e != Absent ==> ExtensionAt(d, at) == e
  {
    hide Word;
    if e != Absent {
      assert d[at..at + 2] == d[at..][..2] == Bytes2(e.characteristics);
      WordBytes(d, at, e.characteristics);
      if e.Bootstrap? {
        assert d[at + 2..at + 4] == d[at..][2..] == Bytes2(e.handle);
        WordBytes(d, at + 2, e.handle);
      }
    }
  }

  lemma PciFound(vendor: u16, device: u16, subVendor: u16, subDevice: u16)
    ensures DeviceAt(PrintDevice(Pci(vendor, device, subVendor, subDevice))) == Pci(vendor, device, subVendor, subDevice)
  {
    hide Word, Bytes2, PrintExtension, ExtensionAt;
    var b := PrintDevice(Pci(vendor, device, subVendor, subDevice));
    assert b[1..3] == Bytes2(vendor) && b[3..5] == Bytes2(device);
    assert b[5..7] == Bytes2(subVendor);
    assert b[7..9] == b[7..] == Bytes2(subDevice);
    WordBytes(b, 1, vendor);
    WordBytes(b, 3, device);
    WordBytes(b, 5, subVendor);
    WordBytes(b, 7, subDevice);
  }

  lemma UsbV2Found(d: Device)
    requires d.UsbV2? && DeviceOk(d)
    ensures DeviceAt(PrintDevice(d)) == d
  {
    hide Word, Bytes2, PrintExtension, ExtensionAt, ExtensionOk;
    var b := PrintDevice(d);
    assert b[2..4] == Bytes2(d.vendor) && b[4..6] == Bytes2(d.product) && b[7..13] == d.mac;
    assert b[13..] == PrintExtension(d.extension);
    WordBytes(b, 2, d.vendor);
    WordBytes(b, 4, d.product);
    ExtensionFound(b, 13, d.extension);
  }

  lemma PciV2Found(d: Device)
    requires d.PciV2? && DeviceOk(d)
    ensures DeviceAt(PrintDevice(d)) == d
  {
    hide Word, Bytes2, PrintExtension, ExtensionAt, ExtensionOk;
    var b := PrintDevice(d);
    assert b[2..4] == Bytes2(d.vendor) && b[4..6] == Bytes2(d.device);
    assert b[6..8] == Bytes2(d.subVendor) && b[8..10] == Bytes2(d.subDevice);
    assert b[10..16] == d.mac && b[16..20] == d.slot && b[20..] == PrintExtension(d.extension);
    WordBytes(b, 2, d.vendor);
    WordBytes(b, 4, d.device);
    WordBytes(b, 6, d.subVendor);
    WordBytes(b, 8, d.subDevice);
    ExtensionFound(b, 20, d.extension);
  }

  /** Every device is read back from its data. */
  lemma DeviceRoundTrip(d: Device)
    requires DeviceOk(d)
    ensures DeviceAt(PrintDevice(d)) == d
  {
    hide Word, Bytes2, PrintExtension, ExtensionAt, ExtensionOk;
    match d
    case Pci(vendor, device, subVendor, subDevice) => PciFound(vendor, device, subVendor, subDevice);
    case UsbV2(_, _, _, _) => UsbV2Found(d);
    case PciV2(_, _, _, _, _, _, _) => PciV2Found(d);
    case Usb(vendor, product) =>
      var b := PrintDevice(d);
      assert b[1..3] == Bytes2(vendor) && b[3..5] == b[3..] == Bytes2(product);
      WordBytes(b, 1, vendor);
      WordBytes(b, 3, product);
    case Oem(typ, vendorId) =>
      assert PrintDevice(d)[1..5] == vendorId;
    case _ =>
  }

  lemma PeekedWord(buf: array<u8>, i: nat, lo: nat, hi: nat)
    requires lo <= i && i + 1 < hi <= buf.Length
    ensures PeekWord(buf, i, lo, hi) == Word(buf[..], i)
  {
  }

  /** The word at an offset of the data that starts at base. */
  method ReadWord(buf: array<u8>, base: nat, at: nat, ghost d: seq<u8>) returns (w: u16)
    requires base + |d| <= buf.Length && d == buf[base..base + |d|] && at + 2 <= |d|
    ensures w == Word(d, at)
  {
    assert d[at] == buf[base + at] && d[at + 1] == buf[base + at + 1];
    w := PeekWord(buf, base + at, base, base + |d|);
  }

  method ReadBytes(buf: array<u8>, base: nat, at: nat, count: nat, ghost d: seq<u8>) returns (s: seq<u8>)
    requires base + |d| <= buf.Length && d == buf[base..base + |d|] && at + count <= |d|
    ensures s == d[at..at + count]
  {
    s := [];
    for i := 0 to count
      invariant s == d[at..at + i]
    {
      assert d[at + i] == buf[base + at + i];
      s := s + [Peek(buf, base + at + i, base, base + |d|)];
    }
  }

  method ReadExtension(buf: array<u8>, base: nat, at: nat, ghost d: seq<u8>) returns (e: Extension)
    requires base + |d| <= buf.Length && d == buf[base..base + |d|] && at + 4 <= |d|
    ensures e == ExtensionAt(d, at)
  {
    var characteristics := ReadWord(buf, base, at, d);
    if characteristics % 2 == 1 {
      var handle := ReadWord(buf, base, at + 2, d);
      return Bootstrap(characteristics, handle);
    }
    return NoBootstrap(characteristics);
  }

  /** Reads the interface-specific data, of announced size len, and no byte outside it. */
  method ReadDevice(buf: array<u8>, base: nat, len: u8) returns (r: Device)
    requires base + len <= buf.Length
    ensures r == DeviceAt(buf[base..base + len])
  {
    hide Word, ExtensionAt;
    ghost var d := buf[base..base + len];
    if len == 0 {
      return NoData;
    }
    var typ := Peek(buf, base, base, base + len);
    assert typ == d[0];
    if typ == 2 && len >= 5 {
      var vendor := ReadWord(buf, base, 1, d);
      var product := ReadWord(buf, base, 3, d);
      return Usb(vendor, product);
    } else if typ == 3 && len >= 9 {
      var vendor := ReadWord(buf, base, 1, d);
      var device := ReadWord(buf, base, 3, d);
      var subVendor := ReadWord(buf, base, 5, d);
      var subDevice := ReadWord(buf, base, 7, d);
      return Pci(vendor, device, subVendor, subDevice);
    } else if typ == 4 && len >= 0x0D {
      var vendor := ReadWord(buf, base, 2, d);
      var product := ReadWord(buf, base, 4, d);
      var mac := ReadBytes(buf, base, 7, 6, d);
      var extension := Absent;
      if len >= 0x11 {
        extension := ReadExtension(buf, base, 13, d);
      }
      return UsbV2(vendor, product, mac, extension);
    } else if typ == 5 && len >= 0x14 {
      var vendor := ReadWord(buf, base, 2, d);
      var device := ReadWord(buf, base, 4, d);
      var subVendor := ReadWord(buf, base, 6, d);
      var subDevice := ReadWord(buf, base, 8, d);
      var mac := ReadBytes(buf, base, 10, 6, d);
      var slot := ReadBytes(buf, base, 16, 4, d);
      var extension := Absent;
      if len >= 0x18 {
        extension := ReadExtension(buf, base, 20, d);
      }
      return PciV2(vendor, device, subVendor, subDevice, mac, slot, extension);
    } else if typ >= 0x80 && len >= 5 {
      var vendorId := ReadBytes(buf, base, 1, 4, d);
      return Oem(typ, vendorId);
    }
    return Unshown(typ);
  }

  /** An identifier is given by all its sixteen bytes, unless they say that there is none or that none is set. */
  datatype Uuid = NotPresent | NotSettable | Value(bytes: seq<u8>)

  predicate AllAre(b: seq<u8>, lo: nat, hi: nat, v: u8)
    requires hi <= |b|
  {
    forall k :: lo <= k < hi ==> b[k] == v
  }

  /** The first three fields are stored with their low byte first and shown with their high byte first. */
  function UuidAt(b: seq<u8>, p: nat): Uuid
    requires p + 16 <= |b|
  {
    if AllAre(b, p, p + 16, 0xFF) then NotPresent
    else if AllAre(b, p, p + 16, 0) then NotSettable
    else Value([b[p + 3], b[p + 2], b[p + 1], b[p], b[p + 5], b[p + 4], b[p + 7], b[p + 6]] + b[p + 8..p + 16])
  }

  /** Different identifiers are shown differently. */
  lemma UuidInjective(b: seq<u8>, p: nat, c: seq<u8>, q: nat)
    requires p + 16 <= |b| && q + 16 <= |c| && UuidAt(b, p) == UuidAt(c, q)
    ensures b[p..p + 16] == c[q..q + 16]
  {
    var u := UuidAt(b, p);
    if u.Value? {
      hide AllAre;
      assert u.bytes[8..] == b[p + 8..p + 16] && u.bytes[8..] == c[q + 8..q + 16];
      assert b[p..p + 8] == [u.bytes[3], u.bytes[2], u.bytes[1], u.bytes[0], u.bytes[5], u.bytes[4], u.bytes[7], u.bytes[6]];
      assert c[q..q + 8] == b[p..p + 8];
      assert b[p..p + 16] == b[p..p + 8] + b[p + 8..p + 16];
      assert c[q..q + 16] == c[q..q + 8] + c[q + 8..q + 16];
    } else {
      var v: u8 := if u == NotPresent then 0xFF else 0;
      assert b[p..p + 16] == seq(16, _ => v) == c[q..q + 16];
    }
  }

  /** Looks whether all bytes are the same, as long as that is possible, then shows them in order. */
  method ReadUuid(buf: array<u8>, p: nat, ghost b: seq<u8>, ghost lo: nat, ghost hi: nat) returns (u: Uuid)
    requires lo <= p && p + 16 <= hi <= buf.Length && b == buf[..]
    ensures u == UuidAt(b, p)
  {
    var onlyFF, only00 := true, true;
    var i := 0;
    while i < 16 && (only00 || onlyFF)
      invariant 0 <= i <= 16
      invariant onlyFF == AllAre(b, p, p + i, 0xFF)
      invariant only00 == AllAre(b, p, p + i, 0)
    {
      assert b[p + i] == buf[p + i];
      if Peek(buf, p + i, lo, hi) != 0x00 {
        only00 := false;
      }
      if Peek(buf, p + i, lo, hi) != 0xFF {
        onlyFF := false;
      }
      i := i + 1;
    }
    if onlyFF {
      return NotPresent;
    }
    if only00 {
      return NotSettable;
    }
    assert !AllAre(b, p, p + 16, 0xFF) && !AllAre(b, p, p + 16, 0);
    hide AllAre;
    var rest := [];
    for k := 8 to 16
      invariant rest == b[p + 8..p + k]
    {
      rest := rest + [Peek(buf, p + k, lo, hi)];
    }
    return Value([Peek(buf, p + 3, lo, hi), Peek(buf, p + 2, lo, hi), Peek(buf, p + 1, lo, hi), Peek(buf, p, lo, hi),
                  Peek(buf, p + 5, lo, hi), Peek(buf, p + 4, lo, hi), Peek(buf, p + 7, lo, hi), Peek(buf, p + 6, lo, hi)]
                 + rest);
  }

  /** One side of a connection: assignment type, address format, and the address and mask if there are any. */
  datatype Endpoint = Endpoint(assignment: u8, format: u8, address: seq<u8>, mask: seq<u8>)

  /** The fields of a Redfish over IP record (DSP0270, section 8.4.1) that are shown. */
  datatype Redfish = Redfish(
    service: Uuid,
    host: Endpoint,
    discovery: Endpoint,
    port: Option<u16>,
    vlan: Option<u32>,
    hostname: Option<seq<u8>>)

  /** Only static and automatic assignments come with addresses. */
  predicate HasAddress(assignment: u8) {
    assignment == 1 || assignment == 3
  }

  function AddressSize(format: u8): nat {
    if format == 1 then 4 else if format == 2 then 16 else 0
  }

  /** The layout of a Redfish record; the name counts only when it ends inside the record. */
  function RedfishAt(b: seq<u8>, rec: nat): Redfish
    requires rec + 1 < |b| && b[rec + 1] >= REDFISH_MINIMUM && rec + 2 + b[rec + 1] <= |b|
  {
    Redfish(
      UuidAt(b, rec + 2),
      EndpointAt(b, rec + 18),
      EndpointAt(b, rec + 52),
      PortAt(b, rec, b[rec + 52]),
      VlanAt(b, rec, b[rec + 52]),
      HostnameAt(b, rec))
  }

  function PortAt(b: seq<u8>, rec: nat, assignment: u8): Option<u16>
    requires rec + 88 <= |b|
  {
    if HasAddress(assignment) then Some(Word(b, rec + 86)) else None
  }

  function VlanAt(b: seq<u8>, rec: nat, assignment: u8): Option<u32>
    requires rec + 92 <= |b|
  {
    if HasAddress(assignment) then Some(DWord(b, rec + 88)) else None
  }

  function EndpointAt(b: seq<u8>, at: nat): Endpoint
    requires at + 34 <= |b|
  {
    Endpoint(b[at], b[at + 1], AddressAt(b, at + 2, b[at], b[at + 1]), AddressAt(b, at + 18, b[at], b[at + 1]))
  }

  function HostnameAt(b: seq<u8>, rec: nat): Option<seq<u8>>
    requires rec + 93 <= |b| && rec + 2 + b[rec + 1] <= |b|
  {
    var start: nat, size: nat := rec + 93, b[rec + 92];
    if start + size <= rec + 2 + b[rec + 1] then Some(b[start..start + size]) else None
  }

  function AddressAt(b: seq<u8>, at: nat, assignment: u8, format: u8): seq<u8>
    requires at + 16 <= |b|
  {
    if HasAddress(assignment) then b[at..at + AddressSize(format)] else []
  }

  /** The bytes of an address field; IPv6 takes sixteen, IPv4 four of them. */
  method ReadAddress(buf: array<u8>, at: nat, format: u8, ghost b: seq<u8>, ghost lo: nat, ghost hi: nat)
    returns (address: seq<u8>)
    requires lo <= at && at + 16 <= hi <= buf.Length && b == buf[..]
    ensures address == b[at..at + AddressSize(format)]
  {
    var size := AddressSize(format);
    address := [];
    for i := 0 to size
      invariant address == b[at..at + i]
    {
      address := address + [Peek(buf, at + i, lo, hi)];
    }
  }

  /** The address and mask follow the assignment type and the address format. */
  method ReadEndpoint(buf: array<u8>, at: nat, ghost b: seq<u8>, ghost lo: nat, ghost hi: nat) returns (e: Endpoint)
    requires lo <= at && at + 34 <= hi <= buf.Length && b == buf[..]
    ensures e == EndpointAt(b, at)
  {
    var assignment := Peek(buf, at, lo, hi);
    var format := Peek(buf, at + 1, lo, hi);
    var address, mask := [], [];
    if HasAddress(assignment) {
      address := ReadAddress(buf, at + 2, format, b, lo, hi);
      mask := ReadAddress(buf, at + 18, format, b, lo, hi);
    }
    return Endpoint(assignment, format, address, mask);
  }

  /** The port and the VLAN number of a service that has an address. */
  method ReadService(buf: array<u8>, rec: nat, assignment: u8, ghost b: seq<u8>, ghost end: nat)
    returns (port: Option<u16>, vlan: Option<u32>)
    requires rec + 93 <= end <= buf.Length && b == buf[..]
    ensures port == PortAt(b, rec, assignment) && vlan == VlanAt(b, rec, assignment)
  {
    port, vlan := None, None;
    if HasAddress(assignment) {
      PeekedWord(buf, rec + 86, rec, end);
      PeekedWord(buf, rec + 88, rec, end);
      PeekedWord(buf, rec + 90, rec, end);
      port := Some(PeekWord(buf, rec + 86, rec, end));
      var low: int, high: int := PeekWord(buf, rec + 88, rec, end), PeekWord(buf, rec + 90, rec, end);
      vlan := Some(low + 0x1_0000 * high);
    }
  }

  /** The host name, unless it would end outside the record. */
  method ReadHostname(buf: array<u8>, rec: nat, size: u8, ghost b: seq<u8>, ghost end: nat)
    returns (name: Option<seq<u8>>)
    requires rec + 93 <= end <= buf.Length && end == rec + 2 + size && b == buf[..] && size == b[rec + 1]
    ensures name == HostnameAt(b, rec)
    ensures name.Some? ==> rec + 93 + |name.value| <= end
  {
    var nameSize: nat := Peek(buf, rec + 92, rec, end);
    name := None;
    if nameSize + 91 <= size {
      name := Some(buf[rec + 93..rec + 93 + nameSize]);
      assert name.value == b[rec + 93..rec + 93 + nameSize];
    }
  }

  /** Decodes one protocol record, reading only inside it. */
  method ParseProtocol(buf: array<u8>, rec: nat, ghost end: nat) returns (r: Option<Redfish>)
    requires rec + 2 <= end <= buf.Length && end == rec + 2 + buf[rec + 1]
    ensures r.Some? <==> buf[rec] == REDFISH && buf[rec + 1] >= REDFISH_MINIMUM
    ensures r.Some? ==> r.value == RedfishAt(buf[..], rec)
  {
    var id, size := Peek(buf, rec, rec, end), Peek(buf, rec + 1, rec, end);
    if id != REDFISH || size < REDFISH_MINIMUM {
      return None;
    }
    hide *;
    ghost var b := buf[..];
    var data := rec + 2;
    var service := ReadUuid(buf, data, b, rec, end);
    var host := ReadEndpoint(buf, data + 16, b, rec, end);
    var discovery := ReadEndpoint(buf, data + 50, b, rec, end);
    var port, vlan := ReadService(buf, rec, discovery.assignment, b, end);
    var hostname := ReadHostname(buf, rec, size, b, end);
    EndpointKind(b, data + 50);
    RedfishParts(b, rec);
    return Some(Redfish(service, host, discovery, port, vlan, hostname));
  }

  lemma RedfishParts(b: seq<u8>, rec: nat)
    requires rec + 1 < |b| && b[rec + 1] >= REDFISH_MINIMUM && rec + 2 + b[rec + 1] <= |b|
    ensures RedfishAt(b, rec) == Redfish(UuidAt(b, rec + 2), EndpointAt(b, rec + 18), EndpointAt(b, rec + 52),
      PortAt(b, rec, b[rec + 52]), VlanAt(b, rec, b[rec + 52]), HostnameAt(b, rec))
  {
  }

  lemma EndpointKind(b: seq<u8>, at: nat)
    requires at + 34 <= |b|
    ensures EndpointAt(b, at).assignment == b[at]
  {
  }

  // ----- Redfish records as they are stored

  datatype StoredEndpoint = StoredEndpoint(assignment: u8, format: u8, address: seq<u8>, mask: seq<u8>)

  datatype StoredRedfish = StoredRedfish(
    uuid: seq<u8>, host: StoredEndpoint, service: StoredEndpoint, port: u16, vlan: u32, hostname: seq<u8>)

  predicate StoredOk(r: StoredRedfish) {
    && |r.uuid| == 16 && |r.host.address| == |r.host.mask| == |r.service.address| == |r.service.mask| == 16
    && |r.hostname| <= 0xFF - 91
  }

  function Bytes4(n: u32): (b: seq<u8>)
    ensures |b| == 4
  {
    Bytes2(n % 0x1_0000) + Bytes2(n / 0x1_0000)
  }

  function PrintEndpoint(e: StoredEndpoint): seq<u8> {
    [e.assignment, e.format] + e.address + e.mask
  }

  /** Identifier, payload size, then the fields of section 8.4.1 of DSP0270 in order. */
  function PrintRedfish(r: StoredRedfish): seq<u8>
    requires StoredOk(r)
  {
    [4] + ([91 + |r.hostname| as u8]
           + (r.uuid + (PrintEndpoint(r.host) + (PrintEndpoint(r.service) + RedfishTail(r)))))
  }

  /** Only static and automatic assignments show addresses: four bytes for IPv4, sixteen for IPv6. */
  function ShownAddress(e: StoredEndpoint, field: seq<u8>): seq<u8>
    requires |field| == 16
  {
    if e.assignment != 1 && e.assignment != 3 then []
    else if e.format == 1 then field[..4]
    else if e.format == 2 then field
    else []
  }

  function ShownEndpoint(e: StoredEndpoint): Endpoint
    requires |e.address| == |e.mask| == 16
  {
    Endpoint(e.assignment, e.format, ShownAddress(e, e.address), ShownAddress(e, e.mask))
  }

  function ShownUuid(u: seq<u8>): Uuid
    requires |u| == 16
  {
    if u == seq(16, _ => 0xFF) then NotPresent
    else if u == seq(16, _ => 0) then NotSettable
    else Value([u[3], u[2], u[1], u[0], u[5], u[4], u[7], u[6]] + u[8..])
  }

  lemma UuidStored(b: seq<u8>, p: nat, u: seq<u8>)
    requires |u| == 16 && StandsAt(b, p, u)
    ensures UuidAt(b, p) == ShownUuid(u)
  {
    AllAreStored(b, p, u, 0xFF);
    AllAreStored(b, p, u, 0);
    hide AllAre;
    assert b[p..p + 16][8..] == b[p + 8..p + 16];
  }

  lemma AllAreStored(b: seq<u8>, p: nat, u: seq<u8>, v: u8)
    requires |u| == 16 && StandsAt(b, p, u)
    ensures AllAre(b, p, p + 16, v) <==> u == seq(16, _ => v)
  {
    assert u == b[p..p + 16];
    if u == seq(16, _ => v) {
      forall k | p <= k < p + 16
        ensures b[k] == v
      {
        assert b[k] == b[p..p + 16][k - p];
      }
    }
  }

  lemma EndpointStored(b: seq<u8>, at: nat, e: StoredEndpoint)
    requires |e.address| == |e.mask| == 16 && StandsAt(b, at, PrintEndpoint(e))
    ensures EndpointAt(b, at) == ShownEndpoint(e)
  {
    StandsSplit(b, at, [e.assignment, e.format] + e.address, e.mask);
    StandsSplit(b, at, [e.assignment, e.format], e.address);
    assert b[at] == b[at..at + 2][0] && b[at + 1] == b[at..at + 2][1];
    assert b[at + 2..at + 18][..4] == b[at + 2..at + 6] && b[at + 18..at + 34][..4] == b[at + 18..at + 22];
  }

  lemma DWordStored(b: seq<u8>, at: nat, n: u32)
    requires StandsAt(b, at, Bytes4(n))
    ensures DWord(b, at) == n
  {
    hide Word, Bytes2;
    StandsSplit(b, at, Bytes2(n % 0x1_0000), Bytes2(n / 0x1_0000));
    WordBytes(b, at, n % 0x1_0000);
    WordBytes(b, at + 2, n / 0x1_0000);
  }

  /** What follows the service endpoint of a stored record. */
  function RedfishTail(r: StoredRedfish): seq<u8>
    requires StoredOk(r)
  {
    Bytes2(r.port) + (Bytes4(r.vlan) + ([|r.hostname| as u8] + r.hostname))
  }

  lemma TailStands(b: seq<u8>, at: nat, r: StoredRedfish)
    requires StoredOk(r) && StandsAt(b, at, RedfishTail(r))
    ensures StandsAt(b, at, Bytes2(r.port)) && StandsAt(b, at + 2, Bytes4(r.vlan))
    ensures at + 7 + |r.hostname| <= |b| && b[at + 6] == |r.hostname| && StandsAt(b, at + 7, r.hostname)
  {
    var size := [|r.hostname| as u8];
    var t6 := size + r.hostname;
    var t5 := Bytes4(r.vlan) + t6;
    assert RedfishTail(r) == Bytes2(r.port) + t5;
    hide *;
    StandsSplit(b, at, Bytes2(r.port), t5);
    StandsSplit(b, at + 2, Bytes4(r.vlan), t6);
    StandsSplit(b, at + 6, size, r.hostname);
    StandsByte(b, at + 6, size[0]);
    StandsInside(b, at + 7, r.hostname);
  }

  lemma HeadStands(b: seq<u8>, rec: nat, r: StoredRedfish)
    requires StoredOk(r) && StandsAt(b, rec, PrintRedfish(r))
    ensures rec + 2 <= |b| && b[rec] == 4 && b[rec + 1] == 91 + |r.hostname|
    ensures StandsAt(b, rec + 2, r.uuid)
    ensures StandsAt(b, rec + 18, PrintEndpoint(r.host)) && StandsAt(b, rec + 52, PrintEndpoint(r.service))
    ensures StandsAt(b, rec + 86, RedfishTail(r))
  {
    var id: u8, size: u8 := 4, 91 + |r.hostname| as u8;
    var t3 := PrintEndpoint(r.service) + RedfishTail(r);
    var t2 := PrintEndpoint(r.host) + t3;
    var t1 := r.uuid + t2;
    assert PrintRedfish(r) == [id] + ([size] + t1);
    assert |r.uuid| == 16 && |PrintEndpoint(r.host)| == |PrintEndpoint(r.service)| == 34;
    hide *;
    StandsSplit(b, rec, [id], [size] + t1);
    StandsSplit(b, rec + 1, [size], t1);
    StandsSplit(b, rec + 2, r.uuid, t2);
    StandsSplit(b, rec + 18, PrintEndpoint(r.host), t3);
    StandsSplit(b, rec + 52, PrintEndpoint(r.service), RedfishTail(r));
    StandsByte(b, rec, id);
    StandsByte(b, rec + 1, size);
  }

  /** Where the fields of a stored record stand. */
  lemma RedfishStands(b: seq<u8>, rec: nat, r: StoredRedfish)
    requires StoredOk(r) && StandsAt(b, rec, PrintRedfish(r))
    ensures rec + 93 + |r.hostname| <= |b| && b[rec] == 4 && b[rec + 1] == 91 + |r.hostname|
    ensures StandsAt(b, rec + 2, r.uuid)
    ensures StandsAt(b, rec + 18, PrintEndpoint(r.host)) && StandsAt(b, rec + 52, PrintEndpoint(r.service))
    ensures StandsAt(b, rec + 86, Bytes2(r.port)) && StandsAt(b, rec + 88, Bytes4(r.vlan))
    ensures b[rec + 92] == |r.hostname| && StandsAt(b, rec + 93, r.hostname)
  {
    hide *;
    HeadStands(b, rec, r);
    TailStands(b, rec + 86, r);
  }

  lemma StandsInside(b: seq<u8>, at: nat, t: seq<u8>)
    requires StandsAt(b, at, t)
    ensures at + |t| <= |b| && b[at..at + |t|] == t
  {
  }

  /** A stored Redfish record is shown with its fields, addresses as far as they mean something. */
  lemma RedfishRoundTrip(b: seq<u8>, rec: nat, r: StoredRedfish)
    requires StoredOk(r) && StandsAt(b, rec, PrintRedfish(r))
    ensures rec + 1 < |b| && b[rec + 1] >= 91 && rec + 2 + b[rec + 1] <= |b|
    ensures RedfishAt(b, rec) == Redfish(
      ShownUuid(r.uuid), ShownEndpoint(r.host), ShownEndpoint(r.service),
      if r.service.assignment == 1 || r.service.assignment == 3 then Some(r.port) else None,
      if r.service.assignment == 1 || r.service.assignment == 3 then Some(r.vlan) else None,
      Some(r.hostname))
  {
    assert |r.uuid| == |r.host.address| == |r.host.mask| == |r.service.address| == |r.service.mask| == 16;
    hide *;
    RedfishStands(b, rec, r);
    ServiceFields(b, rec, r);
    UuidStored(b, rec + 2, r.uuid);
    EndpointStored(b, rec + 18, r.host);
    EndpointStored(b, rec + 52, r.service);
    RedfishParts(b, rec);
  }

  lemma ServiceFields(b: seq<u8>, rec: nat, r: StoredRedfish)
    requires StoredOk(r) && rec + 93 + |r.hostname| <= |b| && b[rec + 1] == 91 + |r.hostname|
    requires StandsAt(b, rec + 52, PrintEndpoint(r.service))
    requires StandsAt(b, rec + 86, Bytes2(r.port)) && StandsAt(b, rec + 88, Bytes4(r.vlan))
    requires b[rec + 92] == |r.hostname| && StandsAt(b, rec + 93, r.hostname)
    ensures PortAt(b, rec, b[rec + 52])
      == if r.service.assignment == 1 || r.service.assignment == 3 then Some(r.port) else None
    ensures VlanAt(b, rec, b[rec + 52])
      == if r.service.assignment == 1 || r.service.assignment == 3 then Some(r.vlan) else None
    ensures HostnameAt(b, rec) == Some(r.hostname)
  {
    EndpointStored(b, rec + 52, r.service);
    EndpointKind(b, rec + 52);
    hide Bytes2, Bytes4, Word, DWord, PrintEndpoint, EndpointAt;
    WordBytes(b, rec + 86, r.port);
    DWordStored(b, rec + 88, r.vlan);
    StandsInside(b, rec + 93, r.hostname);
  }

  /** The name is shown exactly when it ends inside the record. */
  lemma HostnameShownIff(b: seq<u8>, rec: nat)
    requires rec + 93 <= |b| && rec + 2 + b[rec + 1] <= |b|
    ensures HostnameAt(b, rec).Some? <==> 91 + b[rec + 92] as int <= b[rec + 1]
    ensures HostnameAt(b, rec).Some? ==> |HostnameAt(b, rec).value| == b[rec + 92]
  {
  }

  datatype HostInterface =
    | TooShort
    | TypeOnly(host: u8)
    | NoCount(device: Device)                   // the record count would lie outside the structure
    | Network(device: Device, records: seq<Span>, all: bool)

  /** Decodes a host interface; every byte read lies inside the accepted structure [data, next). */
  method ParseController(buf: array<u8>, data: nat, length: u8, ghost next: nat) returns (r: HostInterface)
    requires Accepted(buf[..], Visit(data, next)) && length == buf[data + 1]
    ensures var len := if length >= HOST_MINIMUM then buf[data + 5] as int else 0;
      && (r == TooShort <==> length < HOST_MINIMUM || len + 6 > length)
      && (r != TooShort ==>
        && (r.TypeOnly? <==> buf[data + 4] != NETWORK)
        && (r.TypeOnly? ==> r.host == buf[data + 4])
        && (!r.TypeOnly? ==> r.device == DeviceAt(buf[data + 6..data + 6 + len]))
        && (r.NoCount? <==> buf[data + 4] == NETWORK && len + 6 == length)
        && (r.Network? ==>
          var count := buf[data + 6 + len];
          && r.records == Protocols(buf[..], data + 7 + len, data + length, count)
          && r.all == (|r.records| == count)))
  {
    hide DeviceAt, Protocols;
    if length < HOST_MINIMUM {
      return TooShort;
    }
    var len := Peek(buf, data + 5, data, next);
    var total: nat := len as int + 6;
    if total > length {
      return TooShort;
    }
    var host := Peek(buf, data + 4, data, next);
    if host != NETWORK {
      return TypeOnly(host);
    }
    var device := ReadDevice(buf, data + 6, len);
    var at: nat := data + total;
    total := total + 1;
    if total > length {
      return NoCount(device);
    }
    var count := Peek(buf, at, data, next);
    var records, all := WalkProtocols(buf, data, length, total, count, next);
    return Network(device, records, all);
  }

  /** The walk has found these records and stands at rec, with left records to go. */
  ghost predicate WalkedTo(b: seq<u8>, from: nat, limit: nat, count: nat, records: seq<Span>, rec: nat, left: nat)
    requires from <= limit && rec <= limit && limit + 2 <= |b|
  {
    Protocols(b, from, limit, count) == records + Protocols(b, rec, limit, left)
  }

  lemma WalkedNone(b: seq<u8>, from: nat, limit: nat, count: nat)
    requires from <= limit && limit + 2 <= |b|
    ensures WalkedTo(b, from, limit, count, [], from, count)
  {
  }

  lemma WalkedMore(b: seq<u8>, from: nat, limit: nat, count: nat, records: seq<Span>, rec: nat, left: nat)
    requires from <= limit && rec <= limit && limit + 2 <= |b|
    requires left > 0 && rec + 2 + b[rec + 1] <= limit
    requires WalkedTo(b, from, limit, count, records, rec, left)
    ensures var end := rec + 2 + b[rec + 1];
      WalkedTo(b, from, limit, count, records + [Span(rec, end)], end, left - 1)
  {
    var end := rec + 2 + b[rec + 1];
    ProtocolsMore(b, rec, limit, left);
    hide Protocols;
    Regroup(Protocols(b, from, limit, count), records, Protocols(b, rec, limit, left),
            [Span(rec, end)], Protocols(b, end, limit, left - 1));
  }

  lemma WalkedAll(b: seq<u8>, from: nat, limit: nat, count: nat, records: seq<Span>, rec: nat, left: nat)
    requires from <= limit && rec <= limit && limit + 2 <= |b|
    requires left == 0 || rec + 2 + b[rec + 1] > limit
    requires WalkedTo(b, from, limit, count, records, rec, left)
    ensures Protocols(b, from, limit, count) == records
  {
    ProtocolsCases(b, rec, limit, left);
    hide Protocols;
  }

  /** Decodes the records that start at data + total, as long as they stay inside the structure. */
  method WalkProtocols(buf: array<u8>, data: nat, length: u8, start: nat, count: u8, ghost next: nat)
    returns (records: seq<Span>, all: bool)
    requires start <= length && data + length + 2 <= next <= buf.Length
    ensures records == Protocols(buf[..], data + start, data + length, count)
    ensures all == (|records| == count)
  {
    hide Protocols, RedfishAt, WalkedTo;
    ghost var b, limit: nat := buf[..], data + length as int;
    var total: nat, rec: nat, i: nat := start, data + start, 0;
    records := [];
    WalkedNone(b, data + start, limit, count);
    while i < count
      invariant 0 <= i <= count && |records| == i
      invariant rec == data + total <= limit
      invariant WalkedTo(b, data + start, limit, count, records, rec, count - i)
    {
      var size := Peek(buf, rec + 1, data, next);
      total := total + size as int + 2;
      if total > length {
        WalkedAll(b, data + start, limit, count, records, rec, count - i);
        return records, false;
      }
      WalkedMore(b, data + start, limit, count, records, rec, count - i);
      var parsed := ParseProtocol(buf, rec, data + total);
      records := records + [Span(rec, rec + size as int + 2)];
      rec := rec + size as int + 2;
      i := i + 1;
    }
    WalkedAll(b, data + start, limit, count, records, rec, 0);
    return records, true;
  }

  // ----- Type 40: additional information entries

  const ENTRY_MINIMUM: u8 := 5

  /** The entries, at most count of them, as long as they end by limit; byte 0 of each is its size. */
  function Entries(b: seq<u8>, at: nat, limit: nat, count: nat): seq<Span>
    requires at <= limit <= |b|
    decreases count
  {
    if count == 0 || at == limit || b[at] < ENTRY_MINIMUM || at + b[at] > limit then []
    else [Span(at, at + b[at])] + Entries(b, at + b[at], limit, count - 1)
  }

  lemma EntriesMore(b: seq<u8>, at: nat, limit: nat, count: nat)
    requires at < limit <= |b| && count > 0 && b[at] >= ENTRY_MINIMUM && at + b[at] <= limit
    ensures Entries(b, at, limit, count) == [Span(at, at + b[at])] + Entries(b, at + b[at], limit, count - 1)
  {
  }

  /** Entries are contiguous and inside the formatted area; the walk stops early only where no entry fits. */
  lemma {:induction false} EntriesTile(b: seq<u8>, at: nat, limit: nat, count: nat)
    requires at <= limit <= |b|
    ensures var spans := Entries(b, at, limit, count);
      && Tiles(spans, at, limit) && |spans| <= count && After(spans, at) <= limit
      && (|spans| < count ==>
        var stop := After(spans, at);
        stop == limit || b[stop] < ENTRY_MINIMUM || stop + b[stop] > limit)
    decreases count
  {
    if !(count == 0 || at == limit || b[at] < ENTRY_MINIMUM || at + b[at] > limit) {
      EntriesTile(b, at + b[at], limit, count - 1);
      EntriesMore(b, at, limit, count);
      hide Entries, Tiles, After;
      TilesMore(Span(at, at + b[at]), Entries(b, at + b[at], limit, count - 1), limit);
    }
  }

  datatype Value = One(v1: u8) | Two(v2: u16) | Four(v4: seq<u8>) | UnexpectedSize

  datatype Entry = Entry(handle: u16, offset: u8, stringNumber: u8, value: Value)

  /** What one entry of a table says. */
  function EntryAt(b: seq<u8>, s: Span): Entry
    requires s.start + ENTRY_MINIMUM <= s.end <= |b|
  {
    var v := b[s.start + 5..s.end];
    Entry(Word(b, s.start + 1), b[s.start + 3], b[s.start + 4],
          if |v| == 1 then One(v[0]) else if |v| == 2 then Two(Word(v, 0)) else if |v| == 4 then Four(v)
          else UnexpectedSize)
  }

  /** Every span has room for the fixed fields and lies in the table. */
  predicate SpansInside(b: seq<u8>, spans: seq<Span>) {
    forall k :: 0 <= k < |spans| ==> spans[k].start + ENTRY_MINIMUM <= spans[k].end <= |b|
  }

  /** The string numbers that entries refer to. */
  function EntryStrings(b: seq<u8>, spans: seq<Span>): seq<u8>
    requires SpansInside(b, spans)
  {
    seq(|spans|, k requires 0 <= k < |spans| => b[spans[k].start + 4])
  }

  // ----- Entries as they are stored

  predicate Known(v: Value) {
    v.One? || v.Two? || (v.Four? && |v.v4| == 4)
  }

  function ValueBytes(v: Value): seq<u8>
    requires Known(v)
  {
    match v
    case One(n) => [n]
    case Two(n) => Bytes2(n)
    case Four(n) => n
  }

  /** Its size, the handle, offset and string it refers to, its value. */
  function PrintEntry(e: Entry): seq<u8>
    requires Known(e.value)
  {
    [5 + |ValueBytes(e.value)| as u8] + (Bytes2(e.handle) + ([e.offset] + ([e.stringNumber] + ValueBytes(e.value))))
  }

  predicate AllKnown(es: seq<Entry>) {
    forall k :: 0 <= k < |es| ==> Known(es[k].value)
  }

  function PrintEntries(es: seq<Entry>): seq<u8>
    requires AllKnown(es)
  {
    if es == [] then [] else PrintEntry(es[0]) + PrintEntries(es[1..])
  }

  lemma EntryStored(b: seq<u8>, at: nat, e: Entry)
    requires Known(e.value) && StandsAt(b, at, PrintEntry(e))
    ensures var end := at + |PrintEntry(e)|;
      && end <= |b| && at + ENTRY_MINIMUM <= end == at + b[at] && EntryAt(b, Span(at, end)) == e
  {
    var v := ValueBytes(e.value);
    var size: u8 := 5 + |v| as u8;
    assert PrintEntry(e) == [size] + (Bytes2(e.handle) + ([e.offset] + ([e.stringNumber] + v)));
    StandsInside(b, at, PrintEntry(e));
    hide StandsAt, Bytes2, PrintEntry, Word;
    StandsSplit(b, at, [size], Bytes2(e.handle) + ([e.offset] + ([e.stringNumber] + v)));
    StandsSplit(b, at + 1, Bytes2(e.handle), [e.offset] + ([e.stringNumber] + v));
    StandsSplit(b, at + 3, [e.offset], [e.stringNumber] + v);
    StandsSplit(b, at + 4, [e.stringNumber], v);
    StandsByte(b, at, size);
    StandsByte(b, at + 3, e.offset);
    StandsByte(b, at + 4, e.stringNumber);
    WordBytes(b, at + 1, e.handle);
    StandsInside(b, at + 5, v);
    ValueStored(e.value);
  }

  lemma ValueStored(v: Value)
    requires Known(v)
    ensures var bytes := ValueBytes(v);
      v == if |bytes| == 1 then One(bytes[0]) else if |bytes| == 2 then Two(Word(bytes, 0)) else Four(bytes)
  {
    if v.Two? {
      assert Bytes2(v.v2)[0..2] == Bytes2(v.v2);
      WordBytes(Bytes2(v.v2), 0, v.v2);
    }
  }

  /** The first of these entries ends at end. */
  ghost predicate FirstSpan(b: seq<u8>, at: nat, limit: nat, count: nat, end: nat)
    requires at <= end <= limit <= |b|
  {
    count > 0 && Entries(b, at, limit, count) == [Span(at, end)] + Entries(b, end, limit, count - 1)
  }

  lemma EntryFirst(b: seq<u8>, at: nat, limit: nat, es: seq<Entry>) returns (end: nat)
    requires AllKnown(es) && es != []
    requires at + |PrintEntries(es)| <= limit <= |b| && StandsAt(b, at, PrintEntries(es))
    ensures at + ENTRY_MINIMUM <= end <= limit && EntryAt(b, Span(at, end)) == es[0]
    ensures FirstSpan(b, at, limit, |es|, end)
    ensures AllKnown(es[1..]) && end + |PrintEntries(es[1..])| <= limit && StandsAt(b, end, PrintEntries(es[1..]))
  {
    var e, rest := es[0], PrintEntries(es[1..]);
    end := at + |PrintEntry(e)|;
    assert PrintEntries(es) == PrintEntry(e) + rest && Known(e.value) && AllKnown(es[1..]);
    hide *;
    StandsSplit(b, at, PrintEntry(e), rest);
    EntryStored(b, at, e);
    EntriesMore(b, at, limit, |es|);
    FirstSpanIs(b, at, limit, |es|, end);
  }

  lemma FirstSpanIs(b: seq<u8>, at: nat, limit: nat, count: nat, end: nat)
    requires at <= end <= limit <= |b| && count > 0
    requires Entries(b, at, limit, count) == [Span(at, end)] + Entries(b, end, limit, count - 1)
    ensures FirstSpan(b, at, limit, count, end)
  {
  }

  lemma NoEntries(b: seq<u8>, at: nat, limit: nat)
    requires at <= limit <= |b|
    ensures Entries(b, at, limit, 0) == []
  {
  }

  /** Stored entries that fit the formatted area are all found, with their contents. */
  lemma {:induction false} EntriesRoundTrip(b: seq<u8>, at: nat, limit: nat, es: seq<Entry>)
    requires AllKnown(es)
    requires at + |PrintEntries(es)| <= limit <= |b| && StandsAt(b, at, PrintEntries(es))
    ensures ReadFrom(b, Entries(b, at, limit, |es|), es)
    decreases |es|
  {
    assert |es| == 0 ==> es == [];
    hide *;
    if es == [] {
      ReadNone(b);
      NoEntries(b, at, limit);
    } else {
      var end := EntryFirst(b, at, limit, es);
      EntriesRoundTrip(b, end, limit, es[1..]);
      ReadFirst(b, at, limit, es, end);
    }
  }

  lemma ReadFirst(b: seq<u8>, at: nat, limit: nat, es: seq<Entry>, end: nat)
    requires es != [] && at + ENTRY_MINIMUM <= end <= limit <= |b| && EntryAt(b, Span(at, end)) == es[0]
    requires FirstSpan(b, at, limit, |es|, end) && ReadFrom(b, Entries(b, end, limit, |es[1..]|), es[1..])
    ensures ReadFrom(b, Entries(b, at, limit, |es|), es)
  {
    ReadPrepended(b, Span(at, end), Entries(b, end, limit, |es| - 1), es);
    hide Entries, ReadFrom;
  }

  lemma ReadPrepended(b: seq<u8>, s: Span, spans: seq<Span>, es: seq<Entry>)
    requires es != [] && s.start + ENTRY_MINIMUM <= s.end <= |b| && EntryAt(b, s) == es[0] && ReadFrom(b, spans, es[1..])
    ensures ReadFrom(b, [s] + spans, es)
  {
    hide EntryAt;
  }

  /** Reads the fields of one entry; every byte lies in the formatted area [data, limit). */
  method ReadEntry(buf: array<u8>, p: nat, size: u8, ghost b: seq<u8>, ghost data: nat, ghost limit: nat)
    returns (e: Entry)
    requires data <= p && p + size <= limit <= buf.Length && size >= ENTRY_MINIMUM
    requires |b| == buf.Length && forall k :: p <= k < limit ==> buf[k] == b[k]
    ensures e == EntryAt(b, Span(p, p + size))
  {
    var value := UnexpectedSize;
    ghost var v := b[p + 5..p + size];
    if size - 5 == 1 {
      value := One(Peek(buf, p + 5, data, limit));
    } else if size - 5 == 2 {
      value := Two(PeekWord(buf, p + 5, data, limit));
    } else if size - 5 == 4 {
      value := Four([Peek(buf, p + 5, data, limit), Peek(buf, p + 6, data, limit),
                     Peek(buf, p + 7, data, limit), Peek(buf, p + 8, data, limit)]);
      assert value.v4 == v;
    }
    return Entry(PeekWord(buf, p + 1, data, limit), Peek(buf, p + 3, data, limit), Peek(buf, p + 4, data, limit), value);
  }

  /** The entries are what the spans of b say. */
  ghost predicate ReadFrom(b: seq<u8>, spans: seq<Span>, entries: seq<Entry>) {
    && |entries| == |spans| && SpansInside(b, spans)
    && forall k :: 0 <= k < |spans| ==> entries[k] == EntryAt(b, spans[k])
  }

  lemma EntriesCases(b: seq<u8>, at: nat, limit: nat, count: nat)
    requires at <= limit <= |b|
    ensures Entries(b, at, limit, count) ==
      if count == 0 || at == limit || b[at] < ENTRY_MINIMUM || at + b[at] > limit then []
      else [Span(at, at + b[at])] + Entries(b, at + b[at], limit, count - 1)
  {
  }

  lemma ReadMore(b: seq<u8>, spans: seq<Span>, entries: seq<Entry>, s: Span)
    requires ReadFrom(b, spans, entries) && s.start + ENTRY_MINIMUM <= s.end <= |b|
    ensures ReadFrom(b, spans + [s], entries + [EntryAt(b, s)]) && SpansInside(b, spans + [s])
    ensures EntryStrings(b, spans + [s]) == EntryStrings(b, spans) + [b[s.start + 4]]
  {
    hide EntryAt;
  }

  lemma ReadNone(b: seq<u8>)
    ensures ReadFrom(b, [], []) && SpansInside(b, []) && EntryStrings(b, []) == []
  {
  }

  /** Requests leave everything in front of the string set as it was. */
  lemma AreaKept(b: seq<u8>, limit: nat, next: nat, asks: seq<u8>)
    requires Sealed(b, limit, next)
    ensures var c := FilterAll(b, limit, next, asks);
      Sealed(c, limit, next) && |c| == |b| && forall k :: 0 <= k < limit ==> c[k] == b[k]
  {
    FilterAllAppend(b, limit, next, asks, 0);
    hide FilterAll;
  }

  /** Decodes one entry, of known size; the string it refers to is masked. */
  method DecodeEntry(buf: array<u8>, data: nat, length: u8, p: nat, size: u8, ghost b: seq<u8>, ghost asks: seq<u8>,
                     ghost next: nat)
    returns (e: Entry)
    requires data <= p && size >= ENTRY_MINIMUM && p + size <= data + length && data + length <= |b|
    requires Sealed(b, data + length, next) && buf[..] == FilterAll(b, data + length, next, asks)
    modifies buf
    ensures e == EntryAt(b, Span(p, p + size))
    ensures buf[..] == FilterAll(b, data + length, next, asks + [b[p + 4]])
  {
    hide FilterAll, EntryAt, Strings, CString, Word, Sealed;
    ghost var limit: nat := data + length as int;
    AreaKept(b, limit, next, asks);
    assert buf[p + 4] == buf[..][p + 4];
    FilterAllAppend(b, limit, next, asks, b[p + 4]);
    var answer := DmiString(buf, data, length, Peek(buf, p + 4, data, limit), next);
    AreaKept(b, limit, next, asks + [b[p + 4]]);
    assert forall k :: p <= k < limit ==> buf[k] == buf[..][k];
    e := ReadEntry(buf, p, size, b, data, limit);
  }

  /**
   Decodes the entries of an additional information structure. The strings they refer to
   are masked meanwhile, which leaves the entries as they were.
   */
  method ParseAdditional(buf: array<u8>, data: nat, length: u8, ghost next: nat)
    returns (spans: seq<Span>, entries: seq<Entry>)
    requires length >= 0x0B && data + length + 2 <= next && Sealed(buf[..], data + length, next)
    modifies buf
    ensures spans == Entries(old(buf[..]), data + 5, data + length, old(buf[data + 4]))
    ensures ReadFrom(old(buf[..]), spans, entries)
    ensures buf[..] == FilterAll(old(buf[..]), data + length, next, EntryStrings(old(buf[..]), spans))
  {
    hide FilterAll, Entries, EntryAt, EntryStrings, ReadFrom, SpansInside, Sealed, Harmless, Halfway;
    ghost var b, limit: nat := buf[..], data + length as int;
    assert limit + 2 <= |b| by {
      SealedInside(b, limit, next);
    }
    var count := Peek(buf, data + 4, data, limit);
    var p: nat, offset: nat, i: nat := data + 5, 5, 0;
    spans, entries := [], [];
    FilterAllNone(b, limit, next);
    ReadNone(b);
    HalfwayStart(b, p, limit, count);
    while i < count
      invariant 0 <= i <= count && p == data + offset <= limit
      invariant Halfway(b, data + 5, limit, count, spans, p, count - i)
      invariant ReadFrom(b, spans, entries) && SpansInside(b, spans)
      invariant buf[..] == FilterAll(b, limit, next, EntryStrings(b, spans))
      decreases count - i
    {
      ghost var asks := EntryStrings(b, spans);
      if length < offset + 1 {
        HalfwayDone(b, data + 5, limit, count, spans, p, count - i);
        return;
      }
      AreaKept(b, limit, next, asks);
      assert buf[p] == buf[..][p] == b[p];
      var size := Peek(buf, p, data, limit);
      if size < ENTRY_MINIMUM || length < offset + size as int {
        HalfwayDone(b, data + 5, limit, count, spans, p, count - i);
        return;
      }
      HalfwayStep(b, data + 5, limit, count, spans, p, count - i);
      var e := DecodeEntry(buf, data, length, p, size, b, asks, next);
      ReadMore(b, spans, entries, Span(p, p + size as int));
      spans, entries := spans + [Span(p, p + size as int)], entries + [e];
      p := p + size as int;
      offset := offset + size as int;
      i := i + 1;
    }
    HalfwayDone(b, data + 5, limit, count, spans, p, 0);
  }

  /** The walk has read spans and stands at p, with left entries to go. */
  ghost predicate Halfway(b: seq<u8>, from: nat, limit: nat, count: nat, spans: seq<Span>, p: nat, left: nat)
    requires from <= limit <= |b| && p <= limit
  {
    Entries(b, from, limit, count) == spans + Entries(b, p, limit, left)
  }

  lemma HalfwayStart(b: seq<u8>, from: nat, limit: nat, count: nat)
    requires from <= limit <= |b|
    ensures Halfway(b, from, limit, count, [], from, count)
  {
  }

  lemma HalfwayStep(b: seq<u8>, from: nat, limit: nat, count: nat, spans: seq<Span>, p: nat, left: nat)
    requires from <= limit <= |b| && p < limit && left > 0 && b[p] >= ENTRY_MINIMUM && p + b[p] <= limit
    requires Halfway(b, from, limit, count, spans, p, left)
    ensures Halfway(b, from, limit, count, spans + [Span(p, p + b[p])], p + b[p], left - 1)
  {
    EntriesMore(b, p, limit, left);
    hide Entries;
    Regroup(Entries(b, from, limit, count), spans, Entries(b, p, limit, left),
            [Span(p, p + b[p])], Entries(b, p + b[p], limit, left - 1));
  }

  lemma HalfwayDone(b: seq<u8>, from: nat, limit: nat, count: nat, spans: seq<Span>, p: nat, left: nat)
    requires from <= limit <= |b| && p <= limit
    requires left == 0 || p == limit || b[p] < ENTRY_MINIMUM || p + b[p] > limit
    requires Halfway(b, from, limit, count, spans, p, left)
    ensures Entries(b, from, limit, count) == spans
  {
    EntriesCases(b, p, limit, left);
    hide Entries;
  }

  lemma SealedInside(b: seq<u8>, p: nat, next: nat)
    requires Sealed(b, p, next)
    ensures next <= |b|
  {
  }

  // ----- Type 37: memory channel devices

  /** A device of a memory channel (section 7.38 of DSP0134); its handle is not shown in quiet mode. */
  datatype ChannelDevice = ChannelDevice(load: u8, handle: Option<u16>)

  const CHANNEL_HEADER := 7

  /** What the three bytes of slot k say, counted from 0. */
  function SlotAt(b: seq<u8>, data: nat, k: nat, quiet: bool): ChannelDevice
    requires data + CHANNEL_HEADER + 3 * k + Stride(quiet) <= |b|
  {
    ChannelDevice(b[data + CHANNEL_HEADER + 3 * k],
                  if quiet then None else Some(Word(b, data + CHANNEL_HEADER + 3 * k + 1)))
  }

  /** How many bytes of a slot are read: the load, and the handle unless quiet. */
  function Stride(quiet: bool): nat {
    if quiet then 1 else 3
  }

  /** The end of the bytes that the loop reads for count devices: it starts with slot 1. */
  function ChannelReach(data: nat, count: nat, quiet: bool): nat {
    if count == 0 then data + CHANNEL_HEADER else data + CHANNEL_HEADER + 3 * count + Stride(quiet)
  }

  /** The devices are listed only when the formatted area has room for all of them. */
  predicate ChannelGuard(b: seq<u8>, data: nat)
    requires data + 2 <= |b| && data + b[data + 1] <= |b|
  {
    b[data + 1] >= 7 && b[data + 1] as int >= 7 + 3 * b[data + 6] as int
  }

  datatype Listing = Unlisted | Listed(devices: seq<ChannelDevice>) | PastTable(devices: seq<ChannelDevice>)

  /**
   Lists the devices of a memory channel. The answer tells apart listings that are complete
   from those that would need bytes after the end of the table.
   */
  method ListChannel(buf: array<u8>, data: nat, length: u8, quiet: bool) returns (r: Listing)
    requires data + 2 <= buf.Length && length == buf[data + 1] && data + length <= buf.Length
    ensures r == Unlisted <==> !ChannelGuard(buf[..], data)
    ensures r != Unlisted ==> (r.Listed? <==> ChannelReach(data, buf[data + 6], quiet) <= buf.Length)
    ensures r.Listed? ==> |r.devices| == buf[data + 6]
    ensures r != Unlisted ==> forall k :: 0 <= k < |r.devices| ==>
      && data + CHANNEL_HEADER + 3 * (k + 1) + Stride(quiet) <= buf.Length
      && r.devices[k] == SlotAt(buf[..], data, k + 1, quiet)
  {
    hide Word;
    if length < 7 {
      return Unlisted;
    }
    var count: nat := buf[data + 6];
    if length as int < 7 + 3 * count {
      return Unlisted;
    }
    var p := data + 7;
    var devices := [];
    for i := 1 to count + 1
      invariant |devices| == i - 1 && ChannelReach(data, i - 1, quiet) <= buf.Length
      invariant forall k :: 0 <= k < |devices| ==>
        && data + CHANNEL_HEADER + 3 * (k + 1) + Stride(quiet) <= buf.Length
        && devices[k] == SlotAt(buf[..], data, k + 1, quiet)
    {
      if p + 3 * i + Stride(quiet) > buf.Length {
        return PastTable(devices);
      }
      PeekedUnlessQuiet(buf, p + 3 * i + 1, quiet);
      var handle := if quiet then None else Some(PeekWord(buf, p + 3 * i + 1, data, buf.Length));
      devices := devices + [ChannelDevice(buf[p + 3 * i], handle)];
    }
    return Listed(devices);
  }

  lemma PeekedUnlessQuiet(buf: array<u8>, i: nat, quiet: bool)
    requires !quiet ==> i + 2 <= buf.Length
    ensures !quiet ==> PeekWord(buf, i, 0, buf.Length) == Word(buf[..], i)
  {
  }

  /** Devices as they are stored: a load and a handle each. */
  datatype StoredDevice = StoredDevice(load: u8, handle: u16)

  function PrintDevices(ds: seq<StoredDevice>): seq<u8> {
    if ds == [] then [] else [ds[0].load] + Bytes2(ds[0].handle) + PrintDevices(ds[1..])
  }

  function Shown(d: StoredDevice, quiet: bool): ChannelDevice {
    ChannelDevice(d.load, if quiet then None else Some(d.handle))
  }

  lemma DevicesStored(b: seq<u8>, at: nat, ds: seq<StoredDevice>)
    requires ds != [] && StandsAt(b, at, PrintDevices(ds))
    ensures at + 3 <= |b| && b[at] == ds[0].load && Word(b, at + 1) == ds[0].handle
    ensures StandsAt(b, at + 3, PrintDevices(ds[1..]))
  {
    hide Word, Bytes2;
    var d, rest := ds[0], PrintDevices(ds[1..]);
    assert PrintDevices(ds) == [d.load] + Bytes2(d.handle) + rest;
    hide PrintDevices, StandsAt;
    StandsSplit(b, at, [d.load] + Bytes2(d.handle), rest);
    StandsSplit(b, at, [d.load], Bytes2(d.handle));
    WordBytes(b, at + 1, d.handle);
    StandsByte(b, at, d.load);
  }

  lemma StandsByte(b: seq<u8>, at: nat, v: u8)
    requires StandsAt(b, at, [v])
    ensures at < |b| && b[at] == v
  {
    assert b[at] == b[at..at + 1][0];
  }

  lemma {:induction false} SlotStored(b: seq<u8>, data: nat, from: nat, ds: seq<StoredDevice>, k: nat, quiet: bool)
    requires StandsAt(b, data + CHANNEL_HEADER + 3 * from, PrintDevices(ds)) && k < |ds|
    ensures data + CHANNEL_HEADER + 3 * (from + k) + 3 <= |b| && Stride(quiet) <= 3
    ensures SlotAt(b, data, from + k, quiet) == Shown(ds[k], quiet)
    decreases |ds|
  {
    hide Word, Bytes2, PrintDevices, StandsAt;
    DevicesStored(b, data + CHANNEL_HEADER + 3 * from, ds);
    if k > 0 {
      SlotStored(b, data, from + 1, ds[1..], k - 1, quiet);
    }
  }

  /**
   Of the stored devices, the one listed at position k is number k + 1: the first is never
   listed, and what is listed last does not come from the devices.
   */
  lemma ChannelShifted(b: seq<u8>, data: nat, ds: seq<StoredDevice>, quiet: bool, k: nat)
    requires StandsAt(b, data + CHANNEL_HEADER, PrintDevices(ds)) && k < |ds|
    ensures data + CHANNEL_HEADER + 3 * k + 3 <= |b| && Stride(quiet) <= 3
    ensures SlotAt(b, data, k, quiet) == Shown(ds[k], quiet)
    ensures k + 1 < |ds| ==>
      && data + CHANNEL_HEADER + 3 * (k + 1) + 3 <= |b|
      && SlotAt(b, data, k + 1, quiet) == Shown(ds[k + 1], quiet)
    ensures data + CHANNEL_HEADER + 3 * |ds| == data + CHANNEL_HEADER + |PrintDevices(ds)|
  {
    hide *;
    SlotStored(b, data, 0, ds, k, quiet);
    if k + 1 < |ds| {
      SlotStored(b, data, 0, ds, k + 1, quiet);
    }
    PrintedLength(ds);
  }

  lemma {:induction false} PrintedLength(ds: seq<StoredDevice>)
    ensures |PrintDevices(ds)| == 3 * |ds|
    decreases |ds|
  {
    if ds != [] {
      PrintedLength(ds[1..]);
    }
  }

  /**
   Past the guard, all reads lie in the accepted structure unless handles are read, the
   formatted area is just as long as the devices need, and no string follows it.
   */
  lemma ChannelInsideIff(b: seq<u8>, v: Visit, quiet: bool)
    requires Accepted(b, v) && ChannelGuard(b, v.off)
    ensures var count: nat := b[v.off + 6];
      ChannelReach(v.off, count, quiet) <= v.next <==>
        count == 0 || quiet || b[v.off + 1] > 7 + 3 * count || v.next > v.off + b[v.off + 1] + 2
  {
  }

  /** One device, a formatted area of ten bytes and no strings: the listing needs a byte after the table. */
  const CHANNEL: seq<u8> := [37, 10, 0, 0, 3, 1, 1, 5, 1, 0, 0, 0]

  lemma ChannelOverrun()
    ensures Accepted(CHANNEL, Visit(0, 12)) && Visits(Parse(CHANNEL, 0)) == [Visit(0, 12)]
    ensures ChannelGuard(CHANNEL, 0) && ChannelReach(0, CHANNEL[6], false) == |CHANNEL| + 1
  {
    ParseCases(CHANNEL, 0);
    assert ScanEnd(CHANNEL, 10) == 12;
    ParseAt(CHANNEL, 12);
  }
}
