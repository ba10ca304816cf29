/** Resource records: the header every record carries, the payloads of
    the registered record types, and the record object whose methods pack
    its payload into a buffer and unpack it from a message. */
module Records {
  import opened Types
  import opened MsgHelper
  import opened DomainName
  import opened Compression

  /** `RR_Header`: owner name, type code, class, time to live and the
      length of the payload that follows on the wire. */
  datatype RRHeader = RRHeader(name: Text, rrtype: u16, rrclass: u16, ttl: u32, rdlength: u16)

  /** The header of a freshly constructed record: every field zero. */
  const ZeroHeader := RRHeader([], 0, 0, 0, 0)

  /** What a record holds besides its header, one variant per record type:
      an `RR_Header` used as a record on its own holds nothing; A and AAAA
      hold an address (`net.IP`, a run of bytes); NS and CNAME hold one
      domain name. SOA, PTR, MX and TXT are registered but their layouts
      are not part of this model: they hold their payload as raw bytes. */
  datatype Payload =
    | HeaderOnly
    | AData(a: seq<byte>)
    | AAAAData(aaaa: seq<byte>)
    | NSData(ns: Text)
    | CNAMEData(target: Text)
    | Unseen(kind: Kind, rdata: seq<byte>)

  /** The registry variant a payload belongs to; none for a bare header. */
  function KindOf(p: Payload): Option<Kind>
  {
    match p
    case HeaderOnly => None
    case AData(_) => Some(KA)
    case AAAAData(_) => Some(KAAAA)
    case NSData(_) => Some(KNS)
    case CNAMEData(_) => Some(KCNAME)
    case Unseen(k, _) => Some(k)
  }

  /** The payload of `new(T)` for the variant `k`: a nil address, an empty
      name, no bytes. */
  function Zero(k: Kind): (p: Payload)
    ensures KindOf(p) == Some(k)
  {
    match k
    case KA => AData([])
    case KAAAA => AAAAData([])
    case KNS => NSData([])
    case KCNAME => CNAMEData([])
    case _ => Unseen(k, [])
  }

  /** A record as a value: its header and its payload. */
  datatype Record = Record(hdr: RRHeader, data: Payload)

  /** What packing leaves behind: the buffer, the returned offset, the
      compression map and the error. */
  datatype Packed = Packed(buf: seq<byte>, off: int, comp: CompMap, status: Status)

  /** A primitive writer's result, with the map it left alone. */
  function WithMap(w: Written, comp: CompMap): Packed
  {
    Packed(w.buf, w.off, comp, w.status)
  }

  /** Every entry of `comp` is still in `comp1`, under the same offset. */
  predicate Keeps(comp: CompMap, comp1: CompMap)
  {
    forall x :: x in comp ==> x in comp1 && comp1[x] == comp[x]
  }

  /** `packDomainName` with the map it leaves. */
  function NamePack(name: Text, b: seq<byte>, off: nat, comp: CompMap): (r: Packed)
    ensures |r.buf| == |b| && Keeps(comp, r.comp)
    ensures r.status.Fail? ==> r == Packed(b, 0, comp, Fail(IndexOutOfRange))
    ensures r.status.Ok? ==> r.off > off && off <= |b|
  {
    var w := NameWrite(name, b, off, comp);
    if w.status.Fail? then WithMap(w, comp)
    else
      NameKeepsAll(name, off, comp);
      Packed(w.buf, w.off, EncName(name, off, comp).comp, Ok)
  }

  /** `packDomainName` keeps every entry of the map it is given. */
  lemma NameKeepsAll(name: Text, off: nat, comp: CompMap)
    ensures Keeps(comp, EncName(name, off, comp).comp)
  {
    forall x | x in comp
      ensures x in EncName(name, off, comp).comp && EncName(name, off, comp).comp[x] == comp[x]
    {
      EncNameKeeps(name, off, comp, x);
    }
  }

  /** The `pack` method of each record type, on the buffer's contents:
      `RR_Header.pack` writes nothing and returns `off`; A and AAAA write
      their address as `packDataA`/`packDataAAAA` do; NS and CNAME encode
      their name through the shared map, NS reporting offset 0 on error and
      CNAME the encoder's offset; the stand-in for the unmodelled types
      copies its raw bytes, failing like the other writers when they do not
      fit. A failing payload leaves buffer and map as they were, and no
      payload writes before `off` or forgets a map entry. */
  function PayloadPack(p: Payload, b: seq<byte>, off: nat, comp: CompMap): (r: Packed)
    ensures |r.buf| == |b| && Keeps(comp, r.comp)
    ensures r.status.Ok? ==> r.off >= off
  {
    match p
    case HeaderOnly => Packed(b, off, comp, Ok)
    case AData(a) => WithMap(DataAWrite(a, b, off), comp)
    case AAAAData(a) => WithMap(DataAAAAWrite(a, b, off), comp)
    case NSData(n) =>
      var r := NamePack(n, b, off, comp);
      if r.status.Fail? then r.(off := 0) else r
    case CNAMEData(t) => NamePack(t, b, off, comp)
    case Unseen(_, rdata) =>
      if off + |rdata| > |b| then Packed(b, |b|, comp, Fail(OverflowPacking))
      else Packed(PutBytes(b, off, rdata), off + |rdata|, comp, Ok)
  }

  /** What no payload writer does: a failing one leaves buffer and map as
      they were, none writes before `off`, and one asked to start past the
      end writes nothing. */
  lemma PayloadPackFrame(p: Payload, b: seq<byte>, off: nat, comp: CompMap)
    ensures var r := PayloadPack(p, b, off, comp);
      r.status.Fail? ==> r.buf == b && r.comp == comp
    ensures var r := PayloadPack(p, b, off, comp);
      off <= |b| ==> r.buf[..off] == b[..off]
    ensures var r := PayloadPack(p, b, off, comp);
      off > |b| ==> r.buf == b
    ensures p.HeaderOnly? ==> PayloadPack(p, b, off, comp) == Packed(b, off, comp, Ok)
    ensures var r := PayloadPack(p, b, off, comp);
      p.NSData? && r.status.Fail? ==> r.off == 0
  {
  }

  /** The `unpack` method of each record type, reading from `off`: A and
      AAAA take the address `unpackDataA`/`unpackDataAAAA` returns, NS and
      CNAME the name `unpackDomainName` returns, each stored even when the
      read fails (nil or ""); NS reports offset 0 on error, the others the
      offset their reader returned. The stand-in for the unmodelled types
      takes the `rdlength` bytes the header announces. The record keeps its
      variant. `RR_Header.unpack` is an internal error Go never reaches:
      it is excluded. */
  function PayloadUnpack(p: Payload, h: RRHeader, msg: seq<byte>, off: nat): (r: Decoded<Payload>)
    requires !p.HeaderOnly?
    ensures KindOf(r.val) == KindOf(p)
    ensures r.status.Ok? ==> r.off >= off
    ensures (p.NSData? || p.CNAMEData?) && r.status.Ok? ==> r.off > off
    ensures p.AData? && r.status.Ok? ==> r.off == off + 4
    ensures p.AAAAData? && r.status.Ok? ==> r.off == off + 16
    ensures p.Unseen? ==> (r.status.Ok? <==> off + h.rdlength <= |msg|)
    ensures p.Unseen? && r.status.Ok? ==> r.off == off + h.rdlength
    ensures p.NSData? && r.status.Fail? ==> r.off == 0
  {
    match p
    case AData(_) =>
      var r := UnpackDataA(msg, off);
      Decoded(AData(r.val), r.off, r.status)
    case AAAAData(_) =>
      var r := UnpackDataAAAA(msg, off);
      Decoded(AAAAData(r.val), r.off, r.status)
    case NSData(_) =>
      var r := UnpackName(msg, off);
      Decoded(NSData(r.val), if r.status.Fail? then 0 else r.off, r.status)
    case CNAMEData(_) =>
      var r := UnpackName(msg, off);
      Decoded(CNAMEData(r.val), r.off, r.status)
    case Unseen(k, _) =>
      if off + h.rdlength > |msg| then Decoded(Unseen(k, []), |msg|, Fail(OverflowUnpacking))
      else Decoded(Unseen(k, msg[off..off + h.rdlength]), off + h.rdlength, Ok)
  }

  /** The payloads that survive a pack and unpack: a 4-byte address, and
      a valid name whose map hit, if any, is a target below 64 (the
      decoder keeps only six bits of a pointer's target). AAAA does not
      (see DataAAAALosesAddress), nor does a bare header, which has no `unpack`; the
      stand-in for the unmodelled types promises nothing. */
  predicate RoundTrips(p: Payload, off: nat, comp: CompMap)
  {
    match p
    case HeaderOnly => false
    case AData(a) => |a| == 4
    case AAAAData(_) => false
    case NSData(n) => ValidName(n) && EncFrom(n, 0, off, comp).ptr < 64
    case CNAMEData(t) => ValidName(t) && EncFrom(t, 0, off, comp).ptr < 64
    case Unseen(_, _) => false
  }

  /** Unpacking what a payload's `pack` wrote, into a fresh record of the
      same variant, gives the payload back and the offset `pack` returned,
      when the map was sound for the bytes before `off`. */
  lemma PayloadRoundTrip(p: Payload, h: RRHeader, b: seq<byte>, off: nat, comp: CompMap)
    requires RoundTrips(p, off, comp) && PayloadPack(p, b, off, comp).status.Ok?
    requires off <= |b| && MapValid(b[..off], comp)
    ensures var w := PayloadPack(p, b, off, comp);
      PayloadUnpack(Zero(KindOf(p).value), h, w.buf, off) == Decoded(p, w.off, Ok)
  {
    match p
    case AData(a) =>
    case NSData(n) =>
      NamePackRoundTrip(n, b, off, comp);
    case CNAMEData(t) =>
      NamePackRoundTrip(t, b, off, comp);
  }

  /** A valid name that `packDomainName` wrote with a map sound for the
      bytes before `off`, whose hit, if any, is below 64, decodes to
      itself, ending where the encoder stopped. */
  lemma NamePackRoundTrip(name: Text, b: seq<byte>, off: nat, comp: CompMap)
    requires ValidName(name) && EncFrom(name, 0, off, comp).ptr < 64
    requires NamePack(name, b, off, comp).status.Ok? && off <= |b| && MapValid(b[..off], comp)
    ensures UnpackName(NamePack(name, b, off, comp).buf, off) == Decoded(name, NamePack(name, b, off, comp).off, Ok)
  {
    var bytes := EncName(name, off, comp).bytes;
    var buf := PutBytes(b, off, bytes);
    PutBytesFrame(b, off, bytes);
    assert buf[..off] == b[..off];
    NameReads(name, buf, off, comp);
  }

  /** A record object: the Go value of one of the types registered in
      `TypeToRR`, or an `RR_Header` used on its own. `Header()` hands out
      the record's own header; here that is the `hdr` field, read directly
      and written with SetHeader. */
  class RR {
    var hdr: RRHeader
    var data: Payload

    /** `TypeToRR[code]()`: a new record of variant `k`, all zero. */
    constructor (k: Kind)
      ensures hdr == ZeroHeader && data == Zero(k)
    {
      hdr := ZeroHeader;
      data := Zero(k);
    }

    /** An `RR_Header` value used as a record. */
    constructor FromHeader(h: RRHeader)
      ensures hdr == h && data == HeaderOnly
    {
      hdr := h;
      data := HeaderOnly;
    }

    /** The record as a value. */
    function Value(): Record
      reads this
    {
      Record(hdr, data)
    }

    /** `*rr.Header() = h`: the header is replaced, the payload kept. */
    method SetHeader(h: RRHeader)
      modifies this
      ensures hdr == h && data == old(data)
    {
      hdr := h;
    }

    /** `rr.pack(buf, off, compression)`, dispatched on the record's type. */
    method Pack(buf: array<byte>, off: nat, compression: CompMap) returns (off1: int, comp1: CompMap, status: Status)
      modifies buf
      ensures Packed(buf[..], off1, comp1, status) == PayloadPack(data, old(buf[..]), off, compression)
    {
      comp1 := compression;
      match data
      case HeaderOnly =>
        off1, status := off, Ok;
      case AData(a) =>
        off1, status := PackDataA(a, buf, off);
      case AAAAData(a) =>
        off1, status := PackDataAAAA(a, buf, off);
      case NSData(n) =>
        off1, comp1, status := PackDomainName(n, buf, off, compression);
        if status.Fail? {
          off1 := 0;
        }
      case CNAMEData(t) =>
        off1, comp1, status := PackDomainName(t, buf, off, compression);
      case Unseen(_, rdata) =>
        if off + |rdata| > buf.Length {
          off1, status := buf.Length, Fail(OverflowPacking);
        } else {
          CopyInto(rdata, buf, off);
          off1, status := off + |rdata|, Ok;
        }
    }

    /** `rr.unpack(msg, off)`, dispatched on the record's type: the payload
      field is replaced, the header kept. */
    method Unpack(msg: seq<byte>, off: nat) returns (off1: int, status: Status)
      requires !data.HeaderOnly?
      modifies this
      ensures hdr == old(hdr)
      ensures Decoded(data, off1, status) == PayloadUnpack(old(data), hdr, msg, off)
    {
      match data
      case AData(_) =>
        var r := UnpackDataA(msg, off);
        data := AData(r.val);
        off1, status := r.off, r.status;
      case AAAAData(_) =>
        var r := UnpackDataAAAA(msg, off);
        data := AAAAData(r.val);
        off1, status := r.off, r.status;
      case NSData(_) =>
        var ns;
        ns, off1, status := UnpackDomainName(msg, off);
        data := NSData(ns);
        if status.Fail? {
          off1 := 0;
        }
      case CNAMEData(_) =>
        var target;
        target, off1, status := UnpackDomainName(msg, off);
        data := CNAMEData(target);
      case Unseen(k, _) =>
        if off + hdr.rdlength > |msg| {
          data := Unseen(k, []);
          off1, status := |msg|, Fail(OverflowUnpacking);
        } else {
          data := Unseen(k, msg[off..off + hdr.rdlength]);
          off1, status := off + hdr.rdlength, Ok;
        }
    }
  }
}
