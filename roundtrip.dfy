/** What a resource-record section looks like on the wire, and the round
    trip between `packRRSlice` and `unpackRRSlice`: records whose names
    are valid, whose compression hits point below 64, whose header
    Rdlength is the length of their payload and whose type code is the
    registry's code for their payload read back as themselves, in order,
    when the map the section starts with is sound for the bytes before it
    and the section ends within 65536 bytes. */
module RoundTrip {
  import opened Types
  import opened MsgHelper
  import opened DomainName
  import opened Compression
  import opened Records
  import opened Sections

  /** Bytes written from some offset on, and the compression map after
      them. */
  datatype Layout = Layout(bytes: seq<byte>, comp: CompMap)

  /** The writer's result `p` on `b` at `off` is the layout `l`: it
      succeeds exactly when `l` fits, and then has written `l`'s bytes at
      `off` and nothing else, returns the offset just past them and leaves
      `l`'s map. */
  predicate WritesAs(p: Packed, b: seq<byte>, off: nat, l: Layout)
  {
    && (p.status.Ok? <==> off + |l.bytes| <= |b|)
    && (p.status.Ok? ==> p == Packed(PutBytes(b, off, l.bytes), off + |l.bytes|, l.comp, Ok))
  }

  /** Writing bytes that a buffer already holds changes nothing. */
  lemma PutBytesSame(b: seq<byte>, off: nat, x: seq<byte>)
    requires HoldsAt(b, off, x)
    ensures PutBytes(b, off, x) == b
  {
    assert b == b[..off] + b[off..off + |x|] + b[off + |x|..];
  }

  /** What `packDomainName` writes at `off` and the map it leaves. */
  function NameLayout(name: Text, off: nat, comp: CompMap): (l: Layout)
    ensures |l.bytes| > 0
  {
    Layout(EncName(name, off, comp).bytes, EncName(name, off, comp).comp)
  }

  /** `packDomainName` writes the name's encoding when it fits. */
  lemma NameWrites(name: Text, b: seq<byte>, off: nat, comp: CompMap)
    ensures WritesAs(NamePack(name, b, off, comp), b, off, NameLayout(name, off, comp))
  {
  }

  /** What a payload's `pack` writes at `off`: a 4-byte address as is, a
      name's encoding through the map. The payloads that do not survive a
      round trip get no layout. */
  function PayloadLayout(p: Payload, off: nat, comp: CompMap): (l: Layout)
    ensures p.AData? ==> l == Layout(To4(p.a), comp)
    ensures RoundTrips(p, off, comp) ==> |l.bytes| > 0
  {
    match p
    case AData(a) => Layout(To4(a), comp)
    case NSData(n) => NameLayout(n, off, comp)
    case CNAMEData(t) => NameLayout(t, off, comp)
    case _ => Layout([], comp)
  }

  /** An A or AAAA record with no address: `pack` writes nothing for it
      and `unpackRR` returns the fresh record when Rdlength is 0, so it
      survives a round trip inside a record although its own `unpack`
      would read an address. */
  predicate NoAddress(p: Payload)
  {
    p == AData([]) || p == AAAAData([])
  }

  /** The payloads a record can carry through a round trip: one that its
      own `unpack` reads back, or no address at all. */
  predicate PayloadSurvives(p: Payload, off: nat, comp: CompMap)
  {
    RoundTrips(p, off, comp) || NoAddress(p)
  }

  /** A surviving payload packs as its layout; one with no address only
      when `off` is within the buffer, as it succeeds past the end. */
  lemma PayloadWrites(p: Payload, b: seq<byte>, off: nat, comp: CompMap)
    requires RoundTrips(p, off, comp) || (NoAddress(p) && off <= |b|)
    ensures WritesAs(PayloadPack(p, b, off, comp), b, off, PayloadLayout(p, off, comp))
  {
    match p
    case AData(a) =>
      if a == [] {
        assert PutBytes(b, off, []) == b;
      }
    case AAAAData(_) =>
      assert PutBytes(b, off, []) == b;
    case NSData(n) => NameWrites(n, b, off, comp);
    case CNAMEData(t) => NameWrites(t, b, off, comp);
  }

  /** A payload's layout found at `off` in a buffer whose bytes before
      `off` the map is sound for reads back, into a fresh record of the
      same variant, as the payload, ending just past the layout. */
  lemma PayloadReads(p: Payload, h: RRHeader, buf: seq<byte>, off: nat, comp: CompMap)
    requires RoundTrips(p, off, comp) && HoldsAt(buf, off, PayloadLayout(p, off, comp).bytes)
    requires MapValid(buf[..off], comp)
    ensures PayloadUnpack(Zero(KindOf(p).value), h, buf, off) == Decoded(p, off + |PayloadLayout(p, off, comp).bytes|, Ok)
  {
    PayloadWrites(p, buf, off, comp);
    PutBytesSame(buf, off, PayloadLayout(p, off, comp).bytes);
    PayloadRoundTrip(p, h, buf, off, comp);
  }

  /** After a payload's layout, the map it leaves is sound for the bytes
      up to its end, when that end is within 16-bit offsets. */
  lemma PayloadKeepsMapValid(p: Payload, buf: seq<byte>, off: nat, comp: CompMap)
    requires PayloadSurvives(p, off, comp) && HoldsAt(buf, off, PayloadLayout(p, off, comp).bytes)
    requires MapValid(buf[..off], comp) && off + |PayloadLayout(p, off, comp).bytes| <= 0x1_0000
    ensures MapValid(buf[..off + |PayloadLayout(p, off, comp).bytes|], PayloadLayout(p, off, comp).comp)
  {
    match p
    case AData(a) =>
      if a != [] {
        MapValidLonger(buf, comp, off, off + 4);
      }
    case AAAAData(_) =>
    case NSData(n) => NameLayoutKeeps(n, buf, off, comp);
    case CNAMEData(t) => NameLayoutKeeps(t, buf, off, comp);
  }

  /** NameKeepsMapValid, for a name's layout. */
  lemma NameLayoutKeeps(name: Text, buf: seq<byte>, off: nat, comp: CompMap)
    requires ValidName(name) && EncFrom(name, 0, off, comp).ptr < 64
    requires HoldsAt(buf, off, NameLayout(name, off, comp).bytes) && MapValid(buf[..off], comp)
    requires off + |NameLayout(name, off, comp).bytes| <= 0x1_0000
    ensures MapValid(buf[..off + |NameLayout(name, off, comp).bytes|], NameLayout(name, off, comp).comp)
  {
    assert Shared(buf, name, off, comp);
    NameKeepsMapValid(name, buf, off, comp);
  }

  /** Writing `p` after the gap of `w` and then `w` into the gap is
      writing `w + p`: the order of Rdlength's backfill and the payload. */
  lemma PutBytesGap(b: seq<byte>, off: nat, w: seq<byte>, p: seq<byte>)
    requires off + |w| + |p| <= |b|
    ensures PutBytes(PutBytes(b, off + |w|, p), off, w) == PutBytes(b, off, w + p)
  {
    var l, r := PutBytes(PutBytes(b, off + |w|, p), off, w), PutBytes(b, off, w + p);
    forall k | 0 <= k < |l| ensures l[k] == r[k] {
      if k < off {
        assert l[k] == l[..off][k] && r[k] == r[..off][k];
      } else if k < off + |w| {
        assert l[k] == l[off..off + |w|][k - off];
        assert r[k] == r[off..off + |w| + |p|][k - off];
      } else if k < off + |w| + |p| {
        assert l[k] == PutBytes(b, off + |w|, p)[k] == p[k - off - |w|];
        assert r[k] == r[off..off + |w| + |p|][k - off];
      } else {
        assert l[k] == PutBytes(b, off + |w|, p)[k] == b[k];
        assert r[k] == r[off + |w| + |p|..][k - off - |w| - |p|];
      }
    }
    assert l == r;
  }

  /** Two writers in a row, the second running only when the first
      succeeded and from where it stopped, write the bytes of both and
      leave the second one's map. */
  lemma WriteChain(b: seq<byte>, off: nat, x: Layout, y: Layout, h: Packed, d: Packed, p: Packed, mid: nat)
    requires WritesAs(h, b, off, x) && mid == off + |x.bytes|
    requires p == if h.status.Fail? then h else d
    requires h.status.Ok? ==> WritesAs(d, h.buf, mid, y)
    ensures WritesAs(p, b, off, Layout(x.bytes + y.bytes, y.comp))
  {
    if p.status.Ok? {
      PutBytesAppend(b, off, x.bytes, y.bytes);
    }
  }

  /** The fixed header fields after the owner name: Rrtype, Class and
      Ttl, big-endian. */
  function FieldBytes(h: RRHeader): (f: seq<byte>)
    ensures |f| == 8
  {
    Be16(h.rrtype) + Be16(h.rrclass) + Be32(h.ttl)
  }

  /** The fixed fields are written as FieldBytes, when the eight bytes
      fit. */
  lemma FieldsWrites(h: RRHeader, b: seq<byte>, off: nat)
    ensures var w := FieldsWrite(h, b, off);
      && (w.status.Ok? <==> off + 8 <= |b|)
      && (w.status.Ok? ==> w == Written(PutBytes(b, off, FieldBytes(h)), off + 8, Ok))
  {
    if off + 8 <= |b| {
      PutBytesAppend(b, off, Be16(h.rrtype), Be16(h.rrclass));
      PutBytesAppend(b, off, Be16(h.rrtype) + Be16(h.rrclass), Be32(h.ttl));
    }
  }

  /** What a record's header part writes at `off`: the owner name's
      encoding through the map, then the fixed fields; and the map the
      name leaves. */
  function HeadLayout(h: RRHeader, off: nat, comp: CompMap): (l: Layout)
    ensures |l.bytes| == |NameLayout(h.name, off, comp).bytes| + 8
  {
    Layout(NameLayout(h.name, off, comp).bytes + FieldBytes(h), NameLayout(h.name, off, comp).comp)
  }

  /** The header part of a turn writes its layout. */
  lemma HeaderWrites(h: RRHeader, b: seq<byte>, off: nat, comp: CompMap)
    ensures WritesAs(HeaderPack(h, b, off, comp), b, off, HeadLayout(h, off, comp))
  {
    var n := NamePack(h.name, b, off, comp);
    NameWrites(h.name, b, off, comp);
    if n.status.Ok? {
      var f := FieldsWrite(h, n.buf, n.off);
      assert HeaderPack(h, b, off, comp) == WithMap(f, n.comp);
      FieldsWrites(h, n.buf, n.off);
      if f.status.Ok? {
        PutBytesAppend(b, off, NameLayout(h.name, off, comp).bytes, FieldBytes(h));
      }
    }
  }

  /** What a payload part writes at `slot`: the payload's length
      truncated to 16 bits, then its layout from `slot + 2` on; and the
      map the payload leaves. */
  function RdataLayout(p: Payload, slot: nat, comp: CompMap): (l: Layout)
    ensures |l.bytes| == 2 + |PayloadLayout(p, slot + 2, comp).bytes|
    ensures l.comp == PayloadLayout(p, slot + 2, comp).comp
  {
    var d := PayloadLayout(p, slot + 2, comp);
    Layout(Be16(|d.bytes| % 0x1_0000) + d.bytes, d.comp)
  }

  /** The payload part of a turn writes its layout. */
  lemma RdataWrites(p: Payload, b: seq<byte>, slot: nat, comp: CompMap)
    requires PayloadSurvives(p, slot + 2, comp)
    ensures WritesAs(RdataPack(p, b, slot, comp), b, slot, RdataLayout(p, slot, comp))
  {
    var d := PayloadPack(p, b, slot + 2, comp);
    RdataPackSteps(p, b, slot, comp, d);
    if RoundTrips(p, slot + 2, comp) || slot + 2 <= |b| {
      PayloadWrites(p, b, slot + 2, comp);
      BackfillWrites(b, slot, PayloadLayout(p, slot + 2, comp), d, RdataPack(p, b, slot, comp), RdataLayout(p, slot, comp));
    }
  }

  /** A payload written as `y` at `slot + 2`, to `d`, then its length
      backfilled at `slot` when it succeeds, to `r`, is written as the
      length and then `y`. */
  lemma BackfillWrites(b: seq<byte>, slot: nat, y: Layout, d: Packed, r: Packed, l: Layout)
    requires WritesAs(d, b, slot + 2, y)
    requires d.status.Fail? ==> r == d
    requires d.status.Ok? ==> r == WithMap(Uint16Write((d.off - slot - 2) % 0x1_0000, d.buf, slot), d.comp).(off := d.off)
    requires l == Layout(Be16(|y.bytes| % 0x1_0000) + y.bytes, y.comp)
    ensures WritesAs(r, b, slot, l)
  {
    if d.status.Ok? {
      PutBytesGap(b, slot, Be16(|y.bytes| % 0x1_0000), y.bytes);
    }
  }

  /** RecordPack as its two parts, with the header part's result `h`,
      which, when it succeeds, stops at `o` and leaves the map `c`. */
  lemma RecordPackSteps(r: Record, b: seq<byte>, off: nat, comp: CompMap, h: Packed, o: nat, c: CompMap)
    requires h == HeaderPack(r.hdr, b, off, comp)
    requires h.status.Ok? ==> h.off == o && h.comp == c
    ensures RecordPack(r, b, off, comp) == if h.status.Fail? then h else RdataPack(r.data, h.buf, o, c)
  {
  }

  /** One turn of PackSection, with the first record's result `p`,
      which, when it succeeds, stops at `o` and leaves the map `c`. */
  lemma PackSectionAt(rs: seq<Record>, b: seq<byte>, off: nat, comp: CompMap, p: Packed, o: nat, c: CompMap)
    requires rs != [] && p == RecordPack(rs[0], b, off, comp)
    requires p.status.Ok? ==> p.off == o && p.comp == c
    ensures PackSection(rs, b, off, comp) == if p.status.Fail? then p else PackSection(rs[1..], p.buf, o, c)
  {
    PackSectionStep(rs, b, off, comp, p);
  }

  /** Where a record's Rdlength goes: just after its header part. */
  function Slot(r: Record, off: nat, comp: CompMap): (slot: nat)
    ensures slot > off + 8
  {
    off + |HeadLayout(r.hdr, off, comp).bytes|
  }

  /** The compression map after a record's owner name. */
  function NameComp(r: Record, off: nat, comp: CompMap): CompMap
  {
    HeadLayout(r.hdr, off, comp).comp
  }

  /** What one turn of `packRRSlice` writes at `off`: the header part,
      then the payload part at the slot; and the map it leaves. */
  function RecordLayout(r: Record, off: nat, comp: CompMap): (l: Layout)
    ensures l.comp == PayloadLayout(r.data, Slot(r, off, comp) + 2, NameComp(r, off, comp)).comp
  {
    Layout(HeadLayout(r.hdr, off, comp).bytes + RdataLayout(r.data, Slot(r, off, comp), NameComp(r, off, comp)).bytes,
           RdataLayout(r.data, Slot(r, off, comp), NameComp(r, off, comp)).comp)
  }

  /** The records that survive a pack and unpack at `off`: a valid owner
      name whose map hit, if any, is below 64, a payload that survives, a
      type code the registry maps to the payload's variant, and an
      Rdlength equal to the number of payload bytes `pack` writes (0 for
      an A or AAAA record with no address). */
  predicate RecordRoundTrips(r: Record, off: nat, comp: CompMap)
  {
    && ValidName(r.hdr.name) && EncFrom(r.hdr.name, 0, off, comp).ptr < 64
    && PayloadSurvives(r.data, Slot(r, off, comp) + 2, NameComp(r, off, comp))
    && TypeToRR(r.hdr.rrtype) == KindOf(r.data)
    && |PayloadLayout(r.data, Slot(r, off, comp) + 2, NameComp(r, off, comp)).bytes| == r.hdr.rdlength
  }

  /** One turn of `packRRSlice` on such a record writes its layout. */
  lemma RecordWrites(r: Record, b: seq<byte>, off: nat, comp: CompMap)
    requires RecordRoundTrips(r, off, comp)
    ensures WritesAs(RecordPack(r, b, off, comp), b, off, RecordLayout(r, off, comp))
  {
    var x := HeadLayout(r.hdr, off, comp);
    var h := HeaderPack(r.hdr, b, off, comp);
    HeaderWrites(r.hdr, b, off, comp);
    RecordPackSteps(r, b, off, comp, h, Slot(r, off, comp), NameComp(r, off, comp));
    if h.status.Ok? {
      RdataWrites(r.data, h.buf, Slot(r, off, comp), NameComp(r, off, comp));
    }
    WriteChain(b, off, x, RdataLayout(r.data, Slot(r, off, comp), NameComp(r, off, comp)), h,
               RdataPack(r.data, h.buf, Slot(r, off, comp), NameComp(r, off, comp)), RecordPack(r, b, off, comp),
               Slot(r, off, comp));
  }

  /** A 16-bit value found at `off` reads back. */
  lemma Uint16At(buf: seq<byte>, off: nat, v: u16)
    requires HoldsAt(buf, off, Be16(v))
    ensures UnpackUint16(buf, off) == Decoded(v, off + 2, Ok)
  {
    PutBytesSame(buf, off, Be16(v));
    Uint16RoundTrip(buf, off, v);
  }

  /** A 32-bit value found at `off` reads back. */
  lemma Uint32At(buf: seq<byte>, off: nat, v: u32)
    requires HoldsAt(buf, off, Be32(v))
    ensures UnpackUint32(buf, off) == Decoded(v, off + 4, Ok)
  {
    PutBytesSame(buf, off, Be32(v));
    Uint32RoundTrip(buf, off, v);
  }

  /** The name's bytes `e`, the fixed fields and Rdlength found at `off`
      are each found at their own offset. */
  lemma HeaderSlices(h: RRHeader, buf: seq<byte>, off: nat, e: seq<byte>)
    requires HoldsAt(buf, off, e + FieldBytes(h) + Be16(h.rdlength))
    ensures var n0 := off + |e|;
      && HoldsAt(buf, off, e)
      && HoldsAt(buf, n0, Be16(h.rrtype))
      && HoldsAt(buf, n0 + 2, Be16(h.rrclass))
      && HoldsAt(buf, n0 + 4, Be32(h.ttl))
      && HoldsAt(buf, n0 + 8, Be16(h.rdlength))
  {
    var n0 := off + |e|;
    SliceSplit(buf, off, e + FieldBytes(h), Be16(h.rdlength));
    SliceSplit(buf, off, e, FieldBytes(h));
    SliceSplit(buf, n0, Be16(h.rrtype) + Be16(h.rrclass), Be32(h.ttl));
    SliceSplit(buf, n0, Be16(h.rrtype), Be16(h.rrclass));
  }

  /** A header's layout followed by its Rdlength, found at `off` in a
      buffer whose bytes before `off` the map is sound for, reads back as
      the header, when its name is valid and any map hit is below 64. */
  lemma HeaderReads(h: RRHeader, buf: seq<byte>, off: nat, comp: CompMap)
    requires HoldsAt(buf, off, HeadLayout(h, off, comp).bytes + Be16(h.rdlength))
    requires ValidName(h.name) && EncFrom(h.name, 0, off, comp).ptr < 64 && MapValid(buf[..off], comp)
    ensures HeaderAt(buf, off) == Decoded(h, off + |HeadLayout(h, off, comp).bytes| + 2, Ok)
  {
    var e := NameLayout(h.name, off, comp).bytes;
    HeaderSlices(h, buf, off, e);
    NameReads(h.name, buf, off, comp);
    FieldsRead(h, buf, off, off + |e|);
  }

  /** A header's name, read back up to `n0`, followed by its fixed fields
      and Rdlength, reads back as the header. */
  lemma FieldsRead(h: RRHeader, buf: seq<byte>, off: nat, n0: nat)
    requires UnpackName(buf, off) == Decoded(h.name, n0, Ok)
    requires HoldsAt(buf, n0, Be16(h.rrtype)) && HoldsAt(buf, n0 + 2, Be16(h.rrclass))
    requires HoldsAt(buf, n0 + 4, Be32(h.ttl)) && HoldsAt(buf, n0 + 8, Be16(h.rdlength))
    ensures HeaderAt(buf, off) == Decoded(h, n0 + 10, Ok)
  {
    Uint16At(buf, n0, h.rrtype);
    Uint16At(buf, n0 + 2, h.rrclass);
    Uint32At(buf, n0 + 4, h.ttl);
    Uint16At(buf, n0 + 8, h.rdlength);
    HeaderAtFields(h, buf, off, n0);
  }

  /** A name ending at `n0` followed by the four fixed fields, each read
      back where it lies, is a header read back ten bytes after the name. */
  lemma HeaderAtFields(h: RRHeader, buf: seq<byte>, off: nat, n0: nat)
    requires UnpackName(buf, off) == Decoded(h.name, n0, Ok)
    requires UnpackUint16(buf, n0) == Decoded(h.rrtype, n0 + 2, Ok)
    requires UnpackUint16(buf, n0 + 2) == Decoded(h.rrclass, n0 + 4, Ok)
    requires UnpackUint32(buf, n0 + 4) == Decoded(h.ttl, n0 + 8, Ok)
    requires UnpackUint16(buf, n0 + 8) == Decoded(h.rdlength, n0 + 10, Ok)
    ensures HeaderAt(buf, off) == Decoded(h, n0 + 10, Ok)
  {
  }

  /** A payload's layout found at `poff`, announced by a header whose
      type code the registry maps to the payload's variant and whose
      Rdlength is the layout's length, reads back through `unpackRR`:
      through the payload's `unpack`, or, with no address, as the fresh
      record `unpackRR` returns for Rdlength 0. */
  lemma PayloadAt(r: Record, buf: seq<byte>, poff: nat, pcomp: CompMap)
    requires PayloadSurvives(r.data, poff, pcomp) && TypeToRR(r.hdr.rrtype) == KindOf(r.data)
    requires |PayloadLayout(r.data, poff, pcomp).bytes| == r.hdr.rdlength
    requires HoldsAt(buf, poff, PayloadLayout(r.data, poff, pcomp).bytes) && MapValid(buf[..poff], pcomp)
    ensures RRFrom(r.hdr, buf, poff) == Decoded(Some(r), poff + r.hdr.rdlength, Ok)
  {
    if RoundTrips(r.data, poff, pcomp) {
      PayloadReads(r.data, r.hdr, buf, poff, pcomp);
    }
  }

  /** One turn of `unpackRRSlice` where the header reads back and `unpackRR`
      ends Rdlength bytes after it: the record `unpackRR` returned. */
  lemma RecordAtOk(data: seq<byte>, off: nat, rh: RRHeader, hoff: nat, u: Decoded<Option<Record>>)
    requires HeaderAt(data, off) == Decoded(rh, hoff, Ok) && RRFrom(rh, data, hoff) == u
    requires u.status.Ok? && u.off == hoff + rh.rdlength
    ensures RecordAt(data, off) == u
  {
  }

  /** The layout of a record whose payload layout is Rdlength bytes long,
      found at `off`: its header part and Rdlength, then its payload's
      layout. */
  lemma RecordParts(r: Record, buf: seq<byte>, off: nat, comp: CompMap)
    requires |PayloadLayout(r.data, Slot(r, off, comp) + 2, NameComp(r, off, comp)).bytes| == r.hdr.rdlength
    requires HoldsAt(buf, off, RecordLayout(r, off, comp).bytes)
    ensures HoldsAt(buf, off, HeadLayout(r.hdr, off, comp).bytes + Be16(r.hdr.rdlength))
    ensures HoldsAt(buf, Slot(r, off, comp) + 2, PayloadLayout(r.data, Slot(r, off, comp) + 2, NameComp(r, off, comp)).bytes)
    ensures |RecordLayout(r, off, comp).bytes| == Slot(r, off, comp) + 2 + r.hdr.rdlength - off
  {
    var slot, nc := Slot(r, off, comp), NameComp(r, off, comp);
    var x := HeadLayout(r.hdr, off, comp).bytes;
    var rd := RdataLayout(r.data, slot, nc).bytes;
    var d := PayloadLayout(r.data, slot + 2, nc).bytes;
    RdataBytes(r.data, slot, nc, r.hdr.rdlength);
    assert RecordLayout(r, off, comp).bytes == x + rd;
    HoldsThree(buf, off, x, r.hdr.rdlength, d, RecordLayout(r, off, comp).bytes, slot + 2);
  }

  /** A header part, a 16-bit length and a payload, found together at
      `off`, each found at its own offset. */
  lemma HoldsThree(buf: seq<byte>, off: nat, x: seq<byte>, n: u16, d: seq<byte>, whole: seq<byte>, at: nat)
    requires whole == x + (Be16(n) + d) && HoldsAt(buf, off, whole) && at == off + |x| + 2
    ensures HoldsAt(buf, off, x + Be16(n)) && HoldsAt(buf, at, d)
    ensures |whole| == at - off + |d|
  {
    assert whole == (x + Be16(n)) + d;
    HoldsSplit(buf, off, x + Be16(n), d);
  }

  /** The payload part of a payload whose layout is `n` bytes long: `n`,
      then the layout. */
  lemma RdataBytes(p: Payload, slot: nat, comp: CompMap, n: u16)
    requires |PayloadLayout(p, slot + 2, comp).bytes| == n
    ensures RdataLayout(p, slot, comp).bytes == Be16(n) + PayloadLayout(p, slot + 2, comp).bytes
  {
  }

  /** What `buf` holds at `off` as two parts, part by part. */
  lemma HoldsSplit(buf: seq<byte>, off: nat, x: seq<byte>, y: seq<byte>)
    requires HoldsAt(buf, off, x + y)
    ensures HoldsAt(buf, off, x) && HoldsAt(buf, off + |x|, y)
  {
    SliceSplit(buf, off, x, y);
  }

  /** What `buf` holds at `off` as three parts, part by part. */
  lemma HoldsSplit3(buf: seq<byte>, off: nat, x: seq<byte>, y: seq<byte>, z: seq<byte>)
    requires HoldsAt(buf, off, x + y + z)
    ensures HoldsAt(buf, off, x) && HoldsAt(buf, off + |x|, y) && HoldsAt(buf, off + |x| + |y|, z)
  {
    HoldsSplit(buf, off, x + y, z);
    HoldsSplit(buf, off, x, y);
  }

  /** After the owner name of a record found at `off`, the map it leaves
      is sound for the bytes up to the payload. */
  lemma RecordNameMap(r: Record, buf: seq<byte>, off: nat, comp: CompMap)
    requires HoldsAt(buf, off, HeadLayout(r.hdr, off, comp).bytes + Be16(r.hdr.rdlength))
    requires ValidName(r.hdr.name) && EncFrom(r.hdr.name, 0, off, comp).ptr < 64 && MapValid(buf[..off], comp)
    requires Slot(r, off, comp) + 2 <= 0x1_0000
    ensures MapValid(buf[..Slot(r, off, comp) + 2], NameComp(r, off, comp))
  {
    var e := NameLayout(r.hdr.name, off, comp).bytes;
    assert e == EncName(r.hdr.name, off, comp).bytes && Slot(r, off, comp) == off + |e| + 8;
    HoldsFirst(buf, off, e, FieldBytes(r.hdr), Be16(r.hdr.rdlength), HeadLayout(r.hdr, off, comp).bytes + Be16(r.hdr.rdlength));
    assert Shared(buf, r.hdr.name, off, comp);
    NameKeepsMapValid(r.hdr.name, buf, off, comp);
    MapValidLonger(buf, NameComp(r, off, comp), off + |e|, Slot(r, off, comp) + 2);
  }

  /** Three parts found together at `off`: the first is found there, and
      all three fit. */
  lemma HoldsFirst(buf: seq<byte>, off: nat, x: seq<byte>, y: seq<byte>, z: seq<byte>, whole: seq<byte>)
    requires whole == (x + y) + z && HoldsAt(buf, off, whole)
    ensures HoldsAt(buf, off, x) && off + |x| + |y| + |z| <= |buf|
  {
    assert whole == x + (y + z);
    HoldsSplit(buf, off, x, y + z);
  }

  /** A record's layout found at `off`, in a buffer whose bytes before
      `off` the map is sound for, reads back through one turn of
      `unpackRRSlice` as the record, ending just past it. */
  lemma RecordReads(r: Record, buf: seq<byte>, off: nat, comp: CompMap)
    requires RecordRoundTrips(r, off, comp) && HoldsAt(buf, off, RecordLayout(r, off, comp).bytes)
    requires MapValid(buf[..off], comp) && off + |RecordLayout(r, off, comp).bytes| <= 0x1_0000
    ensures RecordAt(buf, off) == Decoded(Some(r), off + |RecordLayout(r, off, comp).bytes|, Ok)
  {
    var slot := Slot(r, off, comp);
    RecordHeaderAt(r, buf, off, comp);
    RecordPayloadAt(r, buf, off, comp);
    RecordAtOk(buf, off, r.hdr, slot + 2, Decoded(Some(r), off + |RecordLayout(r, off, comp).bytes|, Ok));
  }

  /** The header of a record whose layout is found at `off` reads back,
      ending at its payload. */
  lemma RecordHeaderAt(r: Record, buf: seq<byte>, off: nat, comp: CompMap)
    requires RecordRoundTrips(r, off, comp) && HoldsAt(buf, off, RecordLayout(r, off, comp).bytes)
    requires MapValid(buf[..off], comp)
    ensures HeaderAt(buf, off) == Decoded(r.hdr, Slot(r, off, comp) + 2, Ok)
  {
    RecordParts(r, buf, off, comp);
    HeaderReads(r.hdr, buf, off, comp);
  }

  /** The payload layout of a record whose layout is found at `off`, in a
      buffer whose bytes before `off` the map is sound for, is found at
      its own offset, after bytes the owner name's map is sound for. */
  lemma RecordTail(r: Record, buf: seq<byte>, off: nat, comp: CompMap)
    requires RecordRoundTrips(r, off, comp) && HoldsAt(buf, off, RecordLayout(r, off, comp).bytes)
    requires MapValid(buf[..off], comp) && off + |RecordLayout(r, off, comp).bytes| <= 0x1_0000
    ensures var slot, nc := Slot(r, off, comp), NameComp(r, off, comp);
      var d := PayloadLayout(r.data, slot + 2, nc);
      && PayloadSurvives(r.data, slot + 2, nc)
      && HoldsAt(buf, slot + 2, d.bytes) && MapValid(buf[..slot + 2], nc)
      && off + |RecordLayout(r, off, comp).bytes| == slot + 2 + |d.bytes|
      && slot + 2 + |d.bytes| <= 0x1_0000
      && RecordLayout(r, off, comp).comp == d.comp
  {
    RecordParts(r, buf, off, comp);
    RecordNameMap(r, buf, off, comp);
  }

  /** The payload of a record whose layout is found at `off` reads back
      through `unpackRR`, ending where the layout ends. */
  lemma RecordPayloadAt(r: Record, buf: seq<byte>, off: nat, comp: CompMap)
    requires RecordRoundTrips(r, off, comp) && HoldsAt(buf, off, RecordLayout(r, off, comp).bytes)
    requires MapValid(buf[..off], comp) && off + |RecordLayout(r, off, comp).bytes| <= 0x1_0000
    ensures RRFrom(r.hdr, buf, Slot(r, off, comp) + 2) == Decoded(Some(r), off + |RecordLayout(r, off, comp).bytes|, Ok)
    ensures off + |RecordLayout(r, off, comp).bytes| == Slot(r, off, comp) + 2 + r.hdr.rdlength
  {
    RecordTail(r, buf, off, comp);
    PayloadAt(r, buf, Slot(r, off, comp) + 2, NameComp(r, off, comp));
  }

  /** After a record's layout found at `off`, the map it leaves is sound
      for the bytes up to its end. */
  lemma RecordKeepsMapValid(r: Record, buf: seq<byte>, off: nat, comp: CompMap)
    requires RecordRoundTrips(r, off, comp) && HoldsAt(buf, off, RecordLayout(r, off, comp).bytes)
    requires MapValid(buf[..off], comp) && off + |RecordLayout(r, off, comp).bytes| <= 0x1_0000
    ensures MapValid(buf[..off + |RecordLayout(r, off, comp).bytes|], RecordLayout(r, off, comp).comp)
  {
    RecordTail(r, buf, off, comp);
    PayloadKeepsAt(r.data, buf, Slot(r, off, comp) + 2, NameComp(r, off, comp),
                   off + |RecordLayout(r, off, comp).bytes|, RecordLayout(r, off, comp).comp);
  }

  /** PayloadKeepsMapValid, with the end of the payload and the map it
      leaves named `end` and `after`. */
  lemma PayloadKeepsAt(p: Payload, buf: seq<byte>, poff: nat, pcomp: CompMap, end: nat, after: CompMap)
    requires PayloadSurvives(p, poff, pcomp) && HoldsAt(buf, poff, PayloadLayout(p, poff, pcomp).bytes)
    requires MapValid(buf[..poff], pcomp) && poff + |PayloadLayout(p, poff, pcomp).bytes| <= 0x1_0000
    requires end == poff + |PayloadLayout(p, poff, pcomp).bytes| && after == PayloadLayout(p, poff, pcomp).comp
    ensures end <= |buf| && MapValid(buf[..end], after)
  {
    PayloadKeepsMapValid(p, buf, poff, pcomp);
  }

  /** What a run of items writes at `off` when each writes `layout` at
      the offset and with the map the items before it leave; and the map
      the run leaves. */
  function ChainLayout<T>(layout: (T, nat, CompMap) -> Layout, rs: seq<T>, off: nat, comp: CompMap): (l: Layout)
    ensures rs == [] ==> l == Layout([], comp)
    decreases |rs|
  {
    if rs == [] then Layout([], comp)
    else
      var h := layout(rs[0], off, comp);
      var t := ChainLayout(layout, rs[1..], off + |h.bytes|, h.comp);
      Layout(h.bytes + t.bytes, t.comp)
  }

  /** Every item of the run satisfies `ok` at the offset and with the map
      the items before it leave. */
  predicate ChainOk<T>(ok: (T, nat, CompMap) -> bool, layout: (T, nat, CompMap) -> Layout,
                       rs: seq<T>, off: nat, comp: CompMap)
    decreases |rs|
  {
    rs == [] ||
    (ok(rs[0], off, comp) &&
     ChainOk(ok, layout, rs[1..], off + |layout(rs[0], off, comp).bytes|, layout(rs[0], off, comp).comp))
  }

  /** The loop of `packRRSlice` with `pack` for one turn: the items in
      order, one buffer and map threaded through them, stopping at the
      first failure. */
  function ChainPack<T>(pack: (T, seq<byte>, nat, CompMap) -> Packed, rs: seq<T>, b: seq<byte>, off: nat, comp: CompMap): Packed
    decreases |rs|
  {
    if rs == [] then Packed(b, off, comp, Ok)
    else
      var p := pack(rs[0], b, off, comp);
      if p.status.Fail? || p.off < 0 then p
      else ChainPack(pack, rs[1..], p.buf, p.off, p.comp)
  }

  /** The loop of `unpackRRSlice` with `read` for one turn: `n` turns
      from `off`, each appending what it kept to `acc`, the first failing
      one discarding everything. */
  function ChainRead(read: (seq<byte>, nat) -> Decoded<Option<Record>>, buf: seq<byte>, off: nat, n: nat, acc: seq<Record>): Decoded<seq<Record>>
    decreases n
  {
    if n == 0 then Decoded(acc, off, Ok)
    else
      var u := read(buf, off);
      if u.status.Fail? then Decoded([], u.off, u.status)
      else if u.off < 0 then Decoded([], u.off, u.status)
      else ChainRead(read, buf, u.off, n - 1, acc + Kept(u.val))
  }

  /** When every item that satisfies `ok` is written by `pack` as its
      layout, a run of such items is written by the loop as the run's
      layout. */
  lemma {:induction false} ChainWrites<T>(pack: (T, seq<byte>, nat, CompMap) -> Packed, layout: (T, nat, CompMap) -> Layout,
                                          ok: (T, nat, CompMap) -> bool, rs: seq<T>, b: seq<byte>, off: nat, comp: CompMap)
    requires forall r, b', o, c {:trigger pack(r, b', o, c)} :: ok(r, o, c) ==> WritesAs(pack(r, b', o, c), b', o, layout(r, o, c))
    requires ChainOk(ok, layout, rs, off, comp) && off <= |b|
    ensures WritesAs(ChainPack(pack, rs, b, off, comp), b, off, ChainLayout(layout, rs, off, comp))
    decreases |rs|
  {
    if rs == [] {
      assert b[..off] + [] + b[off..] == b;
    } else {
      var h := layout(rs[0], off, comp);
      var p := pack(rs[0], b, off, comp);
      assert WritesAs(p, b, off, h);
      if p.status.Ok? {
        ChainWrites(pack, layout, ok, rs[1..], p.buf, off + |h.bytes|, h.comp);
      }
      WriteChain(b, off, h, ChainLayout(layout, rs[1..], off + |h.bytes|, h.comp), p,
                 ChainPack(pack, rs[1..], p.buf, off + |h.bytes|, h.comp), ChainPack(pack, rs, b, off, comp),
                 off + |h.bytes|);
    }
  }

  /** An item that satisfies `ok` and whose layout `buf` holds at `o`,
      after bytes the map `c` is sound for, ending within 16-bit offsets. */
  ghost predicate Fits<T>(layout: (T, nat, CompMap) -> Layout, ok: (T, nat, CompMap) -> bool,
                          buf: seq<byte>, r: T, o: nat, c: CompMap)
  {
    var l := layout(r, o, c);
    ok(r, o, c) && HoldsAt(buf, o, l.bytes) && MapValid(buf[..o], c) && o + |l.bytes| <= 0x1_0000
  }

  /** Such an item is read back by `read`, ending just past its layout. */
  ghost predicate ReadsBack(read: (seq<byte>, nat) -> Decoded<Option<Record>>, layout: (Record, nat, CompMap) -> Layout,
                            ok: (Record, nat, CompMap) -> bool, buf: seq<byte>, r: Record, o: nat, c: CompMap)
  {
    Fits(layout, ok, buf, r, o, c) ==> read(buf, o) == Decoded(Some(r), o + |layout(r, o, c).bytes|, Ok)
  }

  /** The map such an item leaves is sound for the bytes up to its end. */
  ghost predicate KeepsBack<T>(layout: (T, nat, CompMap) -> Layout, ok: (T, nat, CompMap) -> bool,
                               buf: seq<byte>, r: T, o: nat, c: CompMap)
  {
    var l := layout(r, o, c);
    Fits(layout, ok, buf, r, o, c) ==> o + |l.bytes| <= |buf| && MapValid(buf[..o + |l.bytes|], l.comp)
  }

  /** When every item is read back as ReadsBack says and leaves a map as
      KeepsBack says, a run of such items whose layout `buf` holds at
      `off` is read back by the loop, after the items already appended,
      ending just past it. */
  lemma {:induction false} ChainReads(read: (seq<byte>, nat) -> Decoded<Option<Record>>, layout: (Record, nat, CompMap) -> Layout,
                                      ok: (Record, nat, CompMap) -> bool, buf: seq<byte>, rs: seq<Record>, off: nat, comp: CompMap, acc: seq<Record>)
    requires forall r, o, c :: ReadsBack(read, layout, ok, buf, r, o, c)
    requires forall r, o, c :: KeepsBack(layout, ok, buf, r, o, c)
    requires ChainOk(ok, layout, rs, off, comp) && HoldsAt(buf, off, ChainLayout(layout, rs, off, comp).bytes)
    requires MapValid(buf[..off], comp) && off + |ChainLayout(layout, rs, off, comp).bytes| <= 0x1_0000
    ensures ChainRead(read, buf, off, |rs|, acc) == Decoded(acc + rs, off + |ChainLayout(layout, rs, off, comp).bytes|, Ok)
    decreases |rs|
  {
    if rs == [] {
      assert acc + rs == acc;
    } else {
      var h := layout(rs[0], off, comp);
      ChainHead(layout, ok, buf, rs, off, comp);
      assert ReadsBack(read, layout, ok, buf, rs[0], off, comp);
      ChainReadStep(read, buf, off, |rs|, acc, rs[0], off + |h.bytes|);
      ChainReads(read, layout, ok, buf, rs[1..], off + |h.bytes|, h.comp, acc + [rs[0]]);
      assert acc + [rs[0]] + rs[1..] == acc + rs;
    }
  }

  /** A turn that reads a record and ends at `end` appends it and goes
      on from `end`. */
  lemma ChainReadStep(read: (seq<byte>, nat) -> Decoded<Option<Record>>, buf: seq<byte>, off: nat, n: nat,
                      acc: seq<Record>, r: Record, end: nat)
    requires n > 0 && read(buf, off) == Decoded(Some(r), end, Ok)
    ensures ChainRead(read, buf, off, n, acc) == ChainRead(read, buf, end, n - 1, acc + [r])
  {
  }

  /** When every item leaves a map as KeepsBack says, the map a run of such
      items leaves is sound for the bytes up to its end. */
  lemma {:induction false} ChainKeeps<T>(layout: (T, nat, CompMap) -> Layout, ok: (T, nat, CompMap) -> bool,
                                         buf: seq<byte>, rs: seq<T>, off: nat, comp: CompMap)
    requires forall r, o, c :: KeepsBack(layout, ok, buf, r, o, c)
    requires ChainOk(ok, layout, rs, off, comp) && HoldsAt(buf, off, ChainLayout(layout, rs, off, comp).bytes)
    requires MapValid(buf[..off], comp) && off + |ChainLayout(layout, rs, off, comp).bytes| <= 0x1_0000
    ensures MapValid(buf[..off + |ChainLayout(layout, rs, off, comp).bytes|], ChainLayout(layout, rs, off, comp).comp)
    decreases |rs|
  {
    if rs != [] {
      var h := layout(rs[0], off, comp);
      ChainHead(layout, ok, buf, rs, off, comp);
      ChainKeeps(layout, ok, buf, rs[1..], off + |h.bytes|, h.comp);
    }
  }

  /** The first item of such a run fits where it is; `buf` holds the rest
      of the run's layout right after it, and the map the item leaves is
      sound for the bytes before the rest. */
  lemma ChainHead<T>(layout: (T, nat, CompMap) -> Layout, ok: (T, nat, CompMap) -> bool,
                     buf: seq<byte>, rs: seq<T>, off: nat, comp: CompMap)
    requires forall r, o, c :: KeepsBack(layout, ok, buf, r, o, c)
    requires rs != [] && ChainOk(ok, layout, rs, off, comp) && HoldsAt(buf, off, ChainLayout(layout, rs, off, comp).bytes)
    requires MapValid(buf[..off], comp) && off + |ChainLayout(layout, rs, off, comp).bytes| <= 0x1_0000
    ensures var h := layout(rs[0], off, comp);
      var t := ChainLayout(layout, rs[1..], off + |h.bytes|, h.comp);
      && Fits(layout, ok, buf, rs[0], off, comp)
      && ChainOk(ok, layout, rs[1..], off + |h.bytes|, h.comp)
      && HoldsAt(buf, off + |h.bytes|, t.bytes)
      && MapValid(buf[..off + |h.bytes|], h.comp)
      && off + |h.bytes| + |t.bytes| <= 0x1_0000
      && ChainLayout(layout, rs, off, comp) == Layout(h.bytes + t.bytes, t.comp)
  {
    var h := layout(rs[0], off, comp);
    var t := ChainLayout(layout, rs[1..], off + |h.bytes|, h.comp);
    HoldsSplit(buf, off, h.bytes, t.bytes);
    assert KeepsBack(layout, ok, buf, rs[0], off, comp);
  }

  /** A loop that reads `n` items with `read`, appending each as soon as
      it is read: a failing item ends it with its offset and error, and
      with no items. */
  function ListRead<T>(read: (seq<byte>, nat) -> Decoded<T>, buf: seq<byte>, off: nat, n: nat): Decoded<seq<T>>
    decreases n
  {
    if n == 0 then Decoded([], off, Ok)
    else
      var u := read(buf, off);
      if u.status.Fail? || u.off < 0 then Decoded([], u.off, u.status)
      else
        var rest := ListRead(read, buf, u.off, n - 1);
        Decoded([u.val] + rest.val, rest.off, rest.status)
  }

  /** An item that fits where it is is read back by `read`, ending just
      past its layout. */
  ghost predicate ItemReadsBack<T>(read: (seq<byte>, nat) -> Decoded<T>, layout: (T, nat, CompMap) -> Layout,
                                   ok: (T, nat, CompMap) -> bool, buf: seq<byte>, r: T, o: nat, c: CompMap)
  {
    Fits(layout, ok, buf, r, o, c) ==> read(buf, o) == Decoded(r, o + |layout(r, o, c).bytes|, Ok)
  }

  /** When every item is read back as ItemReadsBack says and leaves a map
      as KeepsBack says, a run of such items whose layout `buf` holds at
      `off` is read back by the loop, ending just past it. */
  lemma {:induction false} ListReads<T>(read: (seq<byte>, nat) -> Decoded<T>, layout: (T, nat, CompMap) -> Layout,
                                        ok: (T, nat, CompMap) -> bool, buf: seq<byte>, rs: seq<T>, off: nat, comp: CompMap)
    requires forall r, o, c :: ItemReadsBack(read, layout, ok, buf, r, o, c)
    requires forall r, o, c :: KeepsBack(layout, ok, buf, r, o, c)
    requires ChainOk(ok, layout, rs, off, comp) && HoldsAt(buf, off, ChainLayout(layout, rs, off, comp).bytes)
    requires MapValid(buf[..off], comp) && off + |ChainLayout(layout, rs, off, comp).bytes| <= 0x1_0000
    ensures ListRead(read, buf, off, |rs|) == Decoded(rs, off + |ChainLayout(layout, rs, off, comp).bytes|, Ok)
    decreases |rs|
  {
    if rs != [] {
      var h := layout(rs[0], off, comp);
      ChainHead(layout, ok, buf, rs, off, comp);
      assert ItemReadsBack(read, layout, ok, buf, rs[0], off, comp);
      assert read(buf, off) == Decoded(rs[0], off + |h.bytes|, Ok);
      ListReads(read, layout, ok, buf, rs[1..], off + |h.bytes|, h.comp);
      assert [rs[0]] + rs[1..] == rs;
    }
  }

  /** `packRRSlice` is its loop with RecordPack for one turn. */
  lemma {:induction false} PackSectionIsChain(rs: seq<Record>, b: seq<byte>, off: nat, comp: CompMap)
    ensures PackSection(rs, b, off, comp) == ChainPack(RecordPack, rs, b, off, comp)
    decreases |rs|
  {
    if rs != [] {
      var p := RecordPack(rs[0], b, off, comp);
      PackSectionStep(rs, b, off, comp, p);
      if p.status.Ok? {
        PackSectionIsChain(rs[1..], p.buf, p.off, p.comp);
      }
    }
  }

  /** `unpackRRSlice` is its loop with RecordAt for one turn. */
  lemma {:induction false} SectionIsChain(buf: seq<byte>, off: nat, n: nat, acc: seq<Record>)
    ensures Section(buf, off, n, acc) == ChainRead(RecordAt, buf, off, n, acc)
    decreases n
  {
    if n > 0 {
      var u := RecordAt(buf, off);
      if u.status.Ok? {
        SectionIsChain(buf, u.off, n - 1, acc + Kept(u.val));
      }
    }
  }

  /** Every record is read back as ReadsBack says. */
  lemma RecordReadsBack(r: Record, buf: seq<byte>, o: nat, c: CompMap)
    ensures ReadsBack(RecordAt, RecordLayout, RecordRoundTrips, buf, r, o, c)
  {
    if Fits(RecordLayout, RecordRoundTrips, buf, r, o, c) {
      RecordReads(r, buf, o, c);
    }
  }

  /** Every record leaves a map as KeepsBack says. */
  lemma RecordKeepsBack(r: Record, buf: seq<byte>, o: nat, c: CompMap)
    ensures KeepsBack(RecordLayout, RecordRoundTrips, buf, r, o, c)
  {
    if Fits(RecordLayout, RecordRoundTrips, buf, r, o, c) {
      RecordKeepsMapValid(r, buf, o, c);
    }
  }

  /** Every record at every offset is read back as ReadsBack says. */
  lemma RecordsReadBack(buf: seq<byte>)
    ensures forall r, o, c :: ReadsBack(RecordAt, RecordLayout, RecordRoundTrips, buf, r, o, c)
  {
    forall r, o: nat, c
      ensures ReadsBack(RecordAt, RecordLayout, RecordRoundTrips, buf, r, o, c)
    {
      RecordReadsBack(r, buf, o, c);
    }
  }

  /** Every record at every offset leaves a map as KeepsBack says. */
  lemma RecordsKeepBack(buf: seq<byte>)
    ensures forall r, o, c :: KeepsBack(RecordLayout, RecordRoundTrips, buf, r, o, c)
  {
    forall r, o: nat, c
      ensures KeepsBack(RecordLayout, RecordRoundTrips, buf, r, o, c)
    {
      RecordKeepsBack(r, buf, o, c);
    }
  }

  /** `packRRSlice` on such records writes their layout. */
  lemma SectionWrites(rs: seq<Record>, b: seq<byte>, off: nat, comp: CompMap)
    requires ChainOk(RecordRoundTrips, RecordLayout, rs, off, comp) && off <= |b|
    ensures WritesAs(PackSection(rs, b, off, comp), b, off, ChainLayout(RecordLayout, rs, off, comp))
  {
    forall r, b', o: nat, c | RecordRoundTrips(r, o, c)
      ensures WritesAs(RecordPack(r, b', o, c), b', o, RecordLayout(r, o, c))
    {
      RecordWrites(r, b', o, c);
    }
    PackSectionIsChain(rs, b, off, comp);
    ChainWrites(RecordPack, RecordLayout, RecordRoundTrips, rs, b, off, comp);
  }

  /** A run's layout found at `off`, in a buffer whose bytes before `off`
      the map is sound for, reads back through the loop of
      `unpackRRSlice` as the records, in order, ending just past it. */
  lemma SectionReads(rs: seq<Record>, buf: seq<byte>, off: nat, comp: CompMap)
    requires ChainOk(RecordRoundTrips, RecordLayout, rs, off, comp) && HoldsAt(buf, off, ChainLayout(RecordLayout, rs, off, comp).bytes)
    requires MapValid(buf[..off], comp) && off + |ChainLayout(RecordLayout, rs, off, comp).bytes| <= 0x1_0000
    ensures SectionFrom(buf, off, |rs|) == Decoded(rs, off + |ChainLayout(RecordLayout, rs, off, comp).bytes|, Ok)
  {
    RecordsReadBack(buf);
    RecordsKeepBack(buf);
    SectionIsChain(buf, off, |rs|, []);
    ChainReads(RecordAt, RecordLayout, RecordRoundTrips, buf, rs, off, comp, []);
    assert [] + rs == rs;
  }

  /** The map such a run leaves is sound for the bytes up to its end. */
  lemma SectionKeepsMapValid(rs: seq<Record>, buf: seq<byte>, off: nat, comp: CompMap)
    requires ChainOk(RecordRoundTrips, RecordLayout, rs, off, comp) && HoldsAt(buf, off, ChainLayout(RecordLayout, rs, off, comp).bytes)
    requires MapValid(buf[..off], comp) && off + |ChainLayout(RecordLayout, rs, off, comp).bytes| <= 0x1_0000
    ensures MapValid(buf[..off + |ChainLayout(RecordLayout, rs, off, comp).bytes|], ChainLayout(RecordLayout, rs, off, comp).comp)
  {
    RecordsKeepBack(buf);
    ChainKeeps(RecordLayout, RecordRoundTrips, buf, rs, off, comp);
  }

  /** Round trip of a resource-record section: what `packRRSlice` wrote
      for such records from `off` on, with a map sound for the bytes
      before `off` and ending within 16-bit offsets, `unpackRRSlice` with
      their count reads back as the same records, ending where packing
      ended; and the map packing leaves is sound for the bytes packed. */
  lemma SectionRoundTrip(rs: seq<Record>, b: seq<byte>, off: nat, comp: CompMap)
    requires ChainOk(RecordRoundTrips, RecordLayout, rs, off, comp) && PackSection(rs, b, off, comp).status.Ok?
    requires off <= |b| ==> MapValid(b[..off], comp)
    requires PackSection(rs, b, off, comp).off <= 0x1_0000
    ensures var p := PackSection(rs, b, off, comp);
      SectionFrom(p.buf, off, |rs|) == Decoded(rs, p.off, Ok)
    ensures var p := PackSection(rs, b, off, comp);
      off <= |b| ==> p.off <= |p.buf| && MapValid(p.buf[..p.off], p.comp)
  {
    if off > |b| {
      if rs != [] {
        assert false;
      }
    } else {
      var l := ChainLayout(RecordLayout, rs, off, comp);
      SectionWrites(rs, b, off, comp);
      PutBytesFrame(b, off, l.bytes);
      SectionReads(rs, PutBytes(b, off, l.bytes), off, comp);
      SectionKeepsMapValid(rs, PutBytes(b, off, l.bytes), off, comp);
    }
  }
}
