/** The resource-record sections of a message: `packRRSlice`, which
    writes each record's header, reserves its Rdlength field and fills it
    in after the payload, and `unpackRR`/`unpackRRSlice`, which read a
    counted run of records, check each payload against its Rdlength and
    skip records of unregistered types. */
module Sections {
  import opened Types
  import opened MsgHelper
  import opened DomainName
  import opened Records

  /** The records behind a slice of record objects. */
  function Values(rrs: seq<RR>): (vs: seq<Record>)
    reads rrs
    ensures |vs| == |rrs|
    ensures forall i :: 0 <= i < |rrs| ==> vs[i] == rrs[i].Value()
  {
    if rrs == [] then [] else [rrs[0].Value()] + Values(rrs[1..])
  }

  /** One turn of the loop of `packRRSlice` on the buffer's contents: the
      header, then the payload with its length. The header's own Rdlength
      is not used. */
  function RecordPack(r: Record, b: seq<byte>, off: nat, comp: CompMap): (p: Packed)
    ensures |p.buf| == |b| && Keeps(comp, p.comp)
    ensures p.status.Ok? ==> p.off > off
  {
    var h := HeaderPack(r.hdr, b, off, comp);
    if h.status.Fail? then h
    else
      var d := RdataPack(r.data, h.buf, h.off, h.comp);
      KeepsTrans(comp, h.comp, d.comp);
      d
  }

  /** The header part of a turn: the owner name through the shared map,
      then Rrtype, Class and Ttl; the first step that fails ends the turn
      with its offset and error. */
  function HeaderPack(h: RRHeader, b: seq<byte>, off: nat, comp: CompMap): (p: Packed)
    ensures |p.buf| == |b| && Keeps(comp, p.comp)
    ensures p.status.Ok? ==> p.off > off + 8
  {
    var n := NamePack(h.name, b, off, comp);
    if n.status.Fail? then n
    else WithMap(FieldsWrite(h, n.buf, n.off), n.comp)
  }

  /** Rrtype and Class (16 bits each) and Ttl (32 bits), big-endian, from
      `off` on. */
  function FieldsWrite(h: RRHeader, b: seq<byte>, off: nat): (w: Written)
    ensures |w.buf| == |b|
    ensures w.status.Ok? ==> w.off == off + 8
  {
    var t := Uint16Write(h.rrtype, b, off);
    if t.status.Fail? then t
    else
      var c := Uint16Write(h.rrclass, t.buf, t.off);
      if c.status.Fail? then c
      else Uint32Write(h.ttl, c.buf, c.off)
  }

  /** The payload part of a turn, with `slot` where the Rdlength goes: the
      payload from `slot + 2` on, then the slot filled with the number of
      payload bytes truncated to 16 bits (`uint16(rdLength)`). A failing
      payload ends the turn with its offset and error; a failing backfill
      reports the offset after the payload. */
  function RdataPack(p: Payload, b: seq<byte>, slot: nat, comp: CompMap): (r: Packed)
    ensures |r.buf| == |b| && Keeps(comp, r.comp)
    ensures r.status.Ok? ==> r.off >= slot + 2
  {
    var d := PayloadPack(p, b, slot + 2, comp);
    if d.status.Fail? then d
    else
      var f := Uint16Write((d.off - slot - 2) % 0x1_0000, d.buf, slot);
      Packed(f.buf, d.off, d.comp, f.status)
  }

  /** The two steps of RdataPack: a failing payload is the result; one
      that packs, to `d`, is followed by the backfill of its length. */
  lemma RdataPackSteps(p: Payload, b: seq<byte>, slot: nat, comp: CompMap, d: Packed)
    requires d == PayloadPack(p, b, slot + 2, comp)
    ensures d.status.Fail? ==> RdataPack(p, b, slot, comp) == d
    ensures d.status.Ok? ==>
      RdataPack(p, b, slot, comp) == WithMap(Uint16Write((d.off - slot - 2) % 0x1_0000, d.buf, slot), d.comp).(off := d.off)
  {
  }

  /** `packRRSlice` on the buffer's contents: the records in slice order,
      one map threaded through all of them, stopping at the first error. */
  function PackSection(rs: seq<Record>, b: seq<byte>, off: nat, comp: CompMap): (p: Packed)
    ensures |p.buf| == |b| && Keeps(comp, p.comp)
    ensures p.status.Ok? ==> p.off >= off
    ensures p.status.Ok? && rs != [] ==> p.off > off
    decreases |rs|
  {
    if rs == [] then Packed(b, off, comp, Ok)
    else
      var p := RecordPack(rs[0], b, off, comp);
      if p.status.Fail? then p
      else
        var q := PackSection(rs[1..], p.buf, p.off, p.comp);
        KeepsTrans(comp, p.comp, q.comp);
        q
  }

  /** One turn of PackSection: the first record, then the rest unless
      the first failed. */
  lemma PackSectionStep(rs: seq<Record>, b: seq<byte>, off: nat, comp: CompMap, p: Packed)
    requires rs != [] && p == RecordPack(rs[0], b, off, comp)
    ensures PackSection(rs, b, off, comp) == if p.status.Fail? then p else PackSection(rs[1..], p.buf, p.off, p.comp)
  {
  }

  lemma KeepsTrans(c0: CompMap, c1: CompMap, c2: CompMap)
    requires Keeps(c0, c1) && Keeps(c1, c2)
    ensures Keeps(c0, c2)
  {
  }

  /** Packing two runs of records one after the other is packing them
      together: the loop of `packRRSlice` and the sections of `Pack` chain
      the same way. */
  lemma {:induction false} PackSectionAppend(a: seq<Record>, c: seq<Record>, b: seq<byte>, off: nat, comp: CompMap)
    ensures var p := PackSection(a, b, off, comp);
      PackSection(a + c, b, off, comp) == if p.status.Fail? then p else PackSection(c, p.buf, p.off, p.comp)
    decreases |a|
  {
    if a == [] {
      assert a + c == c;
    } else {
      assert (a + c)[1..] == a[1..] + c;
      var p := RecordPack(a[0], b, off, comp);
      if p.status.Ok? {
        PackSectionAppend(a[1..], c, p.buf, p.off, p.comp);
      }
    }
  }

  /** The loop of `packRRSlice`. */
  method PackRRSlice(rrs: seq<RR>, buf: array<byte>, off: nat, compression: CompMap)
    returns (off1: int, comp1: CompMap, status: Status)
    modifies buf
    ensures Packed(buf[..], off1, comp1, status) == PackSection(old(Values(rrs)), old(buf[..]), off, compression)
  {
    ghost var vs := Values(rrs);
    ghost var whole := PackSection(vs, buf[..], off, compression);
    var cur: nat := off;
    comp1, status := compression, Ok;
    var i := 0;
    off1 := off;
    while i < |rrs| && status.Ok?
      invariant 0 <= i <= |rrs|
      invariant vs == Values(rrs)
      invariant status.Ok? ==> off1 == cur && PackSection(vs[i..], buf[..], cur, comp1) == whole
      invariant status.Fail? ==> Packed(buf[..], off1, comp1, status) == whole
    {
      off1, comp1, status := PackTurn(rrs, i, buf, cur, comp1, vs);
      if status.Ok? {
        cur := off1;
      }
      i := i + 1;
    }
  }

  /** The turn of the loop of `packRRSlice` for record `i`, as a step of
      PackSection. */
  method PackTurn(rrs: seq<RR>, i: nat, buf: array<byte>, cur: nat, comp: CompMap, ghost vs: seq<Record>)
    returns (off1: int, comp1: CompMap, status: Status)
    requires i < |rrs| && vs == Values(rrs)
    ensures Values(rrs) == vs
    modifies buf
    ensures status.Fail? ==> Packed(buf[..], off1, comp1, status) == PackSection(vs[i..], old(buf[..]), cur, comp)
    ensures status.Ok? ==> off1 > cur
    ensures status.Ok? ==> PackSection(vs[i + 1..], buf[..], off1, comp1) == PackSection(vs[i..], old(buf[..]), cur, comp)
  {
    ghost var b0, rest := buf[..], vs[i..];
    assert rest[0] == vs[i] && rest[1..] == vs[i + 1..];
    var o, c, st := PackRecord(rrs[i], buf, cur, comp);
    PackSectionStep(rest, b0, cur, comp, Packed(buf[..], o, c, st));
    return o, c, st;
  }

  /** One turn of the loop of `packRRSlice`, writing the caller's buffer. */
  method PackRecord(rr: RR, buf: array<byte>, off: nat, compression: CompMap)
    returns (off1: int, comp1: CompMap, status: Status)
    modifies buf
    ensures Packed(buf[..], off1, comp1, status) == RecordPack(rr.Value(), old(buf[..]), off, compression)
  {
    ghost var b0 := buf[..];
    var o;
    o, comp1, status := PackDomainName(rr.hdr.name, buf, off, compression);
    if status.Fail? {
      return o, comp1, status;
    }
    ghost var b1 := buf[..];
    assert NamePack(rr.hdr.name, b0, off, compression) == Packed(b1, o, comp1, Ok);
    o, status := PackFields(rr.hdr, buf, o);
    if status.Fail? {
      return o, comp1, status;
    }
    ghost var b2 := buf[..];
    assert HeaderPack(rr.hdr, b0, off, compression) == Packed(b2, o, comp1, Ok);
    off1, comp1, status := PackRdata(rr, buf, o, comp1);
  }

  /** Rrtype, Class and Ttl of the loop of `packRRSlice`. */
  method PackFields(h: RRHeader, buf: array<byte>, off: nat) returns (off1: int, status: Status)
    modifies buf
    ensures Written(buf[..], off1, status) == FieldsWrite(h, old(buf[..]), off)
  {
    off1, status := PackUint16(h.rrtype, buf, off);
    if status.Fail? {
      return;
    }
    off1, status := PackUint16(h.rrclass, buf, off1);
    if status.Fail? {
      return;
    }
    off1, status := PackUint32(h.ttl, buf, off1);
  }

  /** The Rdlength slot at `off`, the payload, and the backfill. */
  method PackRdata(rr: RR, buf: array<byte>, off: nat, compression: CompMap)
    returns (off1: int, comp1: CompMap, status: Status)
    modifies buf
    ensures Packed(buf[..], off1, comp1, status) == RdataPack(rr.data, old(buf[..]), off, compression)
  {
    ghost var b0, p := buf[..], rr.data;
    ghost var d := PayloadPack(p, b0, off + 2, compression);
    RdataPackSteps(p, b0, off, compression, d);
    off1, comp1, status := rr.Pack(buf, off + 2, compression);
    assert d == Packed(buf[..], off1, comp1, status);
    if status.Fail? {
      return;
    }
    ghost var b1 := buf[..];
    assert b1 == d.buf && off1 == d.off;
    var o;
    o, status := Backfill(buf, off, off1);
    assert Written(buf[..], o, status) == Uint16Write((d.off - off - 2) % 0x1_0000, d.buf, off);
    assert rr.data == p;
  }

  /** `packUint16(uint16(rdLength), buf, offAtRdLength)` with `rdLength`
      the number of bytes from the end of the slot to `end`. */
  method Backfill(buf: array<byte>, slot: nat, end: int) returns (off1: int, status: Status)
    modifies buf
    ensures Written(buf[..], off1, status) == Uint16Write((end - slot - 2) % 0x1_0000, old(buf[..]), slot)
  {
    var rdLength := end - slot - 2;
    off1, status := PackUint16(rdLength % 0x1_0000, buf, slot);
  }

  /** The header reads of `unpackRRSlice`: owner name, Rrtype, Class, Ttl
      and Rdlength in order. The first read that fails ends the header
      with its offset and error, the header holding the fields read so far
      and the failed read's zero. */
  function HeaderAt(data: seq<byte>, off: nat): (r: Decoded<RRHeader>)
    ensures r.status.Ok? ==> UnpackName(data, off).status.Ok?
    ensures r.status.Ok? ==> r.val.name == UnpackName(data, off).val && r.off == UnpackName(data, off).off + 10
    ensures r.status.Ok? ==> r.off <= |data|
  {
    var n := UnpackName(data, off);
    if n.status.Fail? then Decoded(RRHeader(n.val, 0, 0, 0, 0), n.off, n.status)
    else
      var t := UnpackUint16(data, n.off);
      if t.status.Fail? then Decoded(RRHeader(n.val, 0, 0, 0, 0), t.off, t.status)
      else
        var c := UnpackUint16(data, t.off);
        if c.status.Fail? then Decoded(RRHeader(n.val, t.val, 0, 0, 0), c.off, c.status)
        else
          var l := UnpackUint32(data, c.off);
          if l.status.Fail? then Decoded(RRHeader(n.val, t.val, c.val, 0, 0), l.off, l.status)
          else
            var d := UnpackUint16(data, l.off);
            Decoded(RRHeader(n.val, t.val, c.val, l.val, d.val), d.off, d.status)
  }

  /** `unpackRR` on a header read at an offset before `off`: a type the
      registry does not know yields no record and skips Rdlength bytes
      unread; a known type with Rdlength 0 yields the fresh record with
      that header and reads nothing; otherwise the fresh record's `unpack`
      reads the payload, and a failure there yields no record. */
  function RRFrom(rh: RRHeader, data: seq<byte>, off: nat): (r: Decoded<Option<Record>>)
    ensures TypeToRR(rh.rrtype).None? ==> r == Decoded(None, off + rh.rdlength, Ok)
    ensures r.status.Fail? ==> r.val.None?
    ensures r.status.Ok? ==> r.off >= off
    ensures r.val.Some? ==> r.val.value.hdr == rh && TypeToRR(rh.rrtype) == KindOf(r.val.value.data)
    ensures TypeToRR(rh.rrtype).Some? && r.status.Ok? ==> r.val.Some?
  {
    match TypeToRR(rh.rrtype)
    case None => Decoded(None, off + rh.rdlength, Ok)
    case Some(k) =>
      if rh.rdlength == 0 then Decoded(Some(Record(rh, Zero(k))), off, Ok)
      else
        var u := PayloadUnpack(Zero(k), rh, data, off);
        if u.status.Fail? then Decoded(None, u.off, u.status)
        else Decoded(Some(Record(rh, u.val)), u.off, Ok)
  }

  /** One turn of the loop of `unpackRRSlice`: the header, then `unpackRR`,
      then the check that the payload ended exactly Rdlength bytes after
      the header, which fails with offset 0 otherwise. */
  function RecordAt(data: seq<byte>, off: nat): (r: Decoded<Option<Record>>)
    ensures r.status.Ok? ==> r.off > off
    ensures r.status.Ok? ==> r.off == HeaderAt(data, off).off + HeaderAt(data, off).val.rdlength
    ensures r.status.Fail? ==> r.val.None?
    ensures r.val.Some? ==> TypeToRR(r.val.value.hdr.rrtype) == KindOf(r.val.value.data)
  {
    var h := HeaderAt(data, off);
    if h.status.Fail? then Decoded(None, h.off, h.status)
    else
      var u := RRFrom(h.val, data, h.off);
      if u.status.Fail? then u
      else if u.off != h.off + h.val.rdlength then Decoded(None, 0, Fail(BadRdlength))
      else u
  }

  /** The loop of `unpackRRSlice` from a state it reaches: `n` turns left
      at `off`, the records `acc` appended so far. A failing turn ends it
      with no records, that turn's offset and its error; after the last
      turn the records appended and the offset are the result. */
  function Section(data: seq<byte>, off: nat, n: nat, acc: seq<Record>): (r: Decoded<seq<Record>>)
    ensures r.status.Fail? ==> r.val == []
    ensures r.status.Ok? ==> r.off >= off && |r.val| <= |acc| + n
    decreases n
  {
    if n == 0 then Decoded(acc, off, Ok)
    else
      var u := RecordAt(data, off);
      if u.status.Fail? then Decoded([], u.off, u.status)
      else Section(data, u.off, n - 1, acc + Kept(u.val))
  }

  /** `unpackRRSlice` on `n` records from `off`: the records read, in
      order and without the skipped ones, and the offset after the last;
      the first failing turn discards everything read so far. */
  function SectionFrom(data: seq<byte>, off: nat, n: nat): (r: Decoded<seq<Record>>)
    ensures r.status.Fail? ==> r.val == []
    ensures r.status.Ok? ==> r.off >= off && |r.val| <= n
  {
    Section(data, off, n, [])
  }

  /** The records a turn appends: none or one. */
  function Kept(o: Option<Record>): (rs: seq<Record>)
    ensures |rs| <= 1
    ensures o.None? ==> rs == []
    ensures o.Some? ==> rs == [o.value]
  {
    if o.Some? then [o.value] else []
  }

  /** `unpackRRSlice`: the record objects read, fresh, whose values are
      the records of SectionFrom. A negative count reads nothing. */
  method UnpackRRSlice(data: seq<byte>, off: nat, count: int) returns (res: seq<RR>, off1: int, status: Status)
    ensures Decoded(Values(res), off1, status) == SectionFrom(data, off, if count < 0 then 0 else count)
  {
    var n: nat := if count < 0 then 0 else count;
    ghost var total := Section(data, off, n, []);
    ghost var vals;
    res, off1, status, vals := ReadRecords(data, off, n, total);
    ValuesAre(res, vals);
  }

  /** The loop of `unpackRRSlice`: `n` turns from `off` that Section says
      end in `total`, the objects kept holding its records one by one. */
  method ReadRecords(data: seq<byte>, off: nat, n: nat, ghost total: Decoded<seq<Record>>)
    returns (res: seq<RR>, off1: int, status: Status, ghost vals: seq<Record>)
    requires Leads(data, off, n, [], total)
    ensures |res| == |vals| && forall j :: 0 <= j < |res| ==> res[j].Value() == vals[j]
    ensures Decoded(vals, off1, status) == total
  {
    var left := n;
    var cur: nat := off;
    res, vals := [], [];
    off1, status := off, Ok;
    while left > 0 && status.Ok?
      invariant |res| == |vals| && forall j :: 0 <= j < |res| ==> res[j].Value() == vals[j]
      invariant status.Ok? ==> Leads(data, cur, left, vals, total) == true
      invariant status.Fail? ==> Decoded([], off1, status) == total
      decreases left, if status.Ok? then 1 else 0
    {
      var r1, o, st, v1 := UnpackTurn(data, cur, res, vals, left, total);
      if st.Ok? {
        res, cur, left, vals := r1, o, left - 1, v1;
      } else {
        off1 := o;
      }
      status := st;
    }
    if status.Fail? {
      return [], off1, status, [];
    }
    assert Section(data, cur, 0, vals) == total;
    return res, cur, Ok, vals;
  }

  /** Records that match the objects one by one are their values. */
  lemma ValuesAre(rrs: seq<RR>, vs: seq<Record>)
    requires |rrs| == |vs| && forall j :: 0 <= j < |rrs| ==> rrs[j].Value() == vs[j]
    ensures Values(rrs) == vs
  {
  }

  /** The loop state `off`, `n` turns left and `acc` appended ends in
      `total`. It quantifies over the data equal to `data` so that a proof
      about the loop sees Section only where it names it. */
  ghost predicate Leads(data: seq<byte>, off: nat, n: nat, acc: seq<Record>, total: Decoded<seq<Record>>)
  {
    forall d {:trigger Section(d, off, n, acc)} :: d == data ==> Section(d, off, n, acc) == total
  }

  /** The body of the loop of `unpackRRSlice`: one record read at `off`
      and kept, as a fresh object, unless its type is unknown; one turn of
      Section. */
  method UnpackTurn(data: seq<byte>, off: nat, res: seq<RR>, ghost done: seq<Record>, ghost left: nat,
                    ghost total: Decoded<seq<Record>>)
    returns (res1: seq<RR>, off1: int, status: Status, ghost done1: seq<Record>)
    requires left > 0 && Leads(data, off, left, done, total)
    requires |res| == |done| && forall j :: 0 <= j < |res| ==> res[j].Value() == done[j]
    ensures |res1| == |done1| && forall j :: 0 <= j < |res1| ==> res1[j].Value() == done1[j]
    ensures status.Fail? ==> Decoded([], off1, status) == total
    ensures status.Ok? ==> off1 > off && Leads(data, off1, left - 1, done1, total) == true
  {
    assert Section(data, off, left, done) == total;
    var rr;
    rr, off1, status := ReadRecord(data, off);
    ghost var u := RecordAt(data, off);
    assert u == Decoded(ValueOf(rr), off1, status);
    done1 := done + Kept(u.val);
    res1 := if rr != null then res + [rr] else res;
  }

  /** What `unpackRR` returns, as a value: no record for nil. */
  function ValueOf(rr: RR?): (o: Option<Record>)
    reads rr
    ensures o.Some? <==> rr != null
    ensures rr != null ==> o.value == rr.Value()
  {
    if rr == null then None else Some(rr.Value())
  }

  /** One turn of the loop of `unpackRRSlice`: the header, `unpackRR` and
      the Rdlength check. */
  method ReadRecord(data: seq<byte>, off: nat) returns (rr: RR?, off1: int, status: Status)
    ensures rr != null ==> fresh(rr)
    ensures Decoded(ValueOf(rr), off1, status) == RecordAt(data, off)
  {
    var rh, o, st := ReadHeader(data, off);
    if st.Fail? {
      return null, o, st;
    }
    var end := o + rh.rdlength;
    rr, off1, status := UnpackRR(rh, data, o);
    if status.Fail? {
      return;
    }
    if end != off1 {
      return null, 0, Fail(BadRdlength);
    }
  }

  /** The header reads at the top of the loop of `unpackRRSlice`. */
  method ReadHeader(data: seq<byte>, off: nat) returns (rh: RRHeader, off1: int, status: Status)
    ensures Decoded(rh, off1, status) == HeaderAt(data, off)
  {
    var name;
    name, off1, status := UnpackDomainName(data, off);
    rh := RRHeader(name, 0, 0, 0, 0);
    if status.Fail? {
      return;
    }
    var t := UnpackUint16(data, off1);
    rh, off1, status := rh.(rrtype := t.val), t.off, t.status;
    if status.Fail? {
      return;
    }
    var c := UnpackUint16(data, off1);
    rh, off1, status := rh.(rrclass := c.val), c.off, c.status;
    if status.Fail? {
      return;
    }
    var l := UnpackUint32(data, off1);
    rh, off1, status := rh.(ttl := l.val), l.off, l.status;
    if status.Fail? {
      return;
    }
    var d := UnpackUint16(data, off1);
    rh, off1, status := rh.(rdlength := d.val), d.off, d.status;
  }

  /** `unpackRR`: a fresh record of the registered type, its header set
      through `Header()`, then its `unpack` unless Rdlength is 0. */
  method UnpackRR(rh: RRHeader, data: seq<byte>, off: nat) returns (rr: RR?, off1: int, status: Status)
    ensures rr != null ==> fresh(rr)
    ensures Decoded(ValueOf(rr), off1, status) == RRFrom(rh, data, off)
  {
    var k := TypeToRR(rh.rrtype);
    if k.None? {
      return null, off + rh.rdlength, Ok;
    }
    rr := new RR(k.value);
    rr.SetHeader(rh);
    if rh.rdlength == 0 {
      return rr, off, Ok;
    }
    off1, status := rr.Unpack(data, off);
    if status.Fail? {
      return null, off1, status;
    }
  }
}
