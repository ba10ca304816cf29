/** The message: the fixed 12-byte header with its flag word, the
    question section and the three record sections, packed into a buffer
    of a given size and unpacked into a message object. */
module Message {
  import opened Types
  import opened MsgHelper
  import opened DomainName
  import opened Compression
  import opened Records
  import opened Sections
  import opened RoundTrip

  /** One entry of the question section. */
  datatype Question = Question(name: Text, qtype: u16, qclass: u16)

  /** `MsgHdr`: the header fields as the program sees them. Opcode and
      Rcode are Go `int`s and may hold any value. */
  datatype MsgHdr = MsgHdr(
    id: u16,
    response: bool,
    opcode: int,
    authoritative: bool,
    truncated: bool,
    recursionDesired: bool,
    recursionAvailable: bool,
    zero: bool,
    rcode: int)

  /** `Header`: the header as it is on the wire, six 16-bit words. */
  datatype Header = Header(id: u16, bits: u16, qdcount: u16, ancount: u16, nscount: u16, arcount: u16)

  /** The header's words in wire order. */
  function Words(h: Header): (ws: seq<u16>)
    ensures |ws| == 6
  {
    [h.id, h.bits, h.qdcount, h.ancount, h.nscount, h.arcount]
  }

  // ---------------------------------------------------------------------
  // The flag word

  /** `uint16(msg.Opcode)`: the low 16 bits of Opcode. */
  function OpcodeWord(h: MsgHdr): bv16
  {
    (h.opcode % 0x1_0000) as bv16
  }

  /** One `if msg.X { dh.Bits |= BIT_X }`. */
  function SetIf(bits: bv16, on: bool, bit: bv16): bv16
  {
    if on then bits | bit else bits
  }

  /** The flag word built from the 16-bit Opcode word `op` shifted left by
      11 (which drops all but its low five bits), the Rcode nibble `rc`
      and the five flags, in the order `Pack` sets them. */
  function PackBits(op: bv16, rc: bv16, qr: bool, aa: bool, tc: bool, rd: bool, ra: bool): bv16
  {
    SetIf(SetIf(SetIf(SetIf(SetIf((op << 11) | rc, qr, BitQR), aa, BitAA), tc, BitTC), rd, BitRD), ra, BitRA)
  }

  /** The flag word `Pack` computes from `uint16(Opcode)` and
      `uint16(Rcode & 0xF)`: the Opcode word's low four bits in bits
      11..14, Rcode's low four bits in bits 0..3, each flag in its own
      bit, and QR set by the response flag or by the Opcode word's bit 4.
      Zero is not written. */
  function FlagBits(h: MsgHdr): (b: bv16)
    ensures FlagLayout(b, OpcodeWord(h), RcodeNibble(h),
      h.response, h.authoritative, h.truncated, h.recursionDesired, h.recursionAvailable)
  {
    var op, rc := OpcodeWord(h), RcodeNibble(h);
    FlagWord(op, rc, h.response, h.authoritative, h.truncated, h.recursionDesired, h.recursionAvailable);
    PackBits(op, rc, h.response, h.authoritative, h.truncated, h.recursionDesired, h.recursionAvailable)
  }

  /** `uint16(Rcode & 0xF)`: Rcode's low four bits, as a word with nothing
      above them. */
  function RcodeNibble(h: MsgHdr): (rc: bv16)
    ensures rc & 0xF == rc
  {
    SmallWord(h.rcode % 16);
    (h.rcode % 16) as bv16
  }

  /** The flag word `b` holds the Opcode word `op`'s low four bits in bits
      11..14, the nibble `rc` in bits 0..3, each flag in its own bit, and
      has QR set exactly when the response flag or `op`'s bit 4 is. */
  predicate FlagLayout(b: bv16, op: bv16, rc: bv16, qr: bool, aa: bool, tc: bool, rd: bool, ra: bool)
  {
    && (b >> 11) & 0xF == op & 0xF && b & 0xF == rc
    && (b & BitQR != 0 <==> qr || op & 0x10 != 0)
    && (b & BitAA != 0 <==> aa) && (b & BitTC != 0 <==> tc)
    && (b & BitRD != 0 <==> rd) && (b & BitRA != 0 <==> ra)
  }

  /** Where each part of the flag word lands: as FlagLayout says. */
  lemma FlagWord(op: bv16, rc: bv16, qr: bool, aa: bool, tc: bool, rd: bool, ra: bool)
    requires rc & 0xF == rc
    ensures FlagLayout(PackBits(op, rc, qr, aa, tc, rd, ra), op, rc, qr, aa, tc, rd, ra)
  {
  }

  /** What `Unpack` does to the header fields of `m` given the wire's Id
      and flag word: Opcode is bits 11..14 and Rcode bits 0..3; Zero keeps
      its old value. */
  function FlagsInto(m: MsgHdr, id: u16, b: bv16): (r: MsgHdr)
    ensures r.id == id && r.zero == m.zero
    ensures 0 <= r.opcode < 16 && 0 <= r.rcode < 16
  {
    m.(id := id,
       response := b & BitQR != 0,
       opcode := ((b >> 11) & 0xF) as int,
       authoritative := b & BitAA != 0,
       truncated := b & BitTC != 0,
       recursionDesired := b & BitRD != 0,
       recursionAvailable := b & BitRA != 0,
       rcode := (b & 0xF) as int)
  }

  /** Unpacking a flag word built by PackBits gives back each flag, the
      nibble as Rcode and the Opcode word's low four bits as Opcode; QR
      reads as set when the response flag or the word's bit 4 was. */
  lemma FlagsFromBits(m: MsgHdr, id: u16, op: bv16, rc: bv16, qr: bool, aa: bool, tc: bool, rd: bool, ra: bool)
    requires rc & 0xF == rc
    ensures FlagsInto(m, id, PackBits(op, rc, qr, aa, tc, rd, ra)) ==
      m.(id := id,
         response := qr || op & 0x10 != 0,
         opcode := (op & 0xF) as int,
         authoritative := aa,
         truncated := tc,
         recursionDesired := rd,
         recursionAvailable := ra,
         rcode := rc as int)
  {
    var b := PackBits(op, rc, qr, aa, tc, rd, ra);
    FlagWord(op, rc, qr, aa, tc, rd, ra);
    FlagsOf(m, id, b, op, rc, qr, aa, tc, rd, ra);
  }

  /** FlagsInto on a word whose parts are known. */
  lemma FlagsOf(m: MsgHdr, id: u16, b: bv16, op: bv16, rc: bv16, qr: bool, aa: bool, tc: bool, rd: bool, ra: bool)
    requires (b >> 11) & 0xF == op & 0xF && b & 0xF == rc
    requires (b & BitQR != 0 <==> qr || op & 0x10 != 0)
    requires (b & BitAA != 0 <==> aa) && (b & BitTC != 0 <==> tc)
    requires (b & BitRD != 0 <==> rd) && (b & BitRA != 0 <==> ra)
    ensures FlagsInto(m, id, b) ==
      m.(id := id,
         response := qr || op & 0x10 != 0,
         opcode := (op & 0xF) as int,
         authoritative := aa,
         truncated := tc,
         recursionDesired := rd,
         recursionAvailable := ra,
         rcode := rc as int)
  {
  }

  /** The header fields survive `Pack` and `Unpack` as far as the flag
      word carries them: Opcode comes back as the low four bits of its
      16-bit word and Rcode modulo 16, Zero is the reader's own, and the
      Opcode word's bit 4, which `<< 11` moves onto QR, comes back as a
      response. */
  lemma FlagsRoundTrip(h: MsgHdr, m: MsgHdr)
    ensures FlagsInto(m, h.id, FlagBits(h)) ==
      h.(response := h.response || OpcodeWord(h) & 0x10 != 0,
         opcode := (OpcodeWord(h) & 0xF) as int,
         zero := m.zero,
         rcode := h.rcode % 16)
  {
    SmallWord(h.rcode % 16);
    FlagsFromBits(m, h.id, OpcodeWord(h), (h.rcode % 16) as bv16,
      h.response, h.authoritative, h.truncated, h.recursionDesired, h.recursionAvailable);
  }

  /** An integer below 16 is its own 16-bit word's low nibble. */
  lemma SmallWord(x: int)
    requires 0 <= x < 16
    ensures ((x as bv16) & 0xF) as int == x && (x as bv16) & 0x10 == 0
    ensures ((x as bv16) as int) == x && (x as bv16) & 0xF == x as bv16
  {
  }

  /** Small values are unchanged by the truncations of `Pack`. */
  lemma SmallMod(x: int)
    requires 0 <= x < 32
    ensures x % 0x1_0000 == x && (x < 16 ==> x % 16 == x)
  {
  }

  /** Opcodes and Rcodes in 0..15 come back unchanged, with every flag. */
  lemma FlagsRoundTripInRange(h: MsgHdr, m: MsgHdr)
    requires 0 <= h.opcode < 16 && 0 <= h.rcode < 16
    ensures FlagsInto(m, h.id, FlagBits(h)) == h.(zero := m.zero)
  {
    FlagsRoundTrip(h, m);
    SmallOpcode(h);
    SmallMod(h.rcode);
  }

  /** An Opcode in 0..15 is the low four bits of its word, and bit 4 is
      clear. */
  lemma SmallOpcode(h: MsgHdr)
    requires 0 <= h.opcode < 16
    ensures (OpcodeWord(h) & 0xF) as int == h.opcode && OpcodeWord(h) & 0x10 == 0
  {
    SmallMod(h.opcode);
    SmallWord(h.opcode);
  }

  /** An Opcode of 16..31 does not fit its four bits: it comes back 16
      lower, and the message comes back as a response. */
  lemma OpcodeSpillsIntoQR(h: MsgHdr, m: MsgHdr)
    requires 16 <= h.opcode < 32
    ensures var r := FlagsInto(m, h.id, FlagBits(h));
      r.response && r.opcode == h.opcode - 16
  {
    FlagsRoundTrip(h, m);
    SpilledOpcode(h);
  }

  /** An Opcode in 16..31 has bit 4 of its word set, and its low four
      bits are the Opcode less 16. */
  lemma SpilledOpcode(h: MsgHdr)
    requires 16 <= h.opcode < 32
    ensures (OpcodeWord(h) & 0xF) as int == h.opcode - 16 && OpcodeWord(h) & 0x10 != 0
  {
    var o := h.opcode;
    SmallMod(o);
    assert ((o as bv16) & 0xF) as int == o - 16 && (o as bv16) & 0x10 != 0;
  }

  // ---------------------------------------------------------------------
  // The header on the wire

  /** Consecutive big-endian 16-bit words. */
  function Be16s(ws: seq<u16>): (r: seq<byte>)
    ensures |r| == 2 * |ws|
  {
    if ws == [] then [] else Be16(ws[0]) + Be16s(ws[1..])
  }

  /** Consecutive `packUint16` calls, stopping at the first error. */
  function WordsWrite(ws: seq<u16>, b: seq<byte>, off: nat): (r: Written)
    ensures |r.buf| == |b|
    ensures r.status.Ok? ==> r.off == off + 2 * |ws|
    decreases |ws|
  {
    if ws == [] then Written(b, off, Ok)
    else
      var w := Uint16Write(ws[0], b, off);
      if w.status.Fail? then w else WordsWrite(ws[1..], w.buf, w.off)
  }

  /** A non-empty run of words is written when it fits, as Be16s at
      `off`; otherwise the run fails with the overflow error and the
      buffer's length. */
  lemma {:induction false} WordsWrites(ws: seq<u16>, b: seq<byte>, off: nat)
    requires ws != []
    ensures var r := WordsWrite(ws, b, off);
      && (r.status.Ok? <==> off + 2 * |ws| <= |b|)
      && (r.status.Ok? ==> r.buf == PutBytes(b, off, Be16s(ws)))
      && (r.status.Fail? ==> r.off == |b| && r.status == Fail(OverflowPacking))
    decreases |ws|
  {
    var w := Uint16Write(ws[0], b, off);
    if w.status.Ok? {
      if |ws| == 1 {
        assert Be16s(ws) == Be16(ws[0]);
      } else {
        WordsWrites(ws[1..], w.buf, w.off);
        if off + 2 * |ws| <= |b| {
          PutBytesAppend(b, off, Be16(ws[0]), Be16s(ws[1..]));
        }
      }
    }
  }

  /** `Header.pack`. */
  method PackHeader(h: Header, buf: array<byte>, off: nat) returns (off1: int, status: Status)
    modifies buf
    ensures Written(buf[..], off1, status) == WordsWrite(Words(h), old(buf[..]), off)
  {
    ghost var ws := Words(h);
    ghost var whole := WordsWrite(ws, buf[..], off);
    off1, status := PackUint16(h.id, buf, off);
    if status.Fail? {
      return;
    }
    assert WordsWrite(ws[1..], buf[..], off1) == whole;
    off1, status := PackUint16(h.bits, buf, off1);
    if status.Fail? {
      return;
    }
    assert WordsWrite(ws[2..], buf[..], off1) == whole;
    off1, status := PackUint16(h.qdcount, buf, off1);
    if status.Fail? {
      return;
    }
    assert WordsWrite(ws[3..], buf[..], off1) == whole;
    off1, status := PackUint16(h.ancount, buf, off1);
    if status.Fail? {
      return;
    }
    assert WordsWrite(ws[4..], buf[..], off1) == whole;
    off1, status := PackUint16(h.nscount, buf, off1);
    if status.Fail? {
      return;
    }
    assert WordsWrite(ws[5..], buf[..], off1) == whole;
    off1, status := PackUint16(h.arcount, buf, off1);
    if status.Fail? {
      return;
    }
    assert WordsWrite(ws[6..], buf[..], off1) == whole;
  }

  /** Consecutive `unpackUint16` calls, stopping at the first error. */
  function WordsRead(data: seq<byte>, off: nat, n: nat): (r: Decoded<seq<u16>>)
    ensures r.status.Ok? <==> n == 0 || off + 2 * n <= |data|
    ensures r.status.Ok? ==> |r.val| == n && r.off == off + 2 * n
    decreases n
  {
    if n == 0 then Decoded([], off, Ok)
    else
      var u := UnpackUint16(data, off);
      if u.status.Fail? then Decoded([], u.off, u.status)
      else
        var rest := WordsRead(data, off + 2, n - 1);
        Decoded([u.val] + rest.val, rest.off, rest.status)
  }

  /** The six header reads at the top of `Unpack`. */
  function HeaderRead(data: seq<byte>, off: nat): (r: Decoded<Header>)
    ensures r.status.Ok? <==> off + HeaderSize <= |data|
    ensures r.status.Ok? ==> r.off == off + HeaderSize
  {
    var w := WordsRead(data, off, 6);
    if w.status.Fail? then Decoded(Header(0, 0, 0, 0, 0, 0), w.off, w.status)
    else Decoded(Header(w.val[0], w.val[1], w.val[2], w.val[3], w.val[4], w.val[5]), w.off, Ok)
  }

  /** Words found at `off` read back. */
  lemma {:induction false} WordsAt(data: seq<byte>, off: nat, ws: seq<u16>)
    requires off + 2 * |ws| <= |data| && data[off..off + 2 * |ws|] == Be16s(ws)
    ensures WordsRead(data, off, |ws|) == Decoded(ws, off + 2 * |ws|, Ok)
    decreases |ws|
  {
    if ws != [] {
      SliceSplit(data, off, Be16(ws[0]), Be16s(ws[1..]));
      Uint16At(data, off, ws[0]);
      WordsAt(data, off + 2, ws[1..]);
      assert ws == [ws[0]] + ws[1..];
    }
  }

  /** A header found at `off` reads back. */
  lemma HeaderAtReads(h: Header, data: seq<byte>, off: nat)
    requires off + HeaderSize <= |data| && data[off..off + HeaderSize] == Be16s(Words(h))
    ensures HeaderRead(data, off) == Decoded(h, off + HeaderSize, Ok)
  {
    WordsAt(data, off, Words(h));
  }

  /** What `Header.pack` wrote, `Unpack` reads back, and a buffer shorter
      than the header cannot be read at all. */
  lemma HeaderRoundTrip(h: Header, b: seq<byte>, off: nat)
    ensures WordsWrite(Words(h), b, off).status.Ok? <==> off + HeaderSize <= |b|
    ensures var w := WordsWrite(Words(h), b, off);
      w.status.Ok? ==> HeaderRead(w.buf, off) == Decoded(h, off + HeaderSize, Ok)
  {
    var ws := Words(h);
    WordsWrites(ws, b, off);
    if off + HeaderSize <= |b| {
      PutBytesFrame(b, off, Be16s(ws));
      HeaderAtReads(h, PutBytes(b, off, Be16s(ws)), off);
    }
  }

  // ---------------------------------------------------------------------
  // Questions

  /** The bytes `Question.pack` writes at `off`: the name's encoding
      through the map, then QType and QClass. */
  function QuestionBytes(q: Question, off: nat, comp: CompMap): (x: seq<byte>)
    ensures |x| == |EncName(q.name, off, comp).bytes| + 4
  {
    EncName(q.name, off, comp).bytes + Be16(q.qtype) + Be16(q.qclass)
  }

  /** `Question.pack` on the buffer's contents: the name through the
      shared map, QType, QClass; the first step that fails ends it with
      its offset and error. */
  function QuestionPack(q: Question, b: seq<byte>, off: nat, comp: CompMap): (r: Packed)
    ensures |r.buf| == |b| && Keeps(comp, r.comp)
    ensures r.status.Ok? ==> r.off > off + 4
  {
    var n := NamePack(q.name, b, off, comp);
    if n.status.Fail? then n
    else
      var t := Uint16Write(q.qtype, n.buf, n.off);
      if t.status.Fail? then WithMap(t, n.comp)
      else WithMap(Uint16Write(q.qclass, t.buf, t.off), n.comp)
  }

  /** A question is written as QuestionBytes exactly when they fit. */
  lemma QuestionWrites(q: Question, b: seq<byte>, off: nat, comp: CompMap)
    ensures var x, r := QuestionBytes(q, off, comp), QuestionPack(q, b, off, comp);
      && (r.status.Ok? <==> off + |x| <= |b|)
      && (r.status.Ok? ==> r == Packed(PutBytes(b, off, x), off + |x|, EncName(q.name, off, comp).comp, Ok))
  {
    var e := EncName(q.name, off, comp).bytes;
    NameWrites(q.name, b, off, comp);
    if off + |e| + 4 <= |b| {
      var b1 := PutBytes(b, off, e);
      var b2 := PutBytes(b1, off + |e|, Be16(q.qtype));
      PutBytesAppend(b, off, e, Be16(q.qtype));
      PutBytesAppend(b, off, e + Be16(q.qtype), Be16(q.qclass));
    }
  }

  /** `Question.pack`, writing the caller's buffer. */
  method PackQuestion(q: Question, buf: array<byte>, off: nat, compression: CompMap)
    returns (off1: int, comp1: CompMap, status: Status)
    modifies buf
    ensures Packed(buf[..], off1, comp1, status) == QuestionPack(q, old(buf[..]), off, compression)
  {
    off1, comp1, status := PackDomainName(q.name, buf, off, compression);
    if status.Fail? {
      return;
    }
    off1, status := PackUint16(q.qtype, buf, off1);
    if status.Fail? {
      return;
    }
    off1, status := PackUint16(q.qclass, buf, off1);
  }

  /** The question loop of `Pack`: each question in order, one map
      threaded through all of them, stopping at the first error. */
  function QuestionsPack(qs: seq<Question>, b: seq<byte>, off: nat, comp: CompMap): (r: Packed)
    ensures |r.buf| == |b| && Keeps(comp, r.comp)
    ensures r.status.Ok? ==> r.off >= off + 4 * |qs|
    decreases |qs|
  {
    if qs == [] then Packed(b, off, comp, Ok)
    else
      var p := QuestionPack(qs[0], b, off, comp);
      if p.status.Fail? then p
      else
        var r := QuestionsPack(qs[1..], p.buf, p.off, p.comp);
        KeepsTrans(comp, p.comp, r.comp);
        r
  }

  /** `unpackDomainName`, then QType and QClass, for one question of
      `Unpack`. */
  function QuestionAt(data: seq<byte>, off: nat): (r: Decoded<Question>)
    ensures r.status.Ok? ==> r.off == UnpackName(data, off).off + 4 && r.off <= |data|
  {
    var n := UnpackName(data, off);
    if n.status.Fail? then Decoded(Question(n.val, 0, 0), n.off, n.status)
    else
      var t := UnpackUint16(data, n.off);
      if t.status.Fail? then Decoded(Question(n.val, 0, 0), t.off, t.status)
      else
        var c := UnpackUint16(data, t.off);
        Decoded(Question(n.val, t.val, c.val), c.off, c.status)
  }

  /** A question found at `off`, in a buffer whose bytes before `off`
      the map is sound for, reads back, when its name is valid and any
      map hit is below 64. */
  lemma QuestionReads(q: Question, data: seq<byte>, off: nat, comp: CompMap)
    requires ValidName(q.name) && EncFrom(q.name, 0, off, comp).ptr < 64
    requires HoldsAt(data, off, QuestionBytes(q, off, comp)) && MapValid(data[..off], comp)
    ensures QuestionAt(data, off) == Decoded(q, off + |QuestionBytes(q, off, comp)|, Ok)
  {
    var e := EncName(q.name, off, comp).bytes;
    HoldsSplit3(data, off, e, Be16(q.qtype), Be16(q.qclass));
    NameReads(q.name, data, off, comp);
    QuestionFieldsRead(q, data, off, off + |e|);
  }

  /** A question's name, read back up to `n0`, followed by its QType and
      QClass, reads back as the question. */
  lemma QuestionFieldsRead(q: Question, data: seq<byte>, off: nat, n0: nat)
    requires UnpackName(data, off) == Decoded(q.name, n0, Ok)
    requires HoldsAt(data, n0, Be16(q.qtype)) && HoldsAt(data, n0 + 2, Be16(q.qclass))
    ensures QuestionAt(data, off) == Decoded(q, n0 + 4, Ok)
  {
    Uint16At(data, n0, q.qtype);
    Uint16At(data, n0 + 2, q.qclass);
  }

  /** The question loop of `Unpack`: `n` questions from `off`. A failing
      question ends it with its offset and error; the questions before it
      are kept, because `Unpack` appends each one as soon as it is read. */
  function QuestionsFrom(data: seq<byte>, off: nat, n: nat): (r: Decoded<seq<Question>>)
    ensures |r.val| <= n
    ensures r.status.Ok? ==> |r.val| == n && r.off >= off
    decreases n
  {
    if n == 0 then Decoded([], off, Ok)
    else
      var q := QuestionAt(data, off);
      if q.status.Fail? then Decoded([], q.off, q.status)
      else
        var rest := QuestionsFrom(data, q.off, n - 1);
        Decoded([q.val] + rest.val, rest.off, rest.status)
  }

  /** `unpackDomainName` and the two `unpackUint16` of one question. */
  method ReadQuestion(data: seq<byte>, off: nat) returns (q: Question, off1: int, status: Status)
    ensures Decoded(q, off1, status) == QuestionAt(data, off)
  {
    var name;
    name, off1, status := UnpackDomainName(data, off);
    q := Question(name, 0, 0);
    if status.Fail? {
      return;
    }
    var t := UnpackUint16(data, off1);
    q, off1, status := q.(qtype := t.val), t.off, t.status;
    if status.Fail? {
      return;
    }
    var c := UnpackUint16(data, off1);
    q, off1, status := q.(qclass := c.val), c.off, c.status;
  }

  // ---------------------------------------------------------------------
  // The whole message

  /** A message as a value: the header fields and the four sections, the
      records taken by value. */
  datatype MsgValue = MsgValue(
    hdr: MsgHdr,
    question: seq<Question>,
    answer: seq<Record>,
    ns: seq<Record>,
    extra: seq<Record>)

  /** The wire header `Pack` builds: Id, the flag word and each section's
      length truncated to 16 bits (`uint16(len(...))`), so a count is the
      section's length exactly when that is below 65536. */
  function HeaderOf(m: MsgValue): (h: Header)
    ensures h.id == m.hdr.id && h.bits as bv16 == FlagBits(m.hdr)
    ensures h.qdcount == |m.question| % 0x1_0000 && h.ancount == |m.answer| % 0x1_0000
    ensures h.nscount == |m.ns| % 0x1_0000 && h.arcount == |m.extra| % 0x1_0000
  {
    Header(m.hdr.id, FlagBits(m.hdr) as int,
      |m.question| % 0x1_0000, |m.answer| % 0x1_0000, |m.ns| % 0x1_0000, |m.extra| % 0x1_0000)
  }

  /** What `Pack` returns: the packed bytes, or nil and an error. */
  datatype Packet = Packet(bytes: seq<byte>, status: Status)

  /** `Pack` into a zeroed buffer of `size` bytes (`msg.len()` in the
      program): the header, then the questions and records; the first
      error is returned with no bytes. */
  function PackMsg(m: MsgValue, size: nat): (r: Packet)
    ensures r.status.Fail? ==> r.bytes == []
    ensures r.status.Ok? ==> HeaderSize + 4 * |m.question| <= |r.bytes| <= size
  {
    var h := WordsWrite(Words(HeaderOf(m)), Zeros(size), 0);
    if h.status.Fail? then Packet([], h.status)
    else PackBody(m.question, m.answer, m.ns, m.extra, h.buf, h.off)
  }

  /** The questions, with a fresh compression map, then the records. */
  function PackBody(question: seq<Question>, answer: seq<Record>, ns: seq<Record>, extra: seq<Record>,
                    b: seq<byte>, off: nat): (r: Packet)
    ensures r.status.Fail? ==> r.bytes == []
    ensures r.status.Ok? ==> off + 4 * |question| <= |r.bytes| <= |b|
  {
    var q := QuestionsPack(question, b, off, map[]);
    if q.status.Fail? then Packet([], q.status)
    else PackRecords(answer, ns, extra, q.buf, q.off, q.comp)
  }

  /** Answer, Ns and Extra through the map the questions left. The bytes
      are the buffer up to the final offset; an offset past the buffer's
      end is Go's slice-bounds panic. */
  function PackRecords(answer: seq<Record>, ns: seq<Record>, extra: seq<Record>, b: seq<byte>, off: nat, comp: CompMap): (r: Packet)
    ensures r.status.Fail? ==> r.bytes == []
    ensures r.status.Ok? ==> off <= |r.bytes| <= |b|
  {
    var a := PackSection(answer, b, off, comp);
    if a.status.Fail? then Packet([], a.status)
    else
      var n := PackSection(ns, a.buf, a.off, a.comp);
      if n.status.Fail? then Packet([], n.status)
      else
        var e := PackSection(extra, n.buf, n.off, n.comp);
        if e.status.Fail? then Packet([], e.status)
        else if e.off > |e.buf| then Packet([], Fail(IndexOutOfRange))
        else Packet(e.buf[..e.off], Ok)
  }

  /** The buffer of `Pack`: `size` zero bytes with the header written
      at its start. */
  method NewWithHeader(h: Header, size: nat) returns (b: array<byte>, off: int, status: Status)
    ensures fresh(b)
    ensures Written(b[..], off, status) == WordsWrite(Words(h), Zeros(size), 0)
  {
    b := new byte[size](_ => 0);
    assert b[..] == Zeros(size);
    off, status := PackHeader(h, b, 0);
  }

  /** `Pack` after the header: the questions, then the records. */
  method PackBodyInto(question: seq<Question>, answer: seq<RR>, ns: seq<RR>, extra: seq<RR>, b: array<byte>, off: nat)
    returns (buf: seq<byte>, status: Status)
    modifies b
    ensures Packet(buf, status) == PackBody(question, old(Values(answer)), old(Values(ns)), old(Values(extra)), old(b[..]), off)
  {
    ghost var va, vn, ve := Values(answer), Values(ns), Values(extra);
    var o, c, st := PackQuestions(question, b, off, map[]);
    if st.Fail? {
      return [], st;
    }
    assert Values(answer) == va && Values(ns) == vn && Values(extra) == ve;
    buf, status := PackSections(answer, ns, extra, b, o, c);
  }

  /** The three `packRRSlice` calls of `Pack` and its final slice. */
  method PackSections(answer: seq<RR>, ns: seq<RR>, extra: seq<RR>, b: array<byte>, off: nat, comp: CompMap)
    returns (buf: seq<byte>, status: Status)
    modifies b
    ensures Packet(buf, status) == PackRecords(old(Values(answer)), old(Values(ns)), old(Values(extra)), old(b[..]), off, comp)
  {
    ghost var va, vn, ve := Values(answer), Values(ns), Values(extra);
    var o, c, st := PackRRSlice(answer, b, off, comp);
    if st.Fail? {
      return [], st;
    }
    assert Values(ns) == vn && Values(extra) == ve;
    o, c, st := PackRRSlice(ns, b, o, c);
    if st.Fail? {
      return [], st;
    }
    assert Values(extra) == ve;
    o, c, st := PackRRSlice(extra, b, o, c);
    if st.Fail? {
      return [], st;
    }
    if o > b.Length {
      return [], Fail(IndexOutOfRange);
    }
    return b[..o], Ok;
  }

  /** What `Unpack` leaves: the message and the error. */
  datatype Unpacked = Unpacked(msg: MsgValue, status: Status)

  /** `Unpack` into the message `m`. A header that cannot be read leaves
      `m` as it was. Otherwise Id and the flags are set from the header
      (Zero is left alone) before the sections are read. The questions
      `m` had stay in front of those read, even when a later part fails;
      on success exactly the announced number of questions is appended,
      and each record section holds at most its announced count. */
  function UnpackMsg(m: MsgValue, data: seq<byte>): (r: Unpacked)
    ensures |data| < HeaderSize ==> r.status.Fail? && r.msg == m
    ensures |data| >= HeaderSize ==>
      && r.msg.hdr.id == HeaderRead(data, 0).val.id && r.msg.hdr.zero == m.hdr.zero
      && 0 <= r.msg.hdr.opcode < 16 && 0 <= r.msg.hdr.rcode < 16
    ensures |m.question| <= |r.msg.question| && r.msg.question[..|m.question|] == m.question
    ensures var h := HeaderRead(data, 0).val;
      r.status.Ok? ==>
        && |r.msg.question| == |m.question| + h.qdcount
        && |r.msg.answer| <= h.ancount && |r.msg.ns| <= h.nscount && |r.msg.extra| <= h.arcount
  {
    var h := HeaderRead(data, 0);
    if h.status.Fail? then Unpacked(m, h.status)
    else UnpackBody(m.(hdr := FlagsInto(m.hdr, h.val.id, h.val.bits as bv16)), data, h.val)
  }

  /** The questions read after the header are appended to those `m`
      already has, even when a later one fails; then the record sections
      are read. Fewer questions than announced means the read failed
      there and the record sections are as they were. */
  function UnpackBody(m: MsgValue, data: seq<byte>, h: Header): (r: Unpacked)
    ensures r.msg.hdr == m.hdr
    ensures |m.question| <= |r.msg.question| <= |m.question| + h.qdcount
    ensures r.msg.question[..|m.question|] == m.question
    ensures |r.msg.question| < |m.question| + h.qdcount ==>
      r.status.Fail? && r.msg.answer == m.answer && r.msg.ns == m.ns && r.msg.extra == m.extra
    ensures r.status.Ok? ==>
      && |r.msg.question| == |m.question| + h.qdcount
      && |r.msg.answer| <= h.ancount && |r.msg.ns| <= h.nscount && |r.msg.extra| <= h.arcount
  {
    var qs := QuestionsFrom(data, HeaderSize, h.qdcount);
    var m1 := m.(question := m.question + qs.val);
    if qs.status.Fail? then Unpacked(m1, qs.status)
    else UnpackRecords(m1, data, qs.off, h)
  }

  /** Answer, Ns and Extra are each replaced by the records
      `unpackRRSlice` returns, none when it fails; the first error ends
      it. So only the record sections change; on failure the section that
      failed is empty and those after it are as they were; on success
      each holds at most its announced count. */
  function UnpackRecords(m: MsgValue, data: seq<byte>, off: nat, h: Header): (r: Unpacked)
    ensures r.msg.hdr == m.hdr && r.msg.question == m.question
    ensures r.status.Fail? ==>
      || (r.msg.answer == [] && r.msg.ns == m.ns && r.msg.extra == m.extra)
      || (r.msg.ns == [] && r.msg.extra == m.extra)
      || r.msg.extra == []
    ensures r.status.Ok? ==> |r.msg.answer| <= h.ancount && |r.msg.ns| <= h.nscount && |r.msg.extra| <= h.arcount
  {
    var a := SectionFrom(data, off, h.ancount);
    var m1 := m.(answer := a.val);
    if a.status.Fail? then Unpacked(m1, a.status)
    else
      var n := SectionFrom(data, a.off, h.nscount);
      var m2 := m1.(ns := n.val);
      if n.status.Fail? then Unpacked(m2, n.status)
      else
        var e := SectionFrom(data, n.off, h.arcount);
        Unpacked(m2.(extra := e.val), e.status)
  }

  /** A message object: `MsgHdr` embedded, and the four sections. */
  class Msg {
    var hdr: MsgHdr
    var question: seq<Question>
    var answer: seq<RR>
    var ns: seq<RR>
    var extra: seq<RR>

    /** `new(Msg)`: every field zero, every section nil. */
    constructor ()
      ensures hdr == MsgHdr(0, false, 0, false, false, false, false, false, 0)
      ensures question == [] && answer == [] && ns == [] && extra == []
    {
      hdr := MsgHdr(0, false, 0, false, false, false, false, false, 0);
      question, answer, ns, extra := [], [], [], [];
    }

    /** The message as a value. */
    function Value(): MsgValue
      reads this, answer, ns, extra
    {
      MsgValue(hdr, question, Values(answer), Values(ns), Values(extra))
    }

    /** `SetQuestion`: one question of class INET appended. */
    method SetQuestion(name: Text, qtype: u16)
      modifies this
      ensures question == old(question) + [Question(name, qtype, ClassINET)]
      ensures hdr == old(hdr) && answer == old(answer) && ns == old(ns) && extra == old(extra)
    {
      question := question + [Question(name, qtype, ClassINET)];
    }

    /** `Pack`, with the buffer size `msg.len()` as a parameter. */
    method Pack(size: nat) returns (buf: seq<byte>, status: Status)
      ensures Packet(buf, status) == PackMsg(Value(), size)
    {
      var b, off, st := NewWithHeader(HeaderOf(Value()), size);
      if st.Fail? {
        return [], st;
      }
      buf, status := PackBodyInto(question, answer, ns, extra, b, off);
    }

    /** `Unpack`: see UnpackMsg. */
    method Unpack(data: seq<byte>) returns (status: Status)
      modifies this
      ensures Unpacked(Value(), status) == UnpackMsg(old(Value()), data)
    {
      var dh := HeaderRead(data, 0);
      if dh.status.Fail? {
        return dh.status;
      }
      SetFlags(dh.val.id, dh.val.bits as bv16);
      status := ReadBody(data, dh.val);
    }

    /** `Unpack` after the header: the questions, then the records. */
    method ReadBody(data: seq<byte>, h: Header) returns (status: Status)
      modifies this
      ensures Unpacked(Value(), status) == UnpackBody(old(Value()), data, h)
    {
      var off: int;
      off, status := ReadQuestions(data, h.qdcount);
      if status.Fail? {
        return;
      }
      status := ReadSections(data, off, h);
    }

    /** The header fields of `Unpack`: the id and the flag word. */
    method SetFlags(id: u16, bits: bv16)
      modifies this
      ensures Value() == old(Value()).(hdr := FlagsInto(old(hdr), id, bits))
    {
      hdr := FlagsInto(hdr, id, bits);
    }

    /** The three `unpackRRSlice` calls of `Unpack`. */
    method ReadSections(data: seq<byte>, off: nat, h: Header) returns (status: Status)
      modifies this
      ensures Unpacked(Value(), status) == UnpackRecords(old(Value()), data, off, h)
    {
      var o, st := ReadAnswer(data, off, h.ancount);
      if st.Fail? {
        return st;
      }
      o, st := ReadNs(data, o, h.nscount);
      if st.Fail? {
        return st;
      }
      o, status := ReadExtra(data, o, h.arcount);
    }

    /** `msg.Answer, off, err = unpackRRSlice(...)`: the section is
        replaced by the slice returned, nil on error. */
    method ReadAnswer(data: seq<byte>, off: nat, count: u16) returns (off1: int, status: Status)
      modifies this
      ensures var r := SectionFrom(data, off, count);
        Value() == old(Value()).(answer := r.val) && off1 == r.off && status == r.status
    {
      ghost var m := Value();
      var rrs;
      rrs, off1, status := UnpackRRSlice(data, off, count);
      answer := rrs;
      assert Values(ns) == m.ns && Values(extra) == m.extra;
    }

    /** `msg.Ns, off, err = unpackRRSlice(...)`. */
    method ReadNs(data: seq<byte>, off: nat, count: u16) returns (off1: int, status: Status)
      modifies this
      ensures var r := SectionFrom(data, off, count);
        Value() == old(Value()).(ns := r.val) && off1 == r.off && status == r.status
    {
      ghost var m := Value();
      var rrs;
      rrs, off1, status := UnpackRRSlice(data, off, count);
      ns := rrs;
      assert Values(answer) == m.answer && Values(extra) == m.extra;
    }

    /** `msg.Extra, off, err = unpackRRSlice(...)`. */
    method ReadExtra(data: seq<byte>, off: nat, count: u16) returns (off1: int, status: Status)
      modifies this
      ensures var r := SectionFrom(data, off, count);
        Value() == old(Value()).(extra := r.val) && off1 == r.off && status == r.status
    {
      ghost var m := Value();
      var rrs;
      rrs, off1, status := UnpackRRSlice(data, off, count);
      extra := rrs;
      assert Values(answer) == m.answer && Values(ns) == m.ns;
    }

    /** The question loop of `Unpack`: `n` questions from just after the
        header, each appended as soon as it is read. */
    method ReadQuestions(data: seq<byte>, n: u16) returns (off1: int, status: Status)
      modifies this
      ensures var r := QuestionsFrom(data, HeaderSize, n);
        question == old(question) + r.val && off1 == r.off && status == r.status
      ensures hdr == old(hdr) && answer == old(answer) && ns == old(ns) && extra == old(extra)
    {
      ghost var whole := QuestionsFrom(data, HeaderSize, n);
      ghost var done: seq<Question> := [];
      var off: nat := HeaderSize;
      var i := 0;
      off1, status := off, Ok;
      assert done + whole.val == whole.val;
      while i < n && status.Ok?
        invariant 0 <= i <= n
        invariant question == old(question) + done
        invariant status.Ok? ==> QLeads(data, off, n - i, done, whole)
        invariant status.Fail? ==> whole == Decoded(done, off1, status)
        invariant hdr == old(hdr) && answer == old(answer) && ns == old(ns) && extra == old(extra)
        decreases n - i, if status.Ok? then 1 else 0
      {
        var q, o, st := QuestionTurn(data, off, done, n - i, whole);
        if st.Ok? {
          question := question + [q];
          done := done + [q];
          off, i := o, i + 1;
        } else {
          off1 := o;
        }
        status := st;
      }
      if status.Ok? {
        off1 := off;
      }
    }
  }

  /** The body of the question loop of `Unpack`: one question read at
      `off`, one turn of QuestionsFrom. */
  method QuestionTurn(data: seq<byte>, off: nat, ghost done: seq<Question>, ghost left: nat,
                      ghost whole: Decoded<seq<Question>>)
    returns (q: Question, off1: int, status: Status)
    requires left > 0 && QLeads(data, off, left, done, whole)
    ensures status.Fail? ==> whole == Decoded(done, off1, status)
    ensures status.Ok? ==> off1 >= 0 && QLeads(data, off1, left - 1, done + [q], whole)
  {
    ghost var t := QuestionsFrom(data, off, left);
    q, off1, status := ReadQuestion(data, off);
    if status.Ok? {
      ghost var rest := QuestionsFrom(data, off1, left - 1);
      assert done + t.val == (done + [q]) + rest.val;
    } else {
      assert done + t.val == done;
    }
  }

  /** The question loop of `Unpack` at `off` with `n` questions left and
      the questions `done` appended so far ends in `whole`. */
  ghost predicate QLeads(data: seq<byte>, off: nat, n: nat, done: seq<Question>, whole: Decoded<seq<Question>>)
  {
    var t := QuestionsFrom(data, off, n);
    whole == Decoded(done + t.val, t.off, t.status)
  }

  /** The question loop of `Pack`, writing the caller's buffer. */
  method PackQuestions(qs: seq<Question>, buf: array<byte>, off: nat, compression: CompMap)
    returns (off1: int, comp1: CompMap, status: Status)
    modifies buf
    ensures Packed(buf[..], off1, comp1, status) == QuestionsPack(qs, old(buf[..]), off, compression)
  {
    ghost var whole := QuestionsPack(qs, buf[..], off, compression);
    var cur: nat := off;
    comp1, status := compression, Ok;
    var i := 0;
    off1 := off;
    while i < |qs| && status.Ok?
      invariant 0 <= i <= |qs|
      invariant status.Ok? ==> off1 == cur && QuestionsPack(qs[i..], buf[..], cur, comp1) == whole
      invariant status.Fail? ==> Packed(buf[..], off1, comp1, status) == whole
    {
      ghost var b0, rest := buf[..], qs[i..];
      assert rest[0] == qs[i] && rest[1..] == qs[i + 1..];
      off1, comp1, status := PackQuestion(qs[i], buf, cur, comp1);
      if status.Ok? {
        cur := off1;
      }
      i := i + 1;
    }
  }
}
