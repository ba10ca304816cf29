/** Round trip of a whole message: `Pack` lays the header, the questions
    and the three record sections out one after the other, sharing one
    compression map, and `Unpack` reads every part back from those
    bytes. */
module MessageRoundTrip {
  import opened Types
  import opened MsgHelper
  import opened DomainName
  import opened Compression
  import opened Records
  import opened Sections
  import opened RoundTrip
  import opened Message

  // ---------------------------------------------------------------------
  // The question section

  /** What `Question.pack` writes at `off`, and the map its name leaves. */
  function QuestionLayout(q: Question, off: nat, comp: CompMap): (l: Layout)
    ensures |l.bytes| > 4
  {
    Layout(QuestionBytes(q, off, comp), EncName(q.name, off, comp).comp)
  }

  /** A question that reads back where it is written: a valid name whose
      map hit, if any, is below 64. */
  predicate QuestionOk(q: Question, off: nat, comp: CompMap)
  {
    ValidName(q.name) && EncFrom(q.name, 0, off, comp).ptr < 64
  }

  /** `Question.pack` writes its layout. */
  lemma QuestionWritesAs(q: Question, b: seq<byte>, off: nat, comp: CompMap)
    ensures WritesAs(QuestionPack(q, b, off, comp), b, off, QuestionLayout(q, off, comp))
  {
    QuestionWrites(q, b, off, comp);
  }

  /** The question loop of `Pack` is the chain loop with QuestionPack for
      one turn. */
  lemma {:induction false} QuestionsPackIsChain(qs: seq<Question>, b: seq<byte>, off: nat, comp: CompMap)
    ensures QuestionsPack(qs, b, off, comp) == ChainPack(QuestionPack, qs, b, off, comp)
    decreases |qs|
  {
    if qs != [] {
      var p := QuestionPack(qs[0], b, off, comp);
      if p.status.Ok? {
        QuestionsPackIsChain(qs[1..], p.buf, p.off, p.comp);
      }
    }
  }

  /** The question loop of `Pack` writes the questions' layout: it
      succeeds exactly when the layout fits. */
  lemma QuestionsWrites(qs: seq<Question>, b: seq<byte>, off: nat, comp: CompMap)
    requires ChainOk(QuestionOk, QuestionLayout, qs, off, comp) && off <= |b|
    ensures WritesAs(QuestionsPack(qs, b, off, comp), b, off, ChainLayout(QuestionLayout, qs, off, comp))
  {
    forall q, b', o: nat, c | QuestionOk(q, o, c)
      ensures WritesAs(QuestionPack(q, b', o, c), b', o, QuestionLayout(q, o, c))
    {
      QuestionWritesAs(q, b', o, c);
    }
    QuestionsPackIsChain(qs, b, off, comp);
    ChainWrites(QuestionPack, QuestionLayout, QuestionOk, qs, b, off, comp);
  }

  /** After a question found at `off`, the map its name leaves is sound
      for the bytes up to the question's end. */
  lemma QuestionKeepsMapValid(q: Question, data: seq<byte>, off: nat, comp: CompMap)
    requires QuestionOk(q, off, comp) && HoldsAt(data, off, QuestionBytes(q, off, comp))
    requires MapValid(data[..off], comp) && off + |QuestionBytes(q, off, comp)| <= 0x1_0000
    ensures MapValid(data[..off + |QuestionBytes(q, off, comp)|], EncName(q.name, off, comp).comp)
  {
    var e := EncName(q.name, off, comp).bytes;
    HoldsSplit3(data, off, e, Be16(q.qtype), Be16(q.qclass));
    NameKeepsMapValid(q.name, data, off, comp);
    MapValidLonger(data, EncName(q.name, off, comp).comp, off + |e|, off + |e| + 4);
  }

  /** Every question is read back as ItemReadsBack says. */
  lemma QuestionReadsBack(q: Question, data: seq<byte>, o: nat, c: CompMap)
    ensures ItemReadsBack(QuestionAt, QuestionLayout, QuestionOk, data, q, o, c)
  {
    if Fits(QuestionLayout, QuestionOk, data, q, o, c) {
      QuestionReads(q, data, o, c);
    }
  }

  /** Every question leaves a map as KeepsBack says. */
  lemma QuestionKeepsBack(q: Question, data: seq<byte>, o: nat, c: CompMap)
    ensures KeepsBack(QuestionLayout, QuestionOk, data, q, o, c)
  {
    if Fits(QuestionLayout, QuestionOk, data, q, o, c) {
      QuestionKeepsMapValid(q, data, o, c);
    }
  }

  /** Every question at every offset is read back as ItemReadsBack says. */
  lemma QuestionsReadBack(data: seq<byte>)
    ensures forall q, o, c :: ItemReadsBack(QuestionAt, QuestionLayout, QuestionOk, data, q, o, c)
  {
    forall q, o: nat, c
      ensures ItemReadsBack(QuestionAt, QuestionLayout, QuestionOk, data, q, o, c)
    {
      QuestionReadsBack(q, data, o, c);
    }
  }

  /** Every question at every offset leaves a map as KeepsBack says. */
  lemma QuestionsKeepBack(data: seq<byte>)
    ensures forall q, o, c :: KeepsBack(QuestionLayout, QuestionOk, data, q, o, c)
  {
    forall q, o: nat, c
      ensures KeepsBack(QuestionLayout, QuestionOk, data, q, o, c)
    {
      QuestionKeepsBack(q, data, o, c);
    }
  }

  /** The question loop of `Unpack` is the list loop with QuestionAt for
      one question. */
  lemma {:induction false} QuestionsFromIsList(data: seq<byte>, off: nat, n: nat)
    ensures QuestionsFrom(data, off, n) == ListRead(QuestionAt, data, off, n)
    decreases n
  {
    if n > 0 {
      var q := QuestionAt(data, off);
      if q.status.Ok? {
        QuestionsFromIsList(data, q.off, n - 1);
      }
    }
  }

  /** The questions' layout found at `off`, in a buffer whose bytes
      before `off` the map is sound for, reads back through the question
      loop of `Unpack` as the same questions, ending just past it; and the
      map the questions leave is sound for the bytes up to there. */
  lemma QuestionsReads(qs: seq<Question>, data: seq<byte>, off: nat, comp: CompMap)
    requires ChainOk(QuestionOk, QuestionLayout, qs, off, comp) && HoldsAt(data, off, ChainLayout(QuestionLayout, qs, off, comp).bytes)
    requires MapValid(data[..off], comp) && off + |ChainLayout(QuestionLayout, qs, off, comp).bytes| <= 0x1_0000
    ensures QuestionsFrom(data, off, |qs|) == Decoded(qs, off + |ChainLayout(QuestionLayout, qs, off, comp).bytes|, Ok)
    ensures MapValid(data[..off + |ChainLayout(QuestionLayout, qs, off, comp).bytes|], ChainLayout(QuestionLayout, qs, off, comp).comp)
  {
    QuestionsListed(qs, data, off, comp);
    QuestionsKeep(qs, data, off, comp);
  }

  /** The reading half of QuestionsReads. */
  lemma QuestionsListed(qs: seq<Question>, data: seq<byte>, off: nat, comp: CompMap)
    requires ChainOk(QuestionOk, QuestionLayout, qs, off, comp) && HoldsAt(data, off, ChainLayout(QuestionLayout, qs, off, comp).bytes)
    requires MapValid(data[..off], comp) && off + |ChainLayout(QuestionLayout, qs, off, comp).bytes| <= 0x1_0000
    ensures QuestionsFrom(data, off, |qs|) == Decoded(qs, off + |ChainLayout(QuestionLayout, qs, off, comp).bytes|, Ok)
  {
    QuestionsReadBack(data);
    QuestionsKeepBack(data);
    QuestionsFromIsList(data, off, |qs|);
    ListReads(QuestionAt, QuestionLayout, QuestionOk, data, qs, off, comp);
  }

  /** The map half of QuestionsReads. */
  lemma QuestionsKeep(qs: seq<Question>, data: seq<byte>, off: nat, comp: CompMap)
    requires ChainOk(QuestionOk, QuestionLayout, qs, off, comp) && HoldsAt(data, off, ChainLayout(QuestionLayout, qs, off, comp).bytes)
    requires MapValid(data[..off], comp) && off + |ChainLayout(QuestionLayout, qs, off, comp).bytes| <= 0x1_0000
    ensures MapValid(data[..off + |ChainLayout(QuestionLayout, qs, off, comp).bytes|], ChainLayout(QuestionLayout, qs, off, comp).comp)
  {
    QuestionsKeepBack(data);
    ChainKeeps(QuestionLayout, QuestionOk, data, qs, off, comp);
  }

  // ---------------------------------------------------------------------
  // The layout of a message

  /** The questions, from just after the header, with a fresh map. */
  function QuestionPart(m: MsgValue): Layout
  {
    ChainLayout(QuestionLayout, m.question, HeaderSize, map[])
  }

  /** Where the answer section starts. */
  function AnswerOff(m: MsgValue): nat
  {
    HeaderSize + |QuestionPart(m).bytes|
  }

  /** The three record sections in the order `Pack` writes them. */
  function RecordSections(m: MsgValue): (ss: seq<seq<Record>>)
    ensures |ss| == 3
  {
    [m.answer, m.ns, m.extra]
  }

  /** What the sections `ss` are written as from `off` on, each record
      laid out by `layout`: each section's layout at the offset and with
      the map the sections before it leave. */
  function SectionsLayout(layout: (Record, nat, CompMap) -> Layout, ss: seq<seq<Record>>, off: nat, comp: CompMap): (l: Layout)
    ensures ss == [] ==> l == Layout([], comp)
    decreases |ss|
  {
    if ss == [] then Layout([], comp)
    else
      var h := ChainLayout(layout, ss[0], off, comp);
      var t := SectionsLayout(layout, ss[1..], off + |h.bytes|, h.comp);
      Layout(h.bytes + t.bytes, t.comp)
  }

  /** Every record of every section satisfies `ok` where it is laid out. */
  predicate SectionsOk(ok: (Record, nat, CompMap) -> bool, layout: (Record, nat, CompMap) -> Layout,
                       ss: seq<seq<Record>>, off: nat, comp: CompMap)
    decreases |ss|
  {
    ss == [] ||
    (ChainOk(ok, layout, ss[0], off, comp) &&
     SectionsOk(ok, layout, ss[1..], off + |ChainLayout(layout, ss[0], off, comp).bytes|,
                ChainLayout(layout, ss[0], off, comp).comp))
  }

  /** The record sections, through the map the questions left. */
  function RecordsPart(m: MsgValue): Layout
  {
    SectionsLayout(RecordLayout, RecordSections(m), AnswerOff(m), QuestionPart(m).comp)
  }

  /** Where the message ends. */
  function MsgEnd(m: MsgValue): nat
  {
    AnswerOff(m) + |RecordsPart(m).bytes|
  }

  /** The header's twelve bytes. */
  function HeaderBytes(m: MsgValue): (x: seq<byte>)
    ensures |x| == HeaderSize
  {
    Be16s(Words(HeaderOf(m)))
  }

  /** The bytes of a packed message: the header, the questions' layout,
      then the record sections' layout. */
  function MsgBytes(m: MsgValue): (x: seq<byte>)
    ensures |x| == MsgEnd(m)
  {
    HeaderBytes(m) + QuestionPart(m).bytes + RecordsPart(m).bytes
  }

  /** The messages that survive `Pack` and `Unpack`: Opcode and Rcode fit
      their fields, every count fits its 16-bit word, every question and
      record reads back where it is written, and the whole message stays
      within the offsets a pointer can reach. */
  predicate MsgRoundTrips(m: MsgValue)
  {
    && 0 <= m.hdr.opcode < 16 && 0 <= m.hdr.rcode < 16
    && |m.question| < 0x1_0000 && |m.answer| < 0x1_0000 && |m.ns| < 0x1_0000 && |m.extra| < 0x1_0000
    && ChainOk(QuestionOk, QuestionLayout, m.question, HeaderSize, map[])
    && SectionsOk(RecordRoundTrips, RecordLayout, RecordSections(m), AnswerOff(m), QuestionPart(m).comp)
    && MsgEnd(m) <= 0x1_0000
  }

  // ---------------------------------------------------------------------
  // Packing

  /** The packet `r` is the bytes `x` written at `off` into `b`: it
      succeeds exactly when they fit, and then holds the buffer up to
      their end. */
  predicate PacketWrites(r: Packet, b: seq<byte>, off: nat, x: seq<byte>)
  {
    && (r.status.Ok? <==> off + |x| <= |b|)
    && (r.status.Ok? ==> off + |x| <= |b| && r.bytes == PutBytes(b, off, x)[..off + |x|])
  }

  /** The end of `Pack`: an error is returned with no bytes, an offset
      past the buffer is the slice-bounds panic, and otherwise the buffer
      up to the offset is returned. */
  function Finish(e: Packed): Packet
  {
    if e.status.Fail? then Packet([], e.status)
    else if e.off < 0 || e.off > |e.buf| then Packet([], Fail(IndexOutOfRange))
    else Packet(e.buf[..e.off], Ok)
  }

  /** The record sections `ss`, each packed by `pack`, one after the
      other, through one buffer and map, stopping at the first failure. */
  function PackAll(pack: (seq<Record>, seq<byte>, nat, CompMap) -> Packed, ss: seq<seq<Record>>,
                   b: seq<byte>, off: nat, comp: CompMap): Packed
    decreases |ss|
  {
    if ss == [] then Packed(b, off, comp, Ok)
    else
      var p := pack(ss[0], b, off, comp);
      if p.status.Fail? || p.off < 0 then p else PackAll(pack, ss[1..], p.buf, p.off, p.comp)
  }

  /** PackRecords is PackAll of `packRRSlice` over the answer, authority
      and additional sections, then the end. */
  lemma PackRecordsAll(answer: seq<Record>, ns: seq<Record>, extra: seq<Record>, b: seq<byte>, off: nat, comp: CompMap)
    ensures PackRecords(answer, ns, extra, b, off, comp) == Finish(PackAll(PackSection, [answer, ns, extra], b, off, comp))
  {
    PackAllThree(PackSection, answer, ns, extra, b, off, comp);
  }

  /** PackAll over three sections, written out turn by turn. */
  lemma PackAllThree(pack: (seq<Record>, seq<byte>, nat, CompMap) -> Packed, s1: seq<Record>, s2: seq<Record>, s3: seq<Record>,
                     b: seq<byte>, off: nat, comp: CompMap)
    ensures var a := pack(s1, b, off, comp);
      Finish(PackAll(pack, [s1, s2, s3], b, off, comp)) ==
        if a.status.Fail? || a.off < 0 then Finish(a)
        else
          var n := pack(s2, a.buf, a.off, a.comp);
          if n.status.Fail? || n.off < 0 then Finish(n)
          else Finish(pack(s3, n.buf, n.off, n.comp))
  {
    var a := pack(s1, b, off, comp);
    assert [s1, s2, s3][1..] == [s2, s3];
    if a.status.Ok? && a.off >= 0 {
      var n := pack(s2, a.buf, a.off, a.comp);
      assert [s2, s3][1..] == [s3];
      if n.status.Ok? && n.off >= 0 {
        var e := pack(s3, n.buf, n.off, n.comp);
        assert [s3][1..] == [];
        assert PackAll(pack, [s3], n.buf, n.off, n.comp) ==
          if e.status.Fail? || e.off < 0 then e else PackAll(pack, [], e.buf, e.off, e.comp);
      }
    }
  }

  /** A last writer that writes `l` ends in a packet of `l`'s bytes. */
  lemma FinishWrites(e: Packed, b: seq<byte>, off: nat, l: Layout)
    requires WritesAs(e, b, off, l)
    ensures PacketWrites(Finish(e), b, off, l.bytes)
  {
    if e.status.Ok? {
      PutBytesFrame(b, off, l.bytes);
    }
  }

  /** A writer that ends with status `st` and buffer `b1`, having written
      `x` at `off` exactly when it fits, followed, when it succeeds, by a
      packet `r2` of `y` written just after `x`: together a packet of
      `x + y`. */
  lemma PacketThen(st: Status, b1: seq<byte>, b: seq<byte>, off: nat, x: seq<byte>, r2: Packet, y: seq<byte>)
    requires st.Ok? <==> off + |x| <= |b|
    requires st.Ok? ==> b1 == PutBytes(b, off, x) && PacketWrites(r2, b1, off + |x|, y)
    ensures PacketWrites(if st.Fail? then Packet([], st) else r2, b, off, x + y)
  {
    if st.Ok? && off + |x| + |y| <= |b| {
      PutBytesAppend(b, off, x, y);
      PutBytesFrame(b, off, x + y);
      PutBytesFrame(b1, off + |x|, y);
      assert PutBytes(b, off, x + y)[..off + |x + y|] == PutBytes(b, off, x + y)[..off] + (x + y);
      assert PutBytes(b1, off + |x|, y)[..off + |x| + |y|] == PutBytes(b1, off + |x|, y)[..off + |x|] + y;
      assert PutBytes(b1, off + |x|, y)[..off + |x|] == b1[..off + |x|];
      assert b1[..off + |x|] == PutBytes(b, off, x)[..off + |x|] == b[..off] + x;
      assert PutBytes(b, off, x + y)[..off] == b[..off];
    }
  }

  /** `pack` writes the section `rs` as its layout from `o` on, when its
      records satisfy `ok`. */
  ghost predicate WritesLaid(pack: (seq<Record>, seq<byte>, nat, CompMap) -> Packed, layout: (Record, nat, CompMap) -> Layout,
                             ok: (Record, nat, CompMap) -> bool, rs: seq<Record>, b: seq<byte>, o: nat, c: CompMap)
  {
    ChainOk(ok, layout, rs, o, c) && o <= |b| ==> WritesAs(pack(rs, b, o, c), b, o, ChainLayout(layout, rs, o, c))
  }

  /** When `pack` writes every section as WritesLaid says, PackAll writes
      the sections' layout: it succeeds exactly when it fits. */
  lemma {:induction false} PackAllWrites(pack: (seq<Record>, seq<byte>, nat, CompMap) -> Packed, layout: (Record, nat, CompMap) -> Layout,
                                         ok: (Record, nat, CompMap) -> bool, ss: seq<seq<Record>>, b: seq<byte>, off: nat, comp: CompMap)
    requires forall rs, b', o, c :: WritesLaid(pack, layout, ok, rs, b', o, c)
    requires off <= |b| && SectionsOk(ok, layout, ss, off, comp)
    ensures WritesAs(PackAll(pack, ss, b, off, comp), b, off, SectionsLayout(layout, ss, off, comp))
    decreases |ss|
  {
    if ss == [] {
      assert b[..off] + [] + b[off..] == b;
    } else {
      var h := ChainLayout(layout, ss[0], off, comp);
      var p := pack(ss[0], b, off, comp);
      assert WritesLaid(pack, layout, ok, ss[0], b, off, comp);
      if p.status.Ok? {
        PackAllWrites(pack, layout, ok, ss[1..], p.buf, off + |h.bytes|, h.comp);
      }
      WriteChain(b, off, h, SectionsLayout(layout, ss[1..], off + |h.bytes|, h.comp), p,
                 PackAll(pack, ss[1..], p.buf, off + |h.bytes|, h.comp), PackAll(pack, ss, b, off, comp),
                 off + |h.bytes|);
    }
  }

  /** `packRRSlice` writes every section of records that read back as its
      layout. */
  lemma SectionsWriteLaid()
    ensures forall rs, b, o, c :: WritesLaid(PackSection, RecordLayout, RecordRoundTrips, rs, b, o, c)
  {
    forall rs, b, o: nat, c
      ensures WritesLaid(PackSection, RecordLayout, RecordRoundTrips, rs, b, o, c)
    {
      if ChainOk(RecordRoundTrips, RecordLayout, rs, o, c) && o <= |b| {
        SectionWrites(rs, b, o, c);
      }
    }
  }

  /** The three sections after the questions are written as a packet of
      their layout's bytes. */
  lemma RecordsWrite(answer: seq<Record>, ns: seq<Record>, extra: seq<Record>, b: seq<byte>, off: nat, comp: CompMap)
    requires off <= |b| && SectionsOk(RecordRoundTrips, RecordLayout, [answer, ns, extra], off, comp)
    ensures PacketWrites(PackRecords(answer, ns, extra, b, off, comp), b, off,
                         SectionsLayout(RecordLayout, [answer, ns, extra], off, comp).bytes)
  {
    PackRecordsAll(answer, ns, extra, b, off, comp);
    SectionsWriteLaid();
    PackAllWrites(PackSection, RecordLayout, RecordRoundTrips, [answer, ns, extra], b, off, comp);
    FinishWrites(PackAll(PackSection, [answer, ns, extra], b, off, comp), b, off,
                 SectionsLayout(RecordLayout, [answer, ns, extra], off, comp));
  }

  /** The bytes after the header. */
  function BodyBytes(m: MsgValue): seq<byte>
  {
    QuestionPart(m).bytes + RecordsPart(m).bytes
  }

  /** The questions and the three sections of such a message are written
      after the header as a packet of their bytes. */
  lemma BodyWrites(m: MsgValue, b: seq<byte>)
    requires MsgRoundTrips(m) && HeaderSize <= |b|
    ensures PacketWrites(PackBody(m.question, m.answer, m.ns, m.extra, b, HeaderSize), b, HeaderSize, BodyBytes(m))
  {
    var q := QuestionPart(m);
    var pq := QuestionsPack(m.question, b, HeaderSize, map[]);
    QuestionsWrites(m.question, b, HeaderSize, map[]);
    var r2 := Packet([], pq.status);
    if pq.status.Ok? {
      RecordsWrite(m.answer, m.ns, m.extra, pq.buf, AnswerOff(m), q.comp);
      r2 := PackRecords(m.answer, m.ns, m.extra, pq.buf, pq.off, pq.comp);
    }
    PacketThen(pq.status, pq.buf, b, HeaderSize, q.bytes, r2, RecordsPart(m).bytes);
  }

  /** The header and the body are the message's bytes. */
  lemma MsgBytesSplit(m: MsgValue)
    ensures HeaderBytes(m) + BodyBytes(m) == MsgBytes(m)
  {
  }

  /** `Pack` of such a message is a packet of its bytes written into
      `size` zero bytes. */
  lemma MsgWrites(m: MsgValue, size: nat)
    requires MsgRoundTrips(m)
    ensures PacketWrites(PackMsg(m, size), Zeros(size), 0, MsgBytes(m))
  {
    var z := Zeros(size);
    var h := WordsWrite(Words(HeaderOf(m)), z, 0);
    WordsWrites(Words(HeaderOf(m)), z, 0);
    MsgBytesSplit(m);
    var r2 := Packet([], h.status);
    if h.status.Ok? {
      BodyWrites(m, h.buf);
      r2 := PackBody(m.question, m.answer, m.ns, m.extra, h.buf, h.off);
    }
    PacketThen(h.status, h.buf, z, 0, HeaderBytes(m), r2, BodyBytes(m));
  }

  /** A packet of `x` written at the start of `b` succeeds exactly when
      `x` fits, and then holds exactly `x`. */
  lemma PacketFromStart(r: Packet, b: seq<byte>, x: seq<byte>)
    requires PacketWrites(r, b, 0, x)
    ensures r.status.Ok? <==> |x| <= |b|
    ensures r.status.Ok? ==> r.bytes == x
  {
    if r.status.Ok? {
      PutBytesFrame(b, 0, x);
    }
  }

  /** `Pack` of such a message succeeds exactly when the buffer it is
      given holds the whole message, and then returns the header followed
      by the questions' and the sections' layouts. */
  lemma MsgPacks(m: MsgValue, size: nat)
    requires MsgRoundTrips(m)
    ensures PackMsg(m, size).status.Ok? <==> MsgEnd(m) <= size
    ensures PackMsg(m, size).status.Ok? ==> PackMsg(m, size).bytes == MsgBytes(m)
  {
    MsgWrites(m, size);
    PacketFromStart(PackMsg(m, size), Zeros(size), MsgBytes(m));
  }

  // ---------------------------------------------------------------------
  // Unpacking

  /** Three parts laid one after the other, each found at its own offset. */
  lemma HoldsParts(all: seq<byte>, x1: seq<byte>, x2: seq<byte>, x3: seq<byte>)
    requires all == x1 + x2 + x3
    ensures HoldsAt(all, 0, x1) && HoldsAt(all, |x1|, x2) && HoldsAt(all, |x1| + |x2|, x3)
  {
    assert all[..|x1|] == x1;
    assert all[|x1|..|x1| + |x2|] == x2;
    assert all[|x1| + |x2|..|x1| + |x2| + |x3|] == x3;
  }

  /** Each part of a message's bytes is found at its own offset. */
  lemma MsgParts(m: MsgValue)
    ensures var all := MsgBytes(m);
      && HoldsAt(all, 0, HeaderBytes(m)) && HoldsAt(all, HeaderSize, QuestionPart(m).bytes)
      && HoldsAt(all, AnswerOff(m), RecordsPart(m).bytes)
  {
    HoldsParts(MsgBytes(m), HeaderBytes(m), QuestionPart(m).bytes, RecordsPart(m).bytes);
  }

  /** Sections of `counts[i]` records each, read by `read` one after the
      other from `off` on, stopping at the first failure, whose records are
      the last item. */
  function ReadAll(read: (seq<byte>, nat, nat) -> Decoded<seq<Record>>, data: seq<byte>, off: nat, counts: seq<nat>)
    : Decoded<seq<seq<Record>>>
    decreases |counts|
  {
    if counts == [] then Decoded([], off, Ok)
    else
      var s := read(data, off, counts[0]);
      if s.status.Fail? then Decoded([s.val], s.off, s.status)
      else if s.off < 0 then Decoded([s.val], s.off, Fail(IndexOutOfRange))
      else
        var t := ReadAll(read, data, s.off, counts[1..]);
        Decoded([s.val] + t.val, t.off, t.status)
  }

  /** The number of records in each section. */
  function Counts(ss: seq<seq<Record>>): (c: seq<nat>)
    ensures |c| == |ss| && forall i :: 0 <= i < |ss| ==> c[i] == |ss[i]|
  {
    seq(|ss|, i requires 0 <= i < |ss| => |ss[i]|)
  }

  /** The section `rs` is laid out at `o` in `data` as its layout: its
      records satisfy `ok`, the map is sound for the bytes before it and it
      ends within 16-bit offsets. */
  ghost predicate SectionFits(layout: (Record, nat, CompMap) -> Layout, ok: (Record, nat, CompMap) -> bool,
                              data: seq<byte>, rs: seq<Record>, o: nat, c: CompMap)
  {
    var l := ChainLayout(layout, rs, o, c);
    ChainOk(ok, layout, rs, o, c) && HoldsAt(data, o, l.bytes) && MapValid(data[..o], c) && o + |l.bytes| <= 0x1_0000
  }

  /** `read` reads such a section back, ending just past it. */
  ghost predicate ReadsLaid(read: (seq<byte>, nat, nat) -> Decoded<seq<Record>>, layout: (Record, nat, CompMap) -> Layout,
                            ok: (Record, nat, CompMap) -> bool, data: seq<byte>, rs: seq<Record>, o: nat, c: CompMap)
  {
    SectionFits(layout, ok, data, rs, o, c) ==>
      read(data, o, |rs|) == Decoded(rs, o + |ChainLayout(layout, rs, o, c).bytes|, Ok)
  }

  /** The map such a section leaves is sound for the bytes up to its end. */
  ghost predicate KeepsLaid(layout: (Record, nat, CompMap) -> Layout, ok: (Record, nat, CompMap) -> bool,
                            data: seq<byte>, rs: seq<Record>, o: nat, c: CompMap)
  {
    var l := ChainLayout(layout, rs, o, c);
    SectionFits(layout, ok, data, rs, o, c) ==> MapValid(data[..o + |l.bytes|], l.comp)
  }

  /** When `read` reads every section back as ReadsLaid says, the
      sections' layout found at `off`, in a buffer whose bytes before
      `off` the map is sound for, reads back through ReadAll as the same
      sections, ending just past it. */
  lemma {:induction false} ReadAllBack(read: (seq<byte>, nat, nat) -> Decoded<seq<Record>>, layout: (Record, nat, CompMap) -> Layout,
                                       ok: (Record, nat, CompMap) -> bool, ss: seq<seq<Record>>, data: seq<byte>, off: nat, comp: CompMap)
    requires forall rs, o, c :: ReadsLaid(read, layout, ok, data, rs, o, c)
    requires forall rs, o, c :: KeepsLaid(layout, ok, data, rs, o, c)
    requires SectionsOk(ok, layout, ss, off, comp) && HoldsAt(data, off, SectionsLayout(layout, ss, off, comp).bytes)
    requires MapValid(data[..off], comp) && off + |SectionsLayout(layout, ss, off, comp).bytes| <= 0x1_0000
    ensures ReadAll(read, data, off, Counts(ss)) == Decoded(ss, off + |SectionsLayout(layout, ss, off, comp).bytes|, Ok)
    decreases |ss|
  {
    if ss != [] {
      var h := ChainLayout(layout, ss[0], off, comp);
      var t := SectionsLayout(layout, ss[1..], off + |h.bytes|, h.comp);
      ReadAllHead(read, layout, ok, ss, data, off, comp, h, t);
      ReadAllBack(read, layout, ok, ss[1..], data, off + |h.bytes|, h.comp);
      CountsTail(ss);
      ReadAllStep(read, data, off, Counts(ss), ss[0], off + |h.bytes|);
      assert [ss[0]] + ss[1..] == ss;
    }
  }

  /** The counts of the sections after the first are the counts after the
      first count. */
  lemma CountsTail(ss: seq<seq<Record>>)
    requires ss != []
    ensures Counts(ss)[0] == |ss[0]| && Counts(ss)[1..] == Counts(ss[1..])
  {
  }

  /** A section read back up to `end` is the first of what ReadAll reads,
      which goes on from `end`. */
  lemma ReadAllStep(read: (seq<byte>, nat, nat) -> Decoded<seq<Record>>, data: seq<byte>, off: nat, counts: seq<nat>,
                    v: seq<Record>, end: nat)
    requires counts != [] && read(data, off, counts[0]) == Decoded(v, end, Ok)
    ensures var t := ReadAll(read, data, end, counts[1..]);
      ReadAll(read, data, off, counts) == Decoded([v] + t.val, t.off, t.status)
  {
  }

  /** The first of the sections reads back, and the rest are laid out
      after it as ReadAllBack needs. */
  lemma ReadAllHead(read: (seq<byte>, nat, nat) -> Decoded<seq<Record>>, layout: (Record, nat, CompMap) -> Layout,
                    ok: (Record, nat, CompMap) -> bool, ss: seq<seq<Record>>, data: seq<byte>, off: nat, comp: CompMap,
                    h: Layout, t: Layout)
    requires forall rs, o, c :: ReadsLaid(read, layout, ok, data, rs, o, c)
    requires forall rs, o, c :: KeepsLaid(layout, ok, data, rs, o, c)
    requires ss != [] && SectionsOk(ok, layout, ss, off, comp) && HoldsAt(data, off, SectionsLayout(layout, ss, off, comp).bytes)
    requires MapValid(data[..off], comp) && off + |SectionsLayout(layout, ss, off, comp).bytes| <= 0x1_0000
    requires h == ChainLayout(layout, ss[0], off, comp) && t == SectionsLayout(layout, ss[1..], off + |h.bytes|, h.comp)
    ensures read(data, off, |ss[0]|) == Decoded(ss[0], off + |h.bytes|, Ok)
    ensures SectionsOk(ok, layout, ss[1..], off + |h.bytes|, h.comp) && HoldsAt(data, off + |h.bytes|, t.bytes)
    ensures MapValid(data[..off + |h.bytes|], h.comp) && off + |h.bytes| + |t.bytes| <= 0x1_0000
    ensures SectionsLayout(layout, ss, off, comp) == Layout(h.bytes + t.bytes, t.comp)
  {
    HoldsSplit(data, off, h.bytes, t.bytes);
    assert SectionFits(layout, ok, data, ss[0], off, comp);
    assert ReadsLaid(read, layout, ok, data, ss[0], off, comp);
    assert KeepsLaid(layout, ok, data, ss[0], off, comp);
  }

  /** `unpackRRSlice` reads every section of records that read back as its
      layout, and such sections leave maps sound for the bytes up to their
      end. */
  lemma SectionsReadLaid(data: seq<byte>)
    ensures forall rs, o, c :: ReadsLaid(SectionFrom, RecordLayout, RecordRoundTrips, data, rs, o, c)
    ensures forall rs, o, c :: KeepsLaid(RecordLayout, RecordRoundTrips, data, rs, o, c)
  {
    forall rs, o: nat, c
      ensures ReadsLaid(SectionFrom, RecordLayout, RecordRoundTrips, data, rs, o, c)
    {
      SectionReadsLaid(data, rs, o, c);
    }
    forall rs, o: nat, c
      ensures KeepsLaid(RecordLayout, RecordRoundTrips, data, rs, o, c)
    {
      SectionKeepsLaid(data, rs, o, c);
    }
  }

  /** `unpackRRSlice` reads one such section back. */
  lemma SectionReadsLaid(data: seq<byte>, rs: seq<Record>, o: nat, c: CompMap)
    ensures ReadsLaid(SectionFrom, RecordLayout, RecordRoundTrips, data, rs, o, c)
  {
    if SectionFits(RecordLayout, RecordRoundTrips, data, rs, o, c) {
      SectionReads(rs, data, o, c);
    }
  }

  /** One such section leaves a map sound for the bytes up to its end. */
  lemma SectionKeepsLaid(data: seq<byte>, rs: seq<Record>, o: nat, c: CompMap)
    ensures KeepsLaid(RecordLayout, RecordRoundTrips, data, rs, o, c)
  {
    RecordsKeepBack(data);
    KeepsLaidFrom(RecordLayout, RecordRoundTrips, data, rs, o, c);
  }

  /** When every item leaves a map as KeepsBack says, so does every
      section of them. */
  lemma KeepsLaidFrom(layout: (Record, nat, CompMap) -> Layout, ok: (Record, nat, CompMap) -> bool,
                      data: seq<byte>, rs: seq<Record>, o: nat, c: CompMap)
    requires forall r, o', c' :: KeepsBack(layout, ok, data, r, o', c')
    ensures KeepsLaid(layout, ok, data, rs, o, c)
  {
    if SectionFits(layout, ok, data, rs, o, c) {
      ChainKeeps(layout, ok, data, rs, o, c);
    }
  }

  /** When ReadAll of `unpackRRSlice` reads three sections without error,
      UnpackRecords sets the answer, authority and additional sections to
      them. */
  lemma UnpackRecordsAll(m1: MsgValue, data: seq<byte>, off: nat, h: Header, ss: seq<seq<Record>>, end: int)
    requires ReadAll(SectionFrom, data, off, [h.ancount, h.nscount, h.arcount]) == Decoded(ss, end, Ok)
    ensures |ss| == 3
    ensures UnpackRecords(m1, data, off, h) == Unpacked(m1.(answer := ss[0], ns := ss[1], extra := ss[2]), Ok)
  {
    ReadAllThree(SectionFrom, data, off, h.ancount, h.nscount, h.arcount, ss, end);
  }

  /** ReadAll of three sections that ends without error, written out
      read by read. */
  lemma ReadAllThree(read: (seq<byte>, nat, nat) -> Decoded<seq<Record>>, data: seq<byte>, off: nat,
                     c1: nat, c2: nat, c3: nat, ss: seq<seq<Record>>, end: int)
    requires ReadAll(read, data, off, [c1, c2, c3]) == Decoded(ss, end, Ok)
    ensures |ss| == 3
    ensures var a := read(data, off, c1);
      && a.status.Ok? && a.off >= 0 && a.val == ss[0]
      && var n := read(data, a.off, c2);
      && n.status.Ok? && n.off >= 0 && n.val == ss[1]
      && var e := read(data, n.off, c3);
      && e.status.Ok? && e.val == ss[2]
  {
    var a := read(data, off, c1);
    assert [c1, c2, c3][1..] == [c2, c3];
    assert a.status.Ok? && a.off >= 0;
    var r1 := ReadAll(read, data, a.off, [c2, c3]);
    assert ss == [a.val] + r1.val && r1.status.Ok?;
    var n := read(data, a.off, c2);
    assert [c2, c3][1..] == [c3];
    assert n.status.Ok? && n.off >= 0;
    var r2 := ReadAll(read, data, n.off, [c3]);
    assert r1.val == [n.val] + r2.val && r2.status.Ok?;
    var e := read(data, n.off, c3);
    assert [c3][1..] == [];
    assert e.status.Ok? && e.off >= 0;
    assert ReadAll(read, data, e.off, []) == Decoded([], e.off, Ok);
    assert r2.val == [e.val] + [];
    assert ss == [a.val, n.val, e.val];
  }

  /** The header announces each section's length, when it fits its
      16-bit count. */
  lemma HeaderCounts(m: MsgValue)
    requires |m.question| < 0x1_0000 && |m.answer| < 0x1_0000 && |m.ns| < 0x1_0000 && |m.extra| < 0x1_0000
    ensures HeaderOf(m).qdcount == |m.question|
    ensures Counts(RecordSections(m)) == [HeaderOf(m).ancount, HeaderOf(m).nscount, HeaderOf(m).arcount]
  {
  }

  /** The three record sections of such a message, read from its bytes
      after the questions, come back as they were. */
  lemma SectionsRead(m: MsgValue, m1: MsgValue)
    requires MsgRoundTrips(m)
    requires MapValid(MsgBytes(m)[..AnswerOff(m)], QuestionPart(m).comp)
    ensures UnpackRecords(m1, MsgBytes(m), AnswerOff(m), HeaderOf(m)) ==
      Unpacked(m1.(answer := m.answer, ns := m.ns, extra := m.extra), Ok)
  {
    var h := HeaderOf(m);
    MsgParts(m);
    SectionsReadLaid(MsgBytes(m));
    ReadAllBack(SectionFrom, RecordLayout, RecordRoundTrips, RecordSections(m), MsgBytes(m), AnswerOff(m), QuestionPart(m).comp);
    HeaderCounts(m);
    UnpackRecordsAll(m1, MsgBytes(m), AnswerOff(m), h, RecordSections(m), MsgEnd(m));
  }

  /** The question section of such a message, read from its bytes after
      the header, comes back as it was, and the map the questions leave is
      sound for the bytes before the answers. */
  lemma QuestionsRead(m: MsgValue)
    requires MsgRoundTrips(m)
    ensures QuestionsFrom(MsgBytes(m), HeaderSize, |m.question|) == Decoded(m.question, AnswerOff(m), Ok)
    ensures MapValid(MsgBytes(m)[..AnswerOff(m)], QuestionPart(m).comp)
  {
    MsgParts(m);
    EmptyMapValid(MsgBytes(m)[..HeaderSize]);
    QuestionsReads(m.question, MsgBytes(m), HeaderSize, map[]);
  }

  /** The header of such a message, read from its bytes, comes back, and
      its flag word sets the header fields as they were, but for Zero. */
  lemma HeaderBack(m: MsgValue, m0: MsgValue)
    requires MsgRoundTrips(m)
    ensures HeaderRead(MsgBytes(m), 0) == Decoded(HeaderOf(m), HeaderSize, Ok)
    ensures FlagsInto(m0.hdr, HeaderOf(m).id, HeaderOf(m).bits as bv16) == m.hdr.(zero := m0.hdr.zero)
  {
    MsgParts(m);
    HeaderAtReads(HeaderOf(m), MsgBytes(m), 0);
    FlagsRoundTripInRange(m.hdr, m0.hdr);
  }

  /** `Unpack` of such a message's bytes into any message `m0` gives back
      the header fields (Zero stays `m0`'s own), `m0`'s questions followed
      by the message's, and the message's three record sections. */
  lemma MsgUnpacks(m: MsgValue, m0: MsgValue)
    requires MsgRoundTrips(m)
    ensures UnpackMsg(m0, MsgBytes(m)) ==
      Unpacked(MsgValue(m.hdr.(zero := m0.hdr.zero), m0.question + m.question, m.answer, m.ns, m.extra), Ok)
  {
    HeaderCounts(m);
    HeaderBack(m, m0);
    var m1 := m0.(hdr := m.hdr.(zero := m0.hdr.zero));
    QuestionsRead(m);
    SectionsRead(m, m1.(question := m1.question + m.question));
  }

  /** Round trip of a message: packing such a message into a buffer that
      holds it succeeds, and unpacking the bytes into any message `m0`
      gives the message back, with `m0`'s Zero flag and `m0`'s questions
      ahead of its own. */
  lemma MsgRoundTrip(m: MsgValue, size: nat, m0: MsgValue)
    requires MsgRoundTrips(m) && MsgEnd(m) <= size
    ensures PackMsg(m, size).status.Ok?
    ensures UnpackMsg(m0, PackMsg(m, size).bytes) ==
      Unpacked(MsgValue(m.hdr.(zero := m0.hdr.zero), m0.question + m.question, m.answer, m.ns, m.extra), Ok)
  {
    MsgPacks(m, size);
    MsgUnpacks(m, m0);
  }
}
