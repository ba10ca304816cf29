/** Domain names on the wire: the compressing encoder `packDomainName`, the
    pointer-following decoder `unpackDomainName`, and `isRootLabel`. */
module DomainName {
  import opened Types
  import opened MsgHelper

  /** The per-message compression map: a name suffix (with its trailing
      dot) to the 16-bit offset where it was first written. */
  type CompMap = map<Text, u16>

  /** A label on the wire: its length byte (Go's `byte(labelLen)`, which
      keeps the low eight bits) followed by its bytes. */
  function LabelBytes(l: Text): (r: seq<byte>)
    ensures |r| == 1 + |l| && r[0] == |l| % 0x100 && r[1..] == l
  {
    var n: byte := |l| % 0x100;
    [n] + l
  }

  /** Labels on the wire, one after the other. */
  function Wire(labels: seq<Text>): seq<byte>
    decreases |labels|
  {
    if labels == [] then [] else LabelBytes(labels[0]) + Wire(labels[1..])
  }

  /** The first label on the wire and then the others. */
  lemma WireCons(l: Text, rest: seq<Text>)
    ensures Wire([l] + rest) == LabelBytes(l) + Wire(rest)
  {
    assert ([l] + rest)[1..] == rest;
  }

  /** Two runs of labels on the wire are their wire forms one after the
      other. */
  lemma {:induction false} WireAppend(a: seq<Text>, b: seq<Text>)
    ensures Wire(a + b) == Wire(a) + Wire(b)
    decreases |a|
  {
    if a == [] {
      assert a + b == b;
    } else {
      assert a + b == [a[0]] + (a[1..] + b);
      WireCons(a[0], a[1..] + b);
      WireAppend(a[1..], b);
      WireCons(a[0], a[1..]);
      assert [a[0]] + a[1..] == a;
    }
  }

  /** The dotted text of labels: each label followed by a '.'. */
  function Join(labels: seq<Text>): Text
    decreases |labels|
  {
    if labels == [] then [] else labels[0] + [Dot] + Join(labels[1..])
  }

  /** The text of two runs of labels is their texts one after the other. */
  lemma {:induction false} JoinAppend(a: seq<Text>, b: seq<Text>)
    ensures Join(a + b) == Join(a) + Join(b)
    decreases |a|
  {
    if a == [] {
      assert a + b == b;
    } else {
      assert (a + b)[0] == a[0] && (a + b)[1..] == a[1..] + b;
      JoinAppend(a[1..], b);
    }
  }

  /** Labels the decoder reads back as written: each non-empty and
      shorter than 64 bytes, so that its length byte has top bits 00. */
  predicate ValidLabels(labels: seq<Text>)
    decreases |labels|
  {
    labels == [] || (0 < |labels[0]| < 64 && ValidLabels(labels[1..]))
  }

  /** Both parts of valid labels are valid. */
  lemma {:induction false} ValidSplit(a: seq<Text>, b: seq<Text>)
    requires ValidLabels(a + b)
    ensures ValidLabels(a) && ValidLabels(b)
    decreases |a|
  {
    if a == [] {
      assert a + b == b;
    } else {
      assert (a + b)[0] == a[0] && (a + b)[1..] == a[1..] + b;
      ValidSplit(a[1..], b);
    }
  }

  /** No '.' in `name[begin..i]`. */
  predicate NoDot(name: Text, begin: nat, i: nat)
    requires begin <= i <= |name|
  {
    forall k :: begin <= k < i ==> name[k] != Dot
  }

  /** Position of the first '.' at or after `j`, or `|name|` when there is
      none. */
  function DotFrom(name: Text, j: nat): (d: nat)
    requires j <= |name|
    ensures j <= d <= |name| && (d < |name| ==> name[d] == Dot)
    decreases |name| - j
  {
    if j == |name| || name[j] == Dot then j else DotFrom(name, j + 1)
  }

  /** DotFrom finds the first '.': one at `i` with none before it from `j`
      on is the one found. */
  lemma {:induction false} DotFromIs(name: Text, j: nat, i: nat)
    requires j <= i <= |name| && NoDot(name, j, i) && (i < |name| ==> name[i] == Dot)
    ensures DotFrom(name, j) == i
    decreases i - j
  {
    if j < i {
      DotFromIs(name, j + 1, i);
    }
  }

  /** `isRootLabel`: the part of `s` from `off` to `end` is exactly ".". */
  function IsRootLabel(s: Text, off: nat, end: nat): (r: bool)
    requires off <= end <= |s|
    ensures r <==> end == off + 1 && s[off] == Dot
  {
    s[off..end] == Root
  }

  /** `isRootLabel(name, j, len(name))`: the name from `j` on is ".". */
  predicate RootAt(name: Text, j: nat)
  {
    j + 1 == |name| && name[j] == Dot
  }

  /** The label loop finds the suffix starting at `j` in the map (the root
      suffix is never looked up). */
  predicate Hit(name: Text, j: nat, comp: CompMap)
    requires j <= |name|
  {
    !RootAt(name, j) && name[j..] in comp
  }

  /** The map after the label loop passes the suffix starting at `j`
      without finding it: the suffix is recorded under the offset `off`
      truncated to 16 bits (Go's `uint16(off)`), unless it is the root. */
  function Recorded(name: Text, j: nat, off: nat, comp: CompMap): CompMap
    requires j <= |name|
  {
    if !RootAt(name, j) then comp[name[j..] := off % 0x1_0000] else comp
  }

  /** The '.'-terminated labels of `name` from `j` on; text after the last
      '.' is not a label. */
  function PlainLabels(name: Text, j: nat): seq<Text>
    requires j <= |name|
    decreases |name| - j
  {
    var d := DotFrom(name, j);
    if d == |name| then [] else [name[j..d]] + PlainLabels(name, d + 1)
  }

  /** Length of the uncompressed encoding of a name: its labels, and a
      zero byte after them unless the name is the root (whose one empty
      label already is a zero byte). */
  function NameLen(name: Text): nat
  {
    |Wire(PlainLabels(name, 0))| + if name == Root then 0 else 1
  }

  /** The two bytes of a compression pointer: `uint16(p | 0xC000)` big-endian. */
  function PointerBytes(p: u16): (r: seq<byte>)
    ensures |r| == 2 && r[0] / 64 == 3 && r[1] == p % 0x100
    ensures p < 0x4000 ==> r == Be16(0xC000 + p)
  {
    [0xC0 + (p / 0x100) % 64, p % 0x100]
  }

  /** Where the label loop of `packDomainName` stops: the labels it wrote,
      the map afterwards, the pointer target found (-1 for none) and the
      position `begin` of the label it stopped at (the suffix found in
      the map starts there). */
  datatype LabelRun = LabelRun(labels: seq<Text>, comp: CompMap, ptr: int, begin: nat)

  /** The label loop of `packDomainName` from position `j` of `name` on,
      with the next label's length byte at `off`: each '.'-terminated label
      is looked up by the suffix `name[j..]` it starts; the first suffix
      found in the map stops the loop with its offset as pointer target;
      otherwise the suffix is recorded at `off` (truncated to 16 bits, and
      not at all when it is the root "."), and the label is written. Text
      after the last '.' is never written. */
  function EncFrom(name: Text, j: nat, off: nat, comp: CompMap): (r: LabelRun)
    requires j <= |name|
    ensures j <= r.begin <= |name|
    ensures r.ptr == -1 || 0 <= r.ptr < 0x1_0000
    decreases |name| - j
  {
    var d := DotFrom(name, j);
    if d == |name| then LabelRun([], comp, -1, j)
    else if Hit(name, j, comp) then
      LabelRun([], comp, comp[name[j..]] as int, j)
    else
      var comp' := Recorded(name, j, off, comp);
      var rest := EncFrom(name, d + 1, off + 1 + (d - j), comp');
      rest.(labels := [name[j..d]] + rest.labels)
  }

  /** One label of the label loop when its suffix is not in the map: the
      label is written, and the loop goes on after its '.' with the suffix
      recorded (unless it is the root). */
  lemma EncStep(name: Text, j: nat, d: nat, off: nat, comp: CompMap, comp': CompMap)
    requires j <= d < |name| && d == DotFrom(name, j)
    requires !Hit(name, j, comp)
    requires comp' == Recorded(name, j, off, comp)
    ensures EncFrom(name, j, off, comp) == Follow([name[j..d]], EncFrom(name, d + 1, off + 1 + (d - j), comp'))
  {
  }

  /** The labels of a name from `j` on: the first, then those after its
      '.'. */
  lemma PlainCons(name: Text, j: nat)
    requires j <= |name| && DotFrom(name, j) < |name|
    ensures PlainLabels(name, j) == [name[j..DotFrom(name, j)]] + PlainLabels(name, DotFrom(name, j) + 1)
  {
  }

  /** The labels written in run `r` from `j`, followed by the labels from
      where it stopped, are all the labels of the name; it stopped before
      the end of the labels exactly when it found a pointer. */
  predicate Splits(name: Text, j: nat, r: LabelRun)
    requires j <= r.begin <= |name|
  {
    PlainLabels(name, j) == r.labels + PlainLabels(name, r.begin) &&
    (r.ptr == -1 <==> PlainLabels(name, r.begin) == [])
  }

  /** The label loop writes the labels of the name in order up to the
      suffix it found in the map, and all of them when it found none. */
  lemma {:induction false} RunSplit(name: Text, j: nat, off: nat, comp: CompMap)
    requires j <= |name|
    ensures Splits(name, j, EncFrom(name, j, off, comp))
    decreases |name| - j, 1
  {
    if DotFrom(name, j) == |name| || Hit(name, j, comp) {
      RunStops(name, j, off, comp);
    } else {
      SplitStep(name, j, off, comp);
    }
  }

  /** A label written: the split follows from the split of the rest of
      the loop. */
  lemma {:induction false} SplitStep(name: Text, j: nat, off: nat, comp: CompMap)
    requires j <= |name| && DotFrom(name, j) < |name| && !Hit(name, j, comp)
    ensures Splits(name, j, EncFrom(name, j, off, comp))
    decreases |name| - j, 0
  {
    var d := DotFrom(name, j);
    var comp' := Recorded(name, j, off, comp);
    RunSplit(name, d + 1, off + 1 + (d - j), comp');
    RunNext(name, j, d, EncFrom(name, d + 1, off + 1 + (d - j), comp'));
    EncStep(name, j, d, off, comp, comp');
  }

  /** Where the loop stops at `j`, at the end of the name or at a map
      hit, nothing is written. */
  lemma RunStops(name: Text, j: nat, off: nat, comp: CompMap)
    requires j <= |name|
    requires DotFrom(name, j) == |name| || Hit(name, j, comp)
    ensures Splits(name, j, EncFrom(name, j, off, comp))
  {
    var r := EncFrom(name, j, off, comp);
    assert r.labels == [] && r.begin == j;
    assert r.ptr == -1 <==> DotFrom(name, j) == |name|;
  }

  /** A written label extends the split of the rest of the loop. */
  lemma RunNext(name: Text, j: nat, d: nat, rest: LabelRun)
    requires j <= d < |name| && d == DotFrom(name, j) && d + 1 <= rest.begin <= |name|
    requires Splits(name, d + 1, rest)
    ensures Splits(name, j, Follow([name[j..d]], rest))
  {
    PlainCons(name, j);
    assert [name[j..d]] + (rest.labels + PlainLabels(name, rest.begin)) ==
      ([name[j..d]] + rest.labels) + PlainLabels(name, rest.begin);
  }

  /** A pointer target `ptr` found at `begin` (or none, -1) comes from the
      map `comp`: the suffix at `begin` starts a non-root label of the name
      and `comp` holds it under that offset. */
  predicate FromMap(name: Text, comp: CompMap, begin: nat, ptr: int)
    requires begin <= |name|
  {
    ptr != -1 ==>
      && DotFrom(name, begin) < |name|
      && !RootAt(name, begin)
      && name[begin..] in comp && comp[name[begin..]] as int == ptr
  }

  /** The suffix found in the map was already in the map the label loop
      started with, under the offset used as pointer target: a name never
      points into itself. */
  lemma {:induction false} HitIsOld(name: Text, j: nat, off: nat, comp: CompMap)
    requires j <= |name|
    ensures var r := EncFrom(name, j, off, comp); FromMap(name, comp, r.begin, r.ptr)
    decreases |name| - j
  {
    var d := DotFrom(name, j);
    var r := EncFrom(name, j, off, comp);
    if d == |name| {
      assert r.ptr == -1;
    } else if Hit(name, j, comp) {
      assert r.begin == j;
      assert FromMap(name, comp, j, r.ptr);
    } else {
      var comp' := Recorded(name, j, off, comp);
      var rest := EncFrom(name, d + 1, off + 1 + (d - j), comp');
      assert r.begin == rest.begin && r.ptr == rest.ptr;
      HitIsOld(name, d + 1, off + 1 + (d - j), comp');
      FromRecorded(name, j, off, comp, rest.begin, rest.ptr);
    }
  }

  /** A target found in the map after recording the suffix from `j` was
      in the map before, when it is for a later suffix. */
  lemma FromRecorded(name: Text, j: nat, off: nat, comp: CompMap, begin: nat, ptr: int)
    requires j < begin <= |name|
    requires FromMap(name, Recorded(name, j, off, comp), begin, ptr)
    ensures FromMap(name, comp, begin, ptr)
  {
    if ptr != -1 {
      RecordedOther(name, j, off, comp, name[begin..]);
    }
  }

  /** Recording the suffix from `j` leaves every shorter key as it was. */
  lemma RecordedOther(name: Text, j: nat, off: nat, comp: CompMap, x: Text)
    requires j <= |name| && |x| < |name| - j
    ensures x in Recorded(name, j, off, comp) <==> x in comp
    ensures x in comp ==> Recorded(name, j, off, comp)[x] == comp[x]
  {
    assert x != name[j..];
  }

  /** The label loop only adds to the map: an entry already there is never
      overwritten. */
  lemma {:induction false} EncFromKeeps(name: Text, j: nat, off: nat, comp: CompMap, x: Text)
    requires j <= |name| && x in comp
    ensures var r := EncFrom(name, j, off, comp);
      x in r.comp && r.comp[x] == comp[x]
    decreases |name| - j
  {
    var d := DotFrom(name, j);
    if d < |name| && !Hit(name, j, comp) {
      var comp' := Recorded(name, j, off, comp);
      EncFromKeeps(name, d + 1, off + 1 + (d - j), comp', x);
    }
  }

  /** `x` is the suffix at a label start from `j` up to `end` (`j` or a
      position right after a '.'), other than the root: one of the keys
      the label loop from `j` records for the labels it writes. Its start
      is `|name| - |x|`. */
  predicate NewKey(name: Text, j: nat, end: nat, x: Text)
    requires end <= |name|
  {
    var k := |name| - |x|;
    && |x| <= |name| && j <= k < end
    && (k == j || name[k - 1] == Dot)
    && !RootAt(name, k) && x == name[k..]
  }

  /** DotFrom finds the first '.' from `j` on: there is none before it. */
  lemma {:induction false} DotFromFirst(name: Text, j: nat)
    requires j <= |name|
    ensures NoDot(name, j, DotFrom(name, j))
    decreases |name| - j
  {
    if j < |name| && name[j] != Dot {
      DotFromFirst(name, j + 1);
    }
  }

  /** The keys from `j` are the first label's suffix (unless it is the
      root) and the keys from after its '.'. */
  lemma NewKeyCons(name: Text, j: nat, d: nat, end: nat, x: Text)
    requires j <= d < end <= |name| && d == DotFrom(name, j)
    ensures NewKey(name, j, end, x) <==> (x == name[j..] && !RootAt(name, j)) || NewKey(name, d + 1, end, x)
  {
    DotFromFirst(name, j);
    var k := |name| - |x|;
    if NewKey(name, j, end, x) && k != j {
      assert name[k - 1] == Dot;
      assert d + 1 <= k;
    }
  }

  /** The map `r.comp` after a run `r` of the label loop from `j`, started
      at `off` with `comp`: its keys are those it started with and the
      suffix of every label it wrote; each such suffix is new, under the
      offset where its label is written, truncated to 16 bits; and the old
      entries are kept. */
  ghost predicate MapAfter(name: Text, j: nat, off: nat, comp: CompMap, r: LabelRun)
    requires r.begin <= |name|
  {
    && (forall x :: x in r.comp <==> x in comp || NewKey(name, j, r.begin, x))
    && (forall x :: NewKey(name, j, r.begin, x) ==>
          x !in comp && x in r.comp && r.comp[x] == (off + (|name| - |x|) - j) % 0x1_0000)
    && (forall x :: x in comp ==> x in r.comp && r.comp[x] == comp[x])
  }

  /** The map the label loop leaves is the one it started with plus the
      suffix of every label it wrote, under the offset of that label. */
  lemma {:induction false} EncFromMap(name: Text, j: nat, off: nat, comp: CompMap)
    requires j <= |name|
    ensures MapAfter(name, j, off, comp, EncFrom(name, j, off, comp))
    decreases |name| - j, 1
  {
    var d := DotFrom(name, j);
    if d < |name| && !Hit(name, j, comp) {
      var comp' := Recorded(name, j, off, comp);
      EncStep(name, j, d, off, comp, comp');
      LabelMap(name, j, d, off, comp, comp');
    } else {
      var r := EncFrom(name, j, off, comp);
      assert r.begin == j && r.comp == comp;
      forall x
        ensures !NewKey(name, j, j, x)
      {
      }
    }
  }

  /** EncFromMap for the run that writes the label `name[j..d]` and goes
      on after its '.'. */
  lemma {:induction false} LabelMap(name: Text, j: nat, d: nat, off: nat, comp: CompMap, comp': CompMap)
    requires j <= d < |name| && d == DotFrom(name, j) && !Hit(name, j, comp)
    requires comp' == Recorded(name, j, off, comp)
    ensures MapAfter(name, j, off, comp, Follow([name[j..d]], EncFrom(name, d + 1, off + 1 + (d - j), comp')))
    decreases |name| - j, 0
  {
    var rest := EncFrom(name, d + 1, off + 1 + (d - j), comp');
    EncFromMap(name, d + 1, off + 1 + (d - j), comp');
    MapStep(name, j, d, off, comp, Follow([name[j..d]], rest), rest, off + 1 + (d - j), comp');
  }

  /** EncFromMap for a run `r` that writes the label `name[j..d]` and
      goes on with the run `rest` from after its '.'. */
  lemma MapStep(name: Text, j: nat, d: nat, off: nat, comp: CompMap, r: LabelRun, rest: LabelRun, off': nat, comp': CompMap)
    requires j <= d < rest.begin <= |name| && d == DotFrom(name, j) && !Hit(name, j, comp)
    requires r.comp == rest.comp && r.begin == rest.begin
    requires off' == off + 1 + (d - j) && comp' == Recorded(name, j, off, comp)
    requires MapAfter(name, d + 1, off', comp', rest)
    ensures MapAfter(name, j, off, comp, r)
  {
    forall x
      ensures x in r.comp <==> x in comp || NewKey(name, j, r.begin, x)
      ensures NewKey(name, j, r.begin, x) ==>
        x !in comp && x in r.comp && r.comp[x] == (off + (|name| - |x|) - j) % 0x1_0000
      ensures x in comp ==> x in r.comp && r.comp[x] == comp[x]
    {
      NewKeyCons(name, j, d, r.begin, x);
      if x == name[j..] && !RootAt(name, j) {
        assert comp'[x] == off % 0x1_0000 && |x| == |name| - j;
      }
    }
  }

  /** The root name is never looked up in the map: its one (empty) label
      is written as a zero byte. */
  lemma RootLabels(name: Text, off: nat, comp: CompMap)
    ensures RootAt(name, 0) ==>
      && name == Root
      && EncFrom(name, 0, off, comp).ptr == -1 && EncFrom(name, 0, off, comp).labels == [[]]
      && PlainLabels(name, 0) == [[]]
  {
    if RootAt(name, 0) {
      DotFromIs(name, 0, 0);
      DotFromIs(name, 1, 1);
    }
  }

  /** What `packDomainName` produces: the bytes written and the map
      afterwards. */
  datatype NameEnc = NameEnc(bytes: seq<byte>, comp: CompMap)

  /** The whole of `packDomainName`: the root "." ends after its label loop
      (one zero byte); any other name ends with the pointer when one was
      found and with a zero byte otherwise. So no encoding is empty: it
      ends in a zero byte, or, when a suffix was found in the map, in a
      pointer, whose first byte has its top two bits set and whose last
      byte is the low byte of the suffix's offset. */
  function EncName(name: Text, off: nat, comp: CompMap): (e: NameEnc)
    ensures |e.bytes| > 0
    ensures var r := EncFrom(name, 0, off, comp);
      r.ptr == -1 ==> e.bytes[|e.bytes| - 1] == 0
    ensures var r := EncFrom(name, 0, off, comp);
      r.ptr != -1 ==> |e.bytes| >= 2 && e.bytes[|e.bytes| - 2] / 64 == 3 && e.bytes[|e.bytes| - 1] == r.ptr % 0x100
  {
    RootLabels(name, off, comp);
    var r := EncFrom(name, 0, off, comp);
    assert RootAt(name, 0) ==> Wire(r.labels) == [0] by {
      if RootAt(name, 0) {
        assert r.labels == [[]] && r.labels[1..] == [];
      }
    }
    NameEnc(Wire(r.labels) + NameEnd(name, r.ptr), r.comp)
  }

  /** What follows the labels: nothing for the root ".", the pointer when
      one was found, a zero byte otherwise. */
  function NameEnd(name: Text, ptr: int): seq<byte>
    requires ptr == -1 || 0 <= ptr < 0x1_0000
  {
    if RootAt(name, 0) then []
    else if ptr != -1 then PointerBytes(ptr as u16)
    else [0]
  }

  /** Compression never makes a name longer than its uncompressed
      encoding, and without a map hit the encoding is exactly the
      uncompressed one. */
  lemma EncNameLen(name: Text, off: nat, comp: CompMap)
    ensures |EncName(name, off, comp).bytes| <= NameLen(name)
    ensures EncFrom(name, 0, off, comp).ptr == -1 ==>
      EncName(name, off, comp).bytes == Wire(PlainLabels(name, 0)) + if name == Root then [] else [0]
  {
    var r := EncFrom(name, 0, off, comp);
    RunSplit(name, 0, off, comp);
    WireAppend(r.labels, PlainLabels(name, r.begin));
    if RootAt(name, 0) {
      RootLabels(name, off, comp);
    } else {
      assert name != Root;
      if r.ptr != -1 {
        var rest := PlainLabels(name, r.begin);
        assert rest != [];
        WireCons(rest[0], rest[1..]);
        assert [rest[0]] + rest[1..] == rest;
      } else {
        assert r.labels + [] == r.labels;
      }
    }
  }

  /** The map `packDomainName` leaves keeps every entry it was given. */
  lemma EncNameKeeps(name: Text, off: nat, comp: CompMap, x: Text)
    requires x in comp
    ensures x in EncName(name, off, comp).comp && EncName(name, off, comp).comp[x] == comp[x]
  {
    EncFromKeeps(name, 0, off, comp, x);
  }

  /** The map `packDomainName` returns: the one it was given plus the
      suffix of every label it wrote, under that label's offset. */
  lemma EncNameMap(name: Text, off: nat, comp: CompMap)
    ensures var r := EncFrom(name, 0, off, comp);
      EncName(name, off, comp).comp == r.comp && MapAfter(name, 0, off, comp, r)
  {
    EncFromMap(name, 0, off, comp);
  }

  /** `packDomainName` on the buffer's contents. Go never reports an error
      here, but it indexes the buffer unchecked and panics at the first
      write past its end; the model reports that as IndexOutOfRange and
      leaves the buffer as it was (nothing written before a panic can be
      observed: the buffer and the map belong to the `Pack` that panics).
      Otherwise the encoding goes into [off, off + |bytes|) and nothing
      else changes. */
  function NameWrite(name: Text, b: seq<byte>, off: nat, comp: CompMap): (r: Written)
    ensures |r.buf| == |b|
    ensures r.status.Ok? <==> off + |EncName(name, off, comp).bytes| <= |b|
    ensures r.status.Fail? ==> r == Written(b, 0, Fail(IndexOutOfRange))
    ensures r.status.Ok? ==> r.off == off + |EncName(name, off, comp).bytes|
  {
    var e := EncName(name, off, comp);
    if off + |e.bytes| > |b| then Written(b, 0, Fail(IndexOutOfRange))
    else Written(PutBytes(b, off, e.bytes), off + |e.bytes|, Ok)
  }

  /** `packDomainName`: the panic check, then the encoding. */
  method PackDomainName(name: Text, buf: array<byte>, off: nat, compression: CompMap)
    returns (off1: int, comp1: CompMap, status: Status)
    modifies buf
    ensures Written(buf[..], off1, status) == NameWrite(name, old(buf[..]), off, compression)
    ensures status.Ok? ==> comp1 == EncName(name, off, compression).comp
    ensures status.Fail? ==> comp1 == compression
  {
    if off + |EncName(name, off, compression).bytes| > buf.Length {
      return 0, compression, Fail(IndexOutOfRange);
    }
    off1, comp1 := WriteName(name, buf, off, compression);
    status := Ok;
  }

  /** The writes of `packDomainName` when they all fall inside the buffer:
      the label loop, then the end of the name. */
  method WriteName(name: Text, buf: array<byte>, off: nat, compression: CompMap)
    returns (off1: int, comp1: CompMap)
    requires off + |EncName(name, off, compression).bytes| <= buf.Length
    modifies buf
    ensures var e := EncName(name, off, compression);
      off1 == off + |e.bytes| && comp1 == e.comp &&
      buf[..] == PutBytes(old(buf[..]), off, e.bytes)
  {
    ghost var b0 := buf[..];
    ghost var run := EncFrom(name, 0, off, compression);
    ghost var w, end := Wire(run.labels), NameEnd(name, run.ptr);
    ghost var e := EncName(name, off, compression);
    assert e == NameEnc(w + end, run.comp) && |e.bytes| == |w| + |end|;
    var cur, pointer;
    cur, comp1, pointer := PackLabels(name, buf, off, compression);
    ghost var b1 := buf[..];
    assert b1 == PutBytes(b0, off, w) && cur == off + |w| && pointer == run.ptr;
    off1 := PackNameEnd(name, buf, cur, pointer);
    assert buf[..] == PutBytes(b1, cur, end);
    PutBytesAppend(b0, off, w, end);
  }

  /** The end of `packDomainName` after its label loop: nothing for the
      root ".", the pointer `uint16(pointer | 0xC000)` when one was found,
      a zero byte otherwise. */
  method PackNameEnd(name: Text, buf: array<byte>, cur: nat, pointer: int) returns (off1: nat)
    requires pointer == -1 || 0 <= pointer < 0x1_0000
    requires cur + |NameEnd(name, pointer)| <= buf.Length
    modifies buf
    ensures off1 == cur + |NameEnd(name, pointer)|
    ensures buf[..] == PutBytes(old(buf[..]), cur, NameEnd(name, pointer))
  {
    if IsRootLabel(name, 0, |name|) {
      assert buf[..] == PutBytes(buf[..], cur, []);
      return cur;
    }
    if pointer != -1 {
      CopyInto(PointerBytes(pointer as u16), buf, cur);
      return cur + 2;
    }
    CopyInto([0], buf, cur);
    return cur + 1;
  }

  /** The label loop of `packDomainName`: writes the labels up to the end
      of the name or up to the first suffix found in the map, recording
      each new suffix, and reports the pointer target found (-1 if none). */
  method PackLabels(name: Text, buf: array<byte>, off: nat, compression: CompMap)
    returns (cur: int, comp1: CompMap, pointer: int)
    requires off + |Wire(EncFrom(name, 0, off, compression).labels)| <= buf.Length
    modifies buf
    ensures var r := EncFrom(name, 0, off, compression);
      cur == off + |Wire(r.labels)| && cur <= buf.Length && comp1 == r.comp && pointer == r.ptr &&
      buf[..] == PutBytes(old(buf[..]), off, Wire(r.labels))
  {
    ghost var b0 := buf[..];
    ghost var whole := EncFrom(name, 0, off, compression);
    ghost var written: seq<Text> := [];
    assert whole == Follow(written, whole);
    var begin := 0;
    cur := off;
    pointer := -1;
    comp1 := compression;
    var i := 0;
    while i < |name|
      invariant i <= |name|
      invariant Packing(name, b0, buf[..], off, begin, i, cur, comp1, written, whole)
      invariant pointer == -1
    {
      var stop;
      begin, cur, comp1, stop, written := PackChar(name, begin, i, buf, cur, comp1, off, b0, written, whole);
      if stop != -1 {
        pointer := stop;
        break;
      }
      i := i + 1;
    }
    LabelsDone(name, begin, i, cur, comp1, pointer, written, whole, b0, buf[..], off);
  }

  /** What the label loop of `packDomainName` keeps before the character
      at `i`: the current label starts at `begin` with no '.' in between,
      the labels `written` so far are in the buffer from `off` to `cur`,
      all labels of the run fit, and the whole run is what is written
      followed by the run from `begin`. */
  ghost predicate Packing(name: Text, b0: seq<byte>, b: seq<byte>, off: nat, begin: nat, i: nat, cur: int,
                          comp: CompMap, written: seq<Text>, whole: LabelRun)
  {
    && |b0| == |b|
    && begin <= i <= |name|
    && NoDot(name, begin, i)
    && cur == off + |Wire(written)|
    && off + |Wire(whole.labels)| <= |b|
    && cur <= |b|
    && b == PutBytes(b0, off, Wire(written))
    && whole == Follow(written, EncFrom(name, begin, cur, comp))
  }

  /** One character of the label loop of `packDomainName`: anything but a
      '.' moves on; a '.' is handled by PackLabel. */
  method PackChar(name: Text, begin: nat, i: nat, buf: array<byte>, cur: int, comp: CompMap,
                  ghost off: nat, ghost b0: seq<byte>, ghost written: seq<Text>, ghost whole: LabelRun)
    returns (begin1: nat, cur1: int, comp1: CompMap, pointer: int, ghost written1: seq<Text>)
    requires i < |name|
    requires Packing(name, b0, buf[..], off, begin, i, cur, comp, written, whole)
    modifies buf
    ensures pointer != -1 ==>
      && buf[..] == old(buf[..]) && begin1 == begin && cur1 == cur && comp1 == comp && written1 == written
      && whole == LabelRun(written, comp, pointer, begin) && PutBytes(b0, off, Wire(written)) == buf[..]
      && cur == off + |Wire(written)| && cur <= buf.Length
    ensures pointer == -1 ==> Packing(name, b0, buf[..], off, begin1, i + 1, cur1, comp1, written1, whole)
  {
    if name[i] != Dot {
      assert NoDot(name, begin, i + 1);
      return begin, cur, comp, -1, written;
    }
    LabelStep(name, begin, i);
    cur1, comp1, pointer, written1 := PackLabel(name, begin, i, buf, cur, comp, off, b0, written, whole);
    begin1 := i + 1;
    if pointer == -1 {
      assert NoDot(name, begin1, i + 1);
    } else {
      begin1 := begin;
    }
  }

  /** `prefix` followed by the labels of the rest of the loop. */
  function Follow(prefix: seq<Text>, r: LabelRun): LabelRun
  {
    r.(labels := prefix + r.labels)
  }

  /** Where the label loop ends: at the end of the name, the whole run is
      what was written; at a map hit, likewise, with the hit's pointer. */
  lemma LabelsDone(name: Text, begin: nat, i: nat, cur: int, comp: CompMap, pointer: int,
                   written: seq<Text>, whole: LabelRun, b0: seq<byte>, b: seq<byte>, off: nat)
    requires pointer == -1 ==> i == |name| && Packing(name, b0, b, off, begin, i, cur, comp, written, whole)
    requires pointer != -1 ==>
      && whole == LabelRun(written, comp, pointer, begin)
      && cur == off + |Wire(written)| && cur <= |b| == |b0| && b == PutBytes(b0, off, Wire(written))
    ensures whole.labels == written && whole.comp == comp && whole.ptr == pointer
    ensures cur == off + |Wire(written)| && cur <= |b| == |b0| && b == PutBytes(b0, off, Wire(written))
  {
    if pointer == -1 {
      DotFromIs(name, begin, |name|);
      assert written + [] == written;
    }
  }

  /** One '.' of the label loop of `packDomainName`, at `i`, with the
      current label starting at `begin`: a suffix found in the map stops
      the loop with its offset (nothing written, nothing recorded);
      otherwise the suffix is recorded (unless it is the root label), the
      label is written at `cur`, and `cur` moves past it. */
  method PackLabel(name: Text, begin: nat, i: nat, buf: array<byte>, cur: nat, comp: CompMap,
                   ghost off: nat, ghost b0: seq<byte>, ghost written: seq<Text>, ghost whole: LabelRun)
    returns (cur1: nat, comp1: CompMap, pointer: int, ghost written1: seq<Text>)
    requires begin <= i < |name| && DotFrom(name, begin) == i
    requires cur == off + |Wire(written)| && |b0| == buf.Length && cur <= buf.Length
    requires off + |Wire(whole.labels)| <= buf.Length
    requires buf[..] == PutBytes(b0, off, Wire(written))
    requires whole == Follow(written, EncFrom(name, begin, cur, comp))
    modifies buf
    ensures pointer != -1 ==>
      && buf[..] == old(buf[..]) && cur1 == cur && comp1 == comp && written1 == written
      && whole == LabelRun(written, comp, pointer, begin)
    ensures pointer == -1 ==>
      && cur1 == cur + 1 + (i - begin)
      && written1 == written + [name[begin..i]]
      && cur1 == off + |Wire(written1)| && cur1 <= buf.Length
      && buf[..] == PutBytes(b0, off, Wire(written1))
      && whole == Follow(written1, EncFrom(name, i + 1, cur1, comp1))
  {
    comp1 := comp;
    if !IsRootLabel(name, begin, |name|) {
      if name[begin..] in comp {
        LabelHit(name, begin, i, cur, comp, written, whole);
        return cur, comp, comp[name[begin..]] as int, written;
      }
      comp1 := comp[name[begin..] := cur % 0x1_0000];
    }
    cur1, written1 := StoreLabel(name, begin, i, buf, cur, comp, comp1, off, b0, written, whole);
    pointer := -1;
  }

  /** A '.' of the label loop whose suffix is not in the map, with the map
      `comp1` after recording it: the label is written at `cur`. */
  method StoreLabel(name: Text, begin: nat, i: nat, buf: array<byte>, cur: nat, ghost comp: CompMap,
                    ghost comp1: CompMap, ghost off: nat, ghost b0: seq<byte>, ghost written: seq<Text>,
                    ghost whole: LabelRun)
    returns (cur1: nat, ghost written1: seq<Text>)
    requires begin <= i < |name| && DotFrom(name, begin) == i
    requires !Hit(name, begin, comp) && comp1 == Recorded(name, begin, cur, comp)
    requires cur == off + |Wire(written)| && |b0| == buf.Length && cur <= buf.Length
    requires off + |Wire(whole.labels)| <= buf.Length
    requires buf[..] == PutBytes(b0, off, Wire(written))
    requires whole == Follow(written, EncFrom(name, begin, cur, comp))
    modifies buf
    ensures cur1 == cur + 1 + (i - begin)
    ensures written1 == written + [name[begin..i]]
    ensures cur1 == off + |Wire(written1)| && cur1 <= buf.Length
    ensures buf[..] == PutBytes(b0, off, Wire(written1))
    ensures whole == Follow(written1, EncFrom(name, i + 1, cur1, comp1))
  {
    LabelNext(name, begin, i, cur, comp, comp1, written, whole);
    ghost var rest := EncFrom(name, i + 1, cur + 1 + (i - begin), comp1);
    cur1, written1 := WriteLabel(name[begin..i], buf, cur, off, b0, written, rest.labels);
  }

  /** Stores one label at `cur`: its length as one byte (`byte(labelLen)`)
      and its bytes; the labels written so far grow by it. There is room
      for it because the labels `more` that follow it fit too. */
  method WriteLabel(l: Text, buf: array<byte>, cur: nat, ghost off: nat, ghost b0: seq<byte>, ghost written: seq<Text>,
                    ghost more: seq<Text>)
    returns (cur1: nat, ghost written1: seq<Text>)
    requires cur == off + |Wire(written)| && |b0| == buf.Length && cur <= buf.Length
    requires off + |Wire(written + [l] + more)| <= buf.Length
    requires buf[..] == PutBytes(b0, off, Wire(written))
    modifies buf
    ensures written1 == written + [l]
    ensures cur1 == cur + 1 + |l| == off + |Wire(written1)| && cur1 <= buf.Length
    ensures buf[..] == PutBytes(b0, off, Wire(written1))
  {
    var piece := LabelBytes(l);
    written1 := written + [l];
    WireAppend(written, [l]);
    WireCons(l, []);
    assert Wire(written1) == Wire(written) + piece;
    WireAppend(written1, more);
    PutBytesAppend(b0, off, Wire(written), piece);
    CopyInto(piece, buf, cur);
    return cur + 1 + |l|, written1;
  }

  /** The label loop at a '.' at `i` with none before it from `j` on:
      the label is `name[j..i]`, the first of the labels from `j`. */
  lemma LabelStep(name: Text, j: nat, i: nat)
    requires j <= i < |name| && name[i] == Dot && NoDot(name, j, i)
    ensures DotFrom(name, j) == i
    ensures PlainLabels(name, j) == [name[j..i]] + PlainLabels(name, i + 1)
    ensures |Wire(PlainLabels(name, j))| == 1 + (i - j) + |Wire(PlainLabels(name, i + 1))|
  {
    DotFromIs(name, j, i);
    WireCons(name[j..i], PlainLabels(name, i + 1));
  }

  /** The label loop at a '.' whose suffix is in the map: encoding stops
      with the labels written so far. */
  lemma LabelHit(name: Text, j: nat, i: nat, off: nat, comp: CompMap, w: seq<Text>, whole: LabelRun)
    requires j <= i < |name| && DotFrom(name, j) == i
    requires Hit(name, j, comp)
    requires whole == Follow(w, EncFrom(name, j, off, comp))
    ensures whole == LabelRun(w, comp, comp[name[j..]] as int, j)
  {
    assert w + [] == w;
  }

  /** The label loop at a '.' whose suffix is not in the map (or is the
      root label): the label is written, the suffix is recorded unless it
      is the root, and encoding resumes after the dot. */
  lemma LabelNext(name: Text, j: nat, i: nat, off: nat, comp: CompMap, comp': CompMap,
                  w: seq<Text>, whole: LabelRun)
    requires j <= i < |name| && DotFrom(name, j) == i
    requires !Hit(name, j, comp)
    requires comp' == Recorded(name, j, off, comp)
    requires whole == Follow(w, EncFrom(name, j, off, comp))
    ensures whole == Follow(w + [name[j..i]], EncFrom(name, i + 1, off + 1 + (i - j), comp'))
    ensures whole.labels == w + [name[j..i]] + EncFrom(name, i + 1, off + 1 + (i - j), comp').labels
  {
    EncStep(name, j, i, off, comp, comp');
    FollowTwice(w, name[j..i], EncFrom(name, i + 1, off + 1 + (i - j), comp'));
  }

  /** Following `w` after one label is following `w` and that label. */
  lemma FollowTwice(w: seq<Text>, l: Text, r: LabelRun)
    ensures Follow(w, Follow([l], r)) == Follow(w + [l], r)
    ensures Follow(w, Follow([l], r)).labels == w + [l] + r.labels
  {
    assert w + ([l] + r.labels) == (w + [l]) + r.labels;
  }

  /** The state of the decoding loop of `unpackDomainName`: the read
      position `off`, the number of pointers followed `ptr`, the resume
      offset `off1` recorded at the first pointer, and the text `s` so
      far. */
  datatype LoopState = LoopState(off: nat, ptr: nat, off1: int, s: Text)

  /** What one turn of the decoding loop does: finish with a result, or
      go on from a new state. */
  datatype LoopStep = Done(r: Decoded<Text>) | Next(st: LoopState)

  /** One turn of the decoding loop. A length byte with top bits 00 is a
      label (zero ends the name); top bits 11 make a pointer whose target
      is only the low 6 bits of the second byte; top bits 01 and 10 are
      consumed and ignored. Following a 127th pointer fails with
      InfiniteLoop; reading past the buffer, where Go would panic, fails
      with IndexOutOfRange. Every turn that goes on either follows one
      more pointer or moves forward. */
  function Step(buf: seq<byte>, st: LoopState): (r: LoopStep)
    requires st.ptr <= 126
    ensures r.Done? && r.r.status.Fail? ==> r.r.val == [] && r.r.off == 0
    ensures r.Done? && r.r.status.Ok? && st.ptr > 0 ==> r.r.off == st.off1
    ensures r.Next? ==> r.st.ptr <= 126
    ensures r.Next? ==> r.st.ptr == st.ptr + 1 || (r.st.ptr == st.ptr && r.st.off > st.off)
    ensures r.Next? && st.ptr > 0 ==> r.st.off1 == st.off1
    ensures r.Next? && st.ptr == 0 && r.st.ptr == 1 ==> r.st.off1 == st.off + 2
    ensures r.Done? && r.r.status.Ok? && st.ptr == 0 ==> r.r.off == st.off + 1
  {
    var off := st.off;
    if off >= |buf| then Done(Decoded([], 0, Fail(IndexOutOfRange)))
    else
      var c := buf[off];
      if c / 64 == 0 then
        if c == 0 then Done(Decoded(st.s, if st.ptr == 0 then off + 1 else st.off1, Ok))
        else if off + 1 + c > |buf| then Done(Decoded([], 0, Fail(IndexOutOfRange)))
        else Next(LoopState(off + 1 + c, st.ptr, st.off1, st.s + buf[off + 1..off + 1 + c] + [Dot]))
      else if c / 64 == 3 then
        if off + 1 >= |buf| then Done(Decoded([], 0, Fail(IndexOutOfRange)))
        else if st.ptr + 1 > 126 then Done(Decoded([], 0, Fail(InfiniteLoop)))
        else Next(LoopState(buf[off + 1] % 64, st.ptr + 1, if st.ptr == 0 then off + 2 else st.off1, st.s))
      else Next(LoopState(off + 1, st.ptr, st.off1, st.s))
  }

  /** The decoding loop run to its end from state `st`. It terminates: a
      pointer uses up one of the 126 hops, anything else moves forward in
      the buffer. */
  function NameLoop(buf: seq<byte>, st: LoopState): (r: Decoded<Text>)
    requires st.ptr <= 126
    ensures r.status.Fail? ==> r.val == [] && r.off == 0
    ensures r.status.Ok? && st.ptr > 0 ==> r.off == st.off1
    ensures r.status.Ok? && st.ptr == 0 ==> r.off > st.off
    decreases 126 - st.ptr, |buf| - st.off
  {
    match Step(buf, st)
    case Done(r) => r
    case Next(st') => NameLoop(buf, st')
  }

  /** `unpackDomainName` as a function: the loop from `off`, and "." for a
      name without labels. */
  function UnpackName(buf: seq<byte>, off: nat): (r: Decoded<Text>)
    ensures r.status.Ok? ==> |r.val| > 0 && r.off > off
    ensures r.status.Fail? ==> r.val == [] && r.off == 0
  {
    var r := NameLoop(buf, LoopState(off, 0, 0, []));
    if r.status.Fail? then r
    else if r.val == [] then Decoded(Root, r.off, Ok)
    else r
  }

  /** `unpackDomainName`: the loop itself, computing UnpackName. */
  method UnpackDomainName(buf: seq<byte>, off: nat) returns (name: Text, off1: int, status: Status)
    ensures Decoded(name, off1, status) == UnpackName(buf, off)
  {
    var s: Text := [];
    var ptr: nat := 0;
    var cur: nat := off;
    off1 := 0;
    ghost var goal := NameLoop(buf, LoopState(cur, ptr, off1, s));
    while true
      invariant ptr <= 126
      invariant NameLoop(buf, LoopState(cur, ptr, off1, s)) == goal
      decreases 126 - ptr, |buf| - cur
    {
      ghost var st := LoopState(cur, ptr, off1, s);
      if cur >= |buf| {
        return [], 0, Fail(IndexOutOfRange);
      }
      var c := buf[cur];
      cur := cur + 1;
      if c / 64 == 0 {
        if c == 0 {
          break;
        }
        if cur + c > |buf| {
          return [], 0, Fail(IndexOutOfRange);
        }
        s := AppendLabel(buf, s, cur, c as nat);
        s := s + [Dot];
        cur := cur + c;
      } else if c / 64 == 3 {
        if cur >= |buf| {
          return [], 0, Fail(IndexOutOfRange);
        }
        var c1 := buf[cur];
        cur := cur + 1;
        if ptr == 0 {
          off1 := cur;
        }
        if ptr + 1 > 126 {
          return [], 0, Fail(InfiniteLoop);
        }
        ptr := ptr + 1;
        cur := c1 % 64;
      }
      assert Step(buf, st) == Next(LoopState(cur, ptr, off1, s));
    }
    if ptr == 0 {
      off1 := cur;
    }
    if |s| == 0 {
      return Root, off1, Ok;
    }
    return s, off1, Ok;
  }

  /** The byte loop of `unpackDomainName`: appends the `c` bytes of a
      label from `from` on. */
  method AppendLabel(buf: seq<byte>, s: Text, from: nat, c: nat) returns (s1: Text)
    requires from + c <= |buf|
    ensures s1 == s + buf[from..from + c]
  {
    s1 := s;
    var j := 0;
    while j < c
      invariant 0 <= j <= c
      invariant s1 == s + buf[from..from + j]
    {
      assert buf[from..from + j + 1] == buf[from..from + j] + [buf[from + j]];
      s1 := s1 + [buf[from + j]];
      j := j + 1;
    }
  }

  /** A turn that goes on leaves the loop's result unchanged. */
  lemma LoopNext(buf: seq<byte>, st: LoopState, st': LoopState)
    requires st.ptr <= 126 && Step(buf, st) == Next(st')
    ensures st'.ptr <= 126 && NameLoop(buf, st) == NameLoop(buf, st')
  {
  }

  /** A slice that holds `x + y` holds `x` and then `y`. */
  lemma SliceSplit(buf: seq<byte>, off: nat, x: seq<byte>, y: seq<byte>)
    requires off + |x| + |y| <= |buf| && buf[off..off + |x| + |y|] == x + y
    ensures buf[off..off + |x|] == x && buf[off + |x|..off + |x| + |y|] == y
  {
    assert buf[off..off + |x|] == buf[off..off + |x| + |y|][..|x|];
    assert buf[off + |x|..off + |x| + |y|] == buf[off..off + |x| + |y|][|x|..];
  }

  /** A length byte below 64 with its label inside the buffer: the loop
      appends the label's characters and a dot and moves past it. */
  lemma StepLabel(buf: seq<byte>, off: nat, ptr: nat, off1: int, s: Text, c: nat)
    requires ptr <= 126 && off + 1 + c <= |buf| && 0 < c < 64 && buf[off] == c
    ensures Step(buf, LoopState(off, ptr, off1, s)) == Next(LoopState(off + 1 + c, ptr, off1, s + buf[off + 1..off + 1 + c] + [Dot]))
  {
  }

  /** A name with no labels (an immediate zero byte) decodes to "." and
      the offset after the zero byte. */
  lemma RootDecodes(buf: seq<byte>, off: nat)
    requires off < |buf| && buf[off] == 0
    ensures UnpackName(buf, off) == Decoded(Root, off + 1, Ok)
  {
    assert Step(buf, LoopState(off, 0, 0, [])) == Done(Decoded([], off + 1, Ok));
  }

  /** A pointer that points at itself is followed until the hop bound and
      then fails with InfiniteLoop, whatever the loop's state. */
  lemma {:induction false} SelfPointerLoops(buf: seq<byte>, p: nat, ptr: nat, off1: int, s: Text)
    requires p + 1 < |buf| && buf[p] / 64 == 3 && buf[p + 1] % 64 == p && ptr <= 126
    ensures NameLoop(buf, LoopState(p, ptr, off1, s)) == Decoded([], 0, Fail(InfiniteLoop))
    decreases 126 - ptr
  {
    var st := LoopState(p, ptr, off1, s);
    if ptr < 126 {
      var st' := LoopState(p, ptr + 1, if ptr == 0 then p + 2 else off1, s);
      assert Step(buf, st) == Next(st');
      SelfPointerLoops(buf, p, ptr + 1, st'.off1, s);
    } else {
      assert Step(buf, st) == Done(Decoded([], 0, Fail(InfiniteLoop)));
    }
  }

  /** Decoding a name that starts with a self-pointer fails with
      InfiniteLoop. */
  lemma SelfPointerFails(buf: seq<byte>, p: nat)
    requires p + 1 < |buf| && buf[p] / 64 == 3 && buf[p + 1] % 64 == p
    ensures UnpackName(buf, p) == Decoded([], 0, Fail(InfiniteLoop))
  {
    SelfPointerLoops(buf, p, 0, 0, []);
  }

  /** A pointer's jump lands on the low 6 bits of its second byte; the
      first byte's low bits play no part. The loop after the jump is the
      loop from that target with one more hop used. */
  lemma PointerJump(buf: seq<byte>, off: nat, ptr: nat, off1: int, s: Text)
    requires off + 1 < |buf| && buf[off] / 64 == 3 && ptr < 126
    ensures NameLoop(buf, LoopState(off, ptr, off1, s)) ==
      NameLoop(buf, LoopState(buf[off + 1] % 64, ptr + 1, if ptr == 0 then off + 2 else off1, s))
  {
    LoopNext(buf, LoopState(off, ptr, off1, s), LoopState(buf[off + 1] % 64, ptr + 1, if ptr == 0 then off + 2 else off1, s));
  }

  /** When a name starts with a pointer and decodes, the decoder resumes
      right after the pointer's two bytes. */
  lemma ResumeAfterPointer(buf: seq<byte>, off: nat)
    requires off + 1 < |buf| && buf[off] / 64 == 3
    ensures UnpackName(buf, off).status.Ok? ==> UnpackName(buf, off).off == off + 2
  {
    PointerJump(buf, off, 0, 0, []);
  }

  /** A length byte whose top bits are 01 or 10 is consumed and ignored. */
  lemma ReservedLengthSkipped(buf: seq<byte>, off: nat)
    requires off < |buf| && (buf[off] / 64 == 1 || buf[off] / 64 == 2)
    ensures UnpackName(buf, off) == UnpackName(buf, off + 1)
  {
    LoopNext(buf, LoopState(off, 0, 0, []), LoopState(off + 1, 0, 0, []));
  }

  /** `buf` holds, from `off`, the labels as the decoder reads them back:
      per label a length byte between 1 and 63 and the label's bytes. */
  predicate LabelsIn(buf: seq<byte>, off: nat, labels: seq<Text>)
    decreases |labels|
  {
    labels == [] ||
    (var l := labels[0];
     && 0 < |l| < 64
     && off + 1 + |l| <= |buf|
     && buf[off] == |l|
     && buf[off + 1..off + 1 + |l|] == l
     && LabelsIn(buf, off + 1 + |l|, labels[1..]))
  }

  /** The loop from `st` has the same result as from `st2`. */
  ghost predicate Leads(buf: seq<byte>, st: LoopState, st2: LoopState)
  {
    st.ptr <= 126 && st2.ptr <= 126 && NameLoop(buf, st) == NameLoop(buf, st2)
  }

  /** The loop's state once it has read `labels` from `st`. */
  function Past(st: LoopState, labels: seq<Text>): LoopState
  {
    LoopState(st.off + |Wire(labels)|, st.ptr, st.off1, st.s + Join(labels))
  }

  /** The loop's state once it has read the label `l` from `st`. */
  function PastOne(st: LoopState, l: Text): LoopState
  {
    LoopState(st.off + 1 + |l|, st.ptr, st.off1, st.s + l + [Dot])
  }

  /** The decoding loop reads labels and moves past them, adding their
      dotted text; what it does next depends on the byte after them. */
  lemma DecodeLabels(buf: seq<byte>, off: nat, ptr: nat, off1: int, s: Text, labels: seq<Text>)
    requires ptr <= 126 && LabelsIn(buf, off, labels)
    ensures NameLoop(buf, LoopState(off, ptr, off1, s)) ==
      NameLoop(buf, LoopState(off + |Wire(labels)|, ptr, off1, s + Join(labels)))
  {
    LabelsLead(buf, LoopState(off, ptr, off1, s), labels);
  }

  /** DecodeLabels, from any state and stated as Leads. */
  lemma {:induction false} LabelsLead(buf: seq<byte>, st: LoopState, labels: seq<Text>)
    requires st.ptr <= 126 && LabelsIn(buf, st.off, labels)
    ensures Leads(buf, st, Past(st, labels)) == true
    decreases |labels|
  {
    if labels == [] {
      assert Past(st, labels) == st;
    } else {
      var l := labels[0];
      DecodeHead(buf, st, labels);
      LabelsLead(buf, PastOne(st, l), labels[1..]);
      StateAfter(st, labels);
      LeadsTrans(buf, st, PastOne(st, l), Past(PastOne(st, l), labels[1..]), Past(st, labels));
    }
  }

  /** Past the first label and then past the others is past all of them. */
  lemma StateAfter(st: LoopState, labels: seq<Text>)
    requires labels != []
    ensures Past(PastOne(st, labels[0]), labels[1..]) == Past(st, labels)
  {
    WireLen(labels);
    JoinCons(st.s, labels);
  }

  /** Leads is transitive. */
  lemma LeadsTrans(buf: seq<byte>, st0: LoopState, st1: LoopState, st2: LoopState, st3: LoopState)
    requires Leads(buf, st0, st1) == true && Leads(buf, st1, st2) == true && st2 == st3
    ensures Leads(buf, st0, st3) == true
  {
  }

  /** The first of the labels in the buffer: the loop appends its text
      and a dot, and the other labels follow it. */
  lemma DecodeHead(buf: seq<byte>, st: LoopState, labels: seq<Text>)
    requires st.ptr <= 126 && labels != [] && LabelsIn(buf, st.off, labels)
    ensures Leads(buf, st, PastOne(st, labels[0])) == true
    ensures PastOne(st, labels[0]).ptr <= 126 && LabelsIn(buf, PastOne(st, labels[0]).off, labels[1..])
  {
    LoopLabel(buf, st.off, st.ptr, st.off1, st.s, labels[0]);
  }

  /** One label in the buffer: the loop appends its text and a dot and
      goes on right after it. */
  lemma LoopLabel(buf: seq<byte>, off: nat, ptr: nat, off1: int, s: Text, l: Text)
    requires ptr <= 126 && 0 < |l| < 64 && off + 1 + |l| <= |buf|
    requires buf[off] == |l| && buf[off + 1..off + 1 + |l|] == l
    ensures NameLoop(buf, LoopState(off, ptr, off1, s)) ==
      NameLoop(buf, LoopState(off + 1 + |l|, ptr, off1, s + l + [Dot]))
  {
    StepLabel(buf, off, ptr, off1, s, |l|);
    LoopNext(buf, LoopState(off, ptr, off1, s), LoopState(off + 1 + |l|, ptr, off1, s + l + [Dot]));
  }

  /** The wire length of labels: the first label's length byte and bytes,
      then the others. */
  lemma WireLen(labels: seq<Text>)
    requires labels != []
    ensures |Wire(labels)| == 1 + |labels[0]| + |Wire(labels[1..])|
  {
  }

  /** The dotted text of labels: the first label and its dot, then the
      others. */
  lemma JoinCons(s: Text, labels: seq<Text>)
    requires labels != []
    ensures s + labels[0] + [Dot] + Join(labels[1..]) == s + Join(labels)
  {
    assert Join(labels) == labels[0] + [Dot] + Join(labels[1..]);
  }

  /** Valid labels on the wire are labels the decoder reads back. */
  lemma {:induction false} WireIsLabels(buf: seq<byte>, off: nat, labels: seq<Text>)
    requires ValidLabels(labels) && off + |Wire(labels)| <= |buf|
    requires buf[off..off + |Wire(labels)|] == Wire(labels)
    ensures LabelsIn(buf, off, labels)
    decreases |labels|
  {
    if labels != [] {
      WireFirst(buf, off, labels);
      WireRest(buf, off, labels);
      WireIsLabels(buf, off + 1 + |labels[0]|, labels[1..]);
    }
  }

  /** The first label on the wire: its length byte and its bytes. */
  lemma WireFirst(buf: seq<byte>, off: nat, labels: seq<Text>)
    requires labels != [] && |labels[0]| < 64
    requires off + |Wire(labels)| <= |buf| && buf[off..off + |Wire(labels)|] == Wire(labels)
    ensures buf[off] == |labels[0]| && buf[off + 1..off + 1 + |labels[0]|] == labels[0]
  {
    var lb := LabelBytes(labels[0]);
    assert Wire(labels) == lb + Wire(labels[1..]);
    assert buf[off..off + |lb|] == Wire(labels)[..|lb|];
    LabelHead(buf, off, labels[0]);
  }

  /** The other labels on the wire, right after the first. */
  lemma WireRest(buf: seq<byte>, off: nat, labels: seq<Text>)
    requires labels != []
    requires off + |Wire(labels)| <= |buf| && buf[off..off + |Wire(labels)|] == Wire(labels)
    ensures var n := off + 1 + |labels[0]|;
      n + |Wire(labels[1..])| <= |buf| && buf[n..n + |Wire(labels[1..])|] == Wire(labels[1..])
  {
    var lb := LabelBytes(labels[0]);
    assert Wire(labels) == lb + Wire(labels[1..]);
    SliceSplit(buf, off, lb, Wire(labels[1..]));
  }

  /** One label's bytes in the buffer: its length byte, then its text. */
  lemma LabelHead(buf: seq<byte>, off: nat, l: Text)
    requires |l| < 64 && off + 1 + |l| <= |buf| && buf[off..off + 1 + |l|] == LabelBytes(l)
    ensures buf[off] == |l| && buf[off + 1..off + 1 + |l|] == l
  {
    assert buf[off] == buf[off..off + 1 + |l|][0];
    assert buf[off + 1..off + 1 + |l|] == buf[off..off + 1 + |l|][1..];
  }

  /** Writing at `off` leaves labels stored wholly before `off` intact. */
  lemma {:induction false} LabelsInFrame(b: seq<byte>, p: nat, labels: seq<Text>, off: nat, x: seq<byte>)
    requires LabelsIn(b, p, labels) && p + |Wire(labels)| <= off && off + |x| <= |b|
    ensures LabelsIn(PutBytes(b, off, x), p, labels)
    decreases |labels|
  {
    if labels != [] {
      var l := labels[0];
      var b' := PutBytes(b, off, x);
      LabelsInSplit(b, p, labels);
      PutBytesFrame(b, off, x);
      WireLen(labels);
      assert b'[p] == b'[..off][p] == b[..off][p] == b[p];
      assert b'[p + 1..p + 1 + |l|] == b'[..off][p + 1..p + 1 + |l|] == b[..off][p + 1..p + 1 + |l|];
      LabelsInFrame(b, p + 1 + |l|, labels[1..], off, x);
      LabelsInJoin(b', p, labels);
    }
  }

  /** Labels in the buffer at `p`: the first label, then the others. */
  lemma LabelsInSplit(buf: seq<byte>, p: nat, labels: seq<Text>)
    requires labels != [] && LabelsIn(buf, p, labels)
    ensures var l := labels[0];
      && 0 < |l| < 64 && p + 1 + |l| <= |buf| && buf[p] == |l| && buf[p + 1..p + 1 + |l|] == l
      && LabelsIn(buf, p + 1 + |l|, labels[1..])
  {
  }

  /** The first label at `p` and the others after it are labels at `p`. */
  lemma LabelsInJoin(buf: seq<byte>, p: nat, labels: seq<Text>)
    requires labels != []
    requires var l := labels[0];
      && 0 < |l| < 64 && p + 1 + |l| <= |buf| && buf[p] == |l| && buf[p + 1..p + 1 + |l|] == l
      && LabelsIn(buf, p + 1 + |l|, labels[1..])
    ensures LabelsIn(buf, p, labels)
  {
  }

  /** A name the decoder reads back as written from `j` on: every label is
      non-empty, shorter than 64 bytes, and ends with a '.'. */
  predicate LabelsValidFrom(name: Text, j: nat)
    requires j <= |name|
    decreases |name| - j
  {
    j == |name| ||
    (var d := DotFrom(name, j);
     d < |name| && 0 < d - j < 64 && LabelsValidFrom(name, d + 1))
  }

  /** A fully qualified name with valid labels, or the root ".". */
  predicate ValidName(name: Text)
  {
    name == Root || (name != [] && LabelsValidFrom(name, 0))
  }

  /** The labels of a name with valid labels are valid, and their dotted
      text is the name again. */
  lemma {:induction false} JoinPlain(name: Text, j: nat)
    requires j <= |name| && LabelsValidFrom(name, j)
    ensures ValidLabels(PlainLabels(name, j)) && Join(PlainLabels(name, j)) == name[j..]
    decreases |name| - j
  {
    if j < |name| {
      var d := DotFrom(name, j);
      JoinPlain(name, d + 1);
      var labels := PlainLabels(name, j);
      assert labels == [name[j..d]] + PlainLabels(name, d + 1);
      assert labels[0] == name[j..d] && labels[1..] == PlainLabels(name, d + 1);
      assert name[j..] == name[j..d] + [Dot] + name[d + 1..];
    }
  }

  /** Labels stored at `p` and ended by a zero byte: the name a pointer
      to `p` stands for. */
  predicate Stored(buf: seq<byte>, p: nat, labels: seq<Text>)
  {
    LabelsIn(buf, p, labels) && p + |Wire(labels)| < |buf| && buf[p + |Wire(labels)|] == 0
  }

  /** Labels stored at `off` and then a pointer whose target is `p`. */
  predicate PointerAfter(buf: seq<byte>, off: nat, labels: seq<Text>, p: nat)
  {
    var at := off + |Wire(labels)|;
    LabelsIn(buf, off, labels) && at + 1 < |buf| && buf[at] / 64 == 3 && buf[at + 1] % 64 == p
  }

  /** A zero byte ends the name: the text so far, and the offset after
      the zero byte (or the one recorded at the first pointer). */
  lemma EndDecodes(buf: seq<byte>, at: nat, ptr: nat, off1: int, s: Text)
    requires ptr <= 126 && at < |buf| && buf[at] == 0
    ensures NameLoop(buf, LoopState(at, ptr, off1, s)) == Decoded(s, if ptr == 0 then at + 1 else off1, Ok)
  {
    assert Step(buf, LoopState(at, ptr, off1, s)) == Done(Decoded(s, if ptr == 0 then at + 1 else off1, Ok));
  }

  /** Labels followed by a zero byte decode to their dotted text. */
  lemma LabelsThenZero(buf: seq<byte>, off: nat, ptr: nat, off1: int, s: Text, labels: seq<Text>)
    requires ptr <= 126 && Stored(buf, off, labels)
    ensures NameLoop(buf, LoopState(off, ptr, off1, s)) ==
      Decoded(s + Join(labels), if ptr == 0 then off + |Wire(labels)| + 1 else off1, Ok)
  {
    EndDecodes(buf, off + |Wire(labels)|, ptr, off1, s + Join(labels));
    DecodeLabels(buf, off, ptr, off1, s, labels);
  }

  /** Valid labels and a zero byte written at `off` are read back there as
      labels followed by a zero byte. */
  lemma WrittenLabels(b: seq<byte>, off: nat, labels: seq<Text>)
    requires ValidLabels(labels) && off + |Wire(labels)| + 1 <= |b|
    ensures Stored(PutBytes(b, off, Wire(labels) + [0]), off, labels)
  {
    var w := Wire(labels);
    var buf := PutBytes(b, off, w + [0]);
    SliceSplit(buf, off, w, [0]);
    WireIsLabels(buf, off, labels);
    assert buf[off + |w|] == buf[off + |w|..off + |w| + 1][0];
  }

  /** Pointer-free round trip: when encoding finds none of the name's
      suffixes in the map, decoding what `packDomainName` wrote gives the
      name back and the offset just past it. */
  lemma NameRoundTripPlain(name: Text, b: seq<byte>, off: nat, comp: CompMap)
    requires ValidName(name)
    requires off + NameLen(name) <= |b|
    requires EncFrom(name, 0, off, comp).ptr == -1
    ensures var e := EncName(name, off, comp);
      && off + |e.bytes| <= |b|
      && UnpackName(PutBytes(b, off, e.bytes), off) == Decoded(name, off + |e.bytes|, Ok)
  {
    EncNameLen(name, off, comp);
    if name == Root {
      RootRoundTrip(b, off, comp);
    } else {
      var labels := PlainLabels(name, 0);
      JoinPlain(name, 0);
      WrittenLabels(b, off, labels);
      LabelsThenZero(PutBytes(b, off, Wire(labels) + [0]), off, 0, 0, [], labels);
      assert [] + Join(labels) == name;
    }
  }

  /** The root name is written as one zero byte and read back as ".". */
  lemma RootRoundTrip(b: seq<byte>, off: nat, comp: CompMap)
    requires off + NameLen(Root) <= |b|
    ensures var e := EncName(Root, off, comp);
      && off + |e.bytes| <= |b|
      && UnpackName(PutBytes(b, off, e.bytes), off) == Decoded(Root, off + |e.bytes|, Ok)
  {
    RootLabels(Root, off, comp);
    EncNameLen(Root, off, comp);
    var e := EncName(Root, off, comp);
    assert e.bytes == [0] by {
      assert Wire([[]]) == [0];
    }
    var buf := PutBytes(b, off, e.bytes);
    assert buf[off] == buf[off..off + 1][0];
    RootDecodes(buf, off);
  }

  /** With a fresh map (the first name of a message) encoding finds
      nothing, so the pointer-free round trip applies. */
  lemma FreshMapRoundTrip(name: Text, b: seq<byte>, off: nat)
    requires ValidName(name)
    requires off + NameLen(name) <= |b|
    ensures var e := EncName(name, off, map[]);
      && off + |e.bytes| <= |b|
      && UnpackName(PutBytes(b, off, e.bytes), off) == Decoded(name, off + |e.bytes|, Ok)
  {
    HitIsOld(name, 0, off, map[]);
    NameRoundTripPlain(name, b, off, map[]);
  }

  /** Labels, then a pointer to a target below 64 where labels and a zero
      byte are stored, decode to both texts; the decoder resumes right
      after the pointer. */
  lemma CompressedDecodes(buf: seq<byte>, off: nat, first: seq<Text>, p: nat, tail: seq<Text>)
    requires PointerAfter(buf, off, first, p) && Stored(buf, p, tail)
    ensures NameLoop(buf, LoopState(off, 0, 0, [])) ==
      Decoded(Join(first) + Join(tail), off + |Wire(first)| + 2, Ok)
  {
    PointedDecodes(buf, p, off + |Wire(first)| + 2, Join(first), tail);
    LabelsThenPointer(buf, off, first, p);
  }

  /** After one pointer, the labels stored at its target and a zero byte
      end the name, to resume where the pointer recorded. */
  lemma PointedDecodes(buf: seq<byte>, p: nat, off1: int, s: Text, tail: seq<Text>)
    requires Stored(buf, p, tail)
    ensures NameLoop(buf, LoopState(p, 1, off1, s)) == Decoded(s + Join(tail), off1, Ok)
  {
    LabelsThenZero(buf, p, 1, off1, s, tail);
  }

  /** Labels and then a pointer: the loop goes on at the pointer's target
      with the labels' text and one hop used, to resume after the
      pointer. */
  lemma LabelsThenPointer(buf: seq<byte>, off: nat, first: seq<Text>, p: nat)
    requires PointerAfter(buf, off, first, p)
    ensures NameLoop(buf, LoopState(off, 0, 0, [])) ==
      NameLoop(buf, LoopState(p, 1, off + |Wire(first)| + 2, Join(first)))
  {
    var at := off + |Wire(first)|;
    PointerJump(buf, at, 0, 0, Join(first));
    DecodeLabels(buf, off, 0, 0, [], first);
    assert [] + Join(first) == Join(first);
  }

  /** With a pointer found, the encoding is the labels written and then
      the pointer's two bytes. */
  lemma CompressedBytes(name: Text, off: nat, comp: CompMap)
    requires EncFrom(name, 0, off, comp).ptr != -1
    ensures var r := EncFrom(name, 0, off, comp);
      EncName(name, off, comp).bytes == Wire(r.labels) + PointerBytes(r.ptr as u16)
  {
    RootLabels(name, off, comp);
  }

  /** With a pointer found in a valid name, the labels written are valid,
      and their text followed by the text of the suffix pointed at is the
      name. */
  lemma CompressedParts(name: Text, off: nat, comp: CompMap)
    requires ValidName(name) && EncFrom(name, 0, off, comp).ptr != -1
    ensures var r := EncFrom(name, 0, off, comp);
      ValidLabels(r.labels) && Join(r.labels) + Join(PlainLabels(name, r.begin)) == name
  {
    var r := EncFrom(name, 0, off, comp);
    var tail := PlainLabels(name, r.begin);
    RootLabels(name, off, comp);
    RunSplit(name, 0, off, comp);
    assert name != Root && LabelsValidFrom(name, 0);
    JoinPlain(name, 0);
    ValidSplit(r.labels, tail);
    JoinAppend(r.labels, tail);
    assert name[0..] == name;
  }

  /** Valid labels and a pointer written at `off` are read back there as
      labels followed by the pointer's two bytes. */
  lemma WrittenPointer(b: seq<byte>, off: nat, labels: seq<Text>, pb: seq<byte>)
    requires ValidLabels(labels) && |pb| == 2 && off + |Wire(labels)| + 2 <= |b|
    ensures var buf := PutBytes(b, off, Wire(labels) + pb);
      && LabelsIn(buf, off, labels)
      && buf[off + |Wire(labels)|] == pb[0] && buf[off + |Wire(labels)| + 1] == pb[1]
  {
    var w := Wire(labels);
    var buf := PutBytes(b, off, w + pb);
    SliceSplit(buf, off, w, pb);
    WireIsLabels(buf, off, labels);
    assert buf[off + |w|..off + |w| + 2] == pb;
    assert buf[off + |w|] == pb[0] && buf[off + |w| + 1] == pb[1];
  }

  /** Labels and a zero byte stored before `off` are still there after a
      write at `off`. */
  lemma TailKept(b: seq<byte>, p: nat, tail: seq<Text>, off: nat, x: seq<byte>)
    requires Stored(b, p, tail) && p + |Wire(tail)| < off && off + |x| <= |b|
    ensures Stored(PutBytes(b, off, x), p, tail)
  {
    var buf := PutBytes(b, off, x);
    LabelsInFrame(b, p, tail, off, x);
    assert buf[p + |Wire(tail)|] == buf[..off][p + |Wire(tail)|];
  }

  /** Compressed round trip: when encoding finds a suffix of the name in
      the map whose target is below offset 64, and that suffix is stored
      there as labels and a zero byte before the name, decoding what
      `packDomainName` wrote gives the name back and the offset just past
      the pointer. (Targets from 64 on are not followed correctly: see
      PointerAbove63Lost.) */
  lemma NameRoundTripCompressed(name: Text, b: seq<byte>, off: nat, comp: CompMap)
    requires ValidName(name)
    requires off + NameLen(name) <= |b|
    requires var r := EncFrom(name, 0, off, comp);
      var tail := PlainLabels(name, r.begin);
      0 <= r.ptr < 64 && r.ptr + |Wire(tail)| < off && Stored(b, r.ptr, tail)
    ensures var e := EncName(name, off, comp);
      && off + |e.bytes| <= |b|
      && UnpackName(PutBytes(b, off, e.bytes), off) == Decoded(name, off + |e.bytes|, Ok)
  {
    var r := EncFrom(name, 0, off, comp);
    var tail := PlainLabels(name, r.begin);
    var bytes := EncName(name, off, comp).bytes;
    assert off + |bytes| <= |b| && bytes == Wire(r.labels) + PointerBytes(r.ptr as u16) by {
      EncNameLen(name, off, comp);
      CompressedBytes(name, off, comp);
    }
    assert ValidLabels(r.labels) && Join(r.labels) + Join(tail) == name by {
      CompressedParts(name, off, comp);
    }
    PointerRoundTrip(name, b, off, r.labels, r.ptr, tail, bytes);
  }

  /** Labels and a pointer below 64 written at `off`, pointing at labels
      and a zero byte stored before `off`, decode to the text of both. */
  lemma PointerRoundTrip(name: Text, b: seq<byte>, off: nat, labels: seq<Text>, p: int, tail: seq<Text>, bytes: seq<byte>)
    requires 0 <= p < 64 && bytes == Wire(labels) + PointerBytes(p as u16)
    requires ValidLabels(labels) && Join(labels) + Join(tail) == name && name != []
    requires p + |Wire(tail)| < off && off + |bytes| <= |b| && Stored(b, p, tail)
    ensures UnpackName(PutBytes(b, off, bytes), off) == Decoded(name, off + |bytes|, Ok)
  {
    PointerLayout(b, off, labels, p, tail, bytes);
    CompressedDecodes(PutBytes(b, off, bytes), off, labels, p, tail);
  }

  /** After writing labels and a pointer below 64 at `off`, the labels and
      the pointer are there, and so are the labels and the zero byte stored
      before `off`. */
  lemma PointerLayout(b: seq<byte>, off: nat, labels: seq<Text>, p: int, tail: seq<Text>, bytes: seq<byte>)
    requires 0 <= p < 64 && bytes == Wire(labels) + PointerBytes(p as u16) && ValidLabels(labels)
    requires p + |Wire(tail)| < off && off + |bytes| <= |b| && Stored(b, p, tail)
    ensures PointerAfter(PutBytes(b, off, bytes), off, labels, p) && Stored(PutBytes(b, off, bytes), p, tail)
  {
    TailKept(b, p, tail, off, bytes);
    WrittenPointer(b, off, labels, PointerBytes(p as u16));
  }

  /** The encoder writes a pointer to offset 70 as 0xC0 0x46: "b.a."
      compressed against "a." at offset 70. */
  lemma PointerAbove63Encoded()
    ensures EncName([98, Dot, 97, Dot], 0, map[[97, Dot] := 70]).bytes == [1, 98, 0xC0, 70]
  {
    var name: Text := [98, Dot, 97, Dot];
    var comp: CompMap := map[[97, Dot] := 70];
    var comp' := comp[name := 0];
    DotFromIs(name, 0, 1);
    DotFromIs(name, 2, 3);
    assert name[0..] == name && name[2..] == [97, Dot] && name[0..1] == [98];
    assert !Hit(name, 0, comp) && Recorded(name, 0, 0, comp) == comp';
    assert Hit(name, 2, comp') && comp'[name[2..]] == 70;
    assert EncFrom(name, 2, 2, comp') == LabelRun([], comp', 70, 2);
    EncStep(name, 0, 1, 0, comp, comp');
    assert EncFrom(name, 0, 0, comp) == LabelRun([[98]], comp', 70, 2);
    WireCons([98], []);
  }

  /** ... and the decoder jumps to offset 70 % 64 == 6 instead, so those
      bytes, with "a." really stored at offset 70, read back as "b.". */
  lemma PointerAbove63Lost()
    ensures UnpackName([1, 98, 0xC0, 70] + Zeros(66) + [1, 97, 0], 0) == Decoded([98, Dot], 4, Ok)
  {
    var buf: seq<byte> := [1, 98, 0xC0, 70] + Zeros(66) + [1, 97, 0];
    assert buf[..4] == [1, 98, 0xC0, 70] && buf[6] == 0;
    MaskedJump(buf);
  }

  /** A buffer that starts with label "b" and a pointer 0xC0 0x46, and
      holds a zero byte at offset 6, reads as "b." ending after the
      pointer. */
  lemma MaskedJump(buf: seq<byte>)
    requires |buf| > 6 && buf[..4] == [1, 98, 0xC0, 70] && buf[6] == 0
    ensures UnpackName(buf, 0) == Decoded([98, Dot], 4, Ok)
  {
    assert buf[0] == 1 && buf[1] == 98 && buf[2] == 0xC0 && buf[3] == 70;
    StepLabel(buf, 0, 0, 0, [], 1);
    assert [] + buf[1..2] + [Dot] == [98, Dot];
    LoopNext(buf, LoopState(0, 0, 0, []), LoopState(2, 0, 0, [98, Dot]));
    PointerJump(buf, 2, 0, 0, [98, Dot]);
    assert Step(buf, LoopState(6, 1, 4, [98, Dot])) == Done(Decoded([98, Dot], 4, Ok));
  }
}
