/** Name compression across the names of one message. The map that
    `packDomainName` threads from name to name is sound for the decoder
    when every entry a pointer can reach, one below offset 64 (the decoder
    keeps only the low six bits of a pointer's second byte), is a place
    where the decoder reads that entry's suffix back. Packing a valid name
    whose map hit, if any, is such an entry keeps the map sound, and the
    name reads back from wherever its encoding is found. */
module Compression {
  import opened Types
  import opened MsgHelper
  import opened DomainName

  /** `buf` holds `x` from `off` on. */
  predicate HoldsAt(buf: seq<byte>, off: nat, x: seq<byte>)
  {
    off + |x| <= |buf| && buf[off..off + |x|] == x
  }

  /** The bytes up to the end of what `buf` holds at `off` are a start
      of `buf`. */
  lemma HoldsPrefix(buf: seq<byte>, off: nat, x: seq<byte>)
    requires HoldsAt(buf, off, x)
    ensures Prefix(buf[..off + |x|], buf)
  {
  }

  /** `pre` is the start of `buf`. */
  predicate Prefix(pre: seq<byte>, buf: seq<byte>)
  {
    |pre| <= |buf| && buf[..|pre|] == pre
  }

  /** A turn of the decoding loop that does not fail reads only bytes of
      `pre`, so it does the same in any buffer that starts with `pre`. */
  lemma StepExtends(pre: seq<byte>, buf: seq<byte>, st: LoopState)
    requires st.ptr <= 126 && Prefix(pre, buf)
    requires !(Step(pre, st).Done? && Step(pre, st).r.status.Fail?)
    ensures Step(buf, st) == Step(pre, st)
  {
    var off := st.off;
    assert off < |pre|;
    assert buf[off] == buf[..|pre|][off];
    var c := pre[off];
    if c / 64 == 0 && c != 0 {
      if off + 1 + c <= |pre| {
        assert buf[off + 1..off + 1 + c] == pre[off + 1..off + 1 + c] by {
          assert buf[..|pre|][off + 1..off + 1 + c] == buf[off + 1..off + 1 + c];
        }
      }
    } else if c / 64 == 3 {
      assert buf[off + 1] == buf[..|pre|][off + 1];
    }
  }

  /** A decoding loop that succeeds within `pre` has the same result in
      any buffer that starts with `pre`. */
  lemma {:induction false} LoopExtends(pre: seq<byte>, buf: seq<byte>, st: LoopState)
    requires st.ptr <= 126 && Prefix(pre, buf) && NameLoop(pre, st).status.Ok?
    ensures NameLoop(buf, st) == NameLoop(pre, st)
    decreases 126 - st.ptr, |pre| - st.off
  {
    StepExtends(pre, buf, st);
    match Step(pre, st)
    case Done(r) =>
    case Next(st') =>
      LoopExtends(pre, buf, st');
  }

  /** The decoder, having followed at least one pointer to `p`, reads `s`
      there, whatever text it had read before and wherever it is to
      resume, as long as it has at least `p` hops to spare. */
  ghost predicate Resolves(buf: seq<byte>, p: nat, s: Text)
  {
    forall h: nat, o: int, t: Text {:trigger Resumed(buf, p, h, o, t)} ::
      1 <= h <= 126 - p ==> Resumed(buf, p, h, o, t) == Decoded(t + s, o, Ok)
  }

  /** The decoder at `p` after `h` hops, having read `t`, to resume at
      `o`. */
  ghost function Resumed(buf: seq<byte>, p: nat, h: nat, o: int, t: Text): Decoded<Text>
    requires h <= 126
  {
    NameLoop(buf, LoopState(p, h, o, t))
  }

  /** The map is sound for the bytes `pre`: every entry a pointer can
      reach lies inside `pre`, and the decoder reads the entry's suffix
      there. Entries from 64 on are not constrained: no pointer to them is
      followed correctly. */
  ghost predicate MapValid(pre: seq<byte>, comp: CompMap)
  {
    forall s {:trigger comp[s]} :: s in comp && comp[s] < 64 ==> comp[s] < |pre| && Resolves(pre, comp[s], s)
  }

  /** Nothing is reachable through the empty map of a new message. */
  lemma EmptyMapValid(pre: seq<byte>)
    ensures MapValid(pre, map[])
  {
  }

  /** A suffix that resolves within `pre` resolves within any buffer
      that starts with `pre`. */
  lemma ResolvesExtends(pre: seq<byte>, buf: seq<byte>, p: nat, s: Text)
    requires Prefix(pre, buf) && Resolves(pre, p, s)
    ensures Resolves(buf, p, s)
  {
    forall h: nat, o: int, t: Text | 1 <= h <= 126 - p
      ensures Resumed(buf, p, h, o, t) == Decoded(t + s, o, Ok)
    {
      assert Resumed(pre, p, h, o, t) == Decoded(t + s, o, Ok);
      LoopExtends(pre, buf, LoopState(p, h, o, t));
    }
  }

  /** A map sound for `pre` is sound for any buffer that starts with
      `pre`. */
  lemma MapValidExtends(pre: seq<byte>, buf: seq<byte>, comp: CompMap)
    requires Prefix(pre, buf) && MapValid(pre, comp)
    ensures MapValid(buf, comp)
  {
    forall s | s in comp && comp[s] < 64
      ensures comp[s] < |buf| && Resolves(buf, comp[s], s)
    {
      ResolvesExtends(pre, buf, comp[s], s);
    }
  }

  /** A map sound for the first `a` bytes of `buf` is sound for its
      first `b` bytes, for `a <= b`. */
  lemma MapValidLonger(buf: seq<byte>, comp: CompMap, a: nat, b: nat)
    requires a <= b <= |buf| && MapValid(buf[..a], comp)
    ensures MapValid(buf[..b], comp)
  {
    assert buf[..b][..a] == buf[..a];
    MapValidExtends(buf[..a], buf[..b], comp);
  }

  /** What the decoder finds right after a name's labels, at `at`: the
      zero byte when no pointer was written, and then nothing is left of
      the name; otherwise a pointer to `ptr`, where the rest `tail` of the
      name resolves. */
  ghost predicate EndAt(buf: seq<byte>, at: nat, ptr: int, tail: Text)
  {
    if ptr == -1 then at < |buf| && buf[at] == 0 && tail == []
    else 0 <= ptr && at + 1 < |buf| && buf[at] / 64 == 3 && buf[at + 1] % 64 == ptr && Resolves(buf, ptr, tail)
  }

  /** Labels and then their end, read from `o` with `h` hops used: the
      labels' text and the rest of the name, resuming after the end (the
      zero byte or the pointer) when no pointer was followed before. */
  lemma LabelsEndDecode(buf: seq<byte>, o: nat, labels: seq<Text>, ptr: int, tail: Text, h: nat, off1: int, t: Text)
    requires LabelsIn(buf, o, labels) && EndAt(buf, o + |Wire(labels)|, ptr, tail)
    requires h <= 126 && (ptr != -1 ==> h + 1 <= 126 - ptr)
    ensures NameLoop(buf, LoopState(o, h, off1, t)) ==
      Decoded(t + Join(labels) + tail, if h > 0 then off1 else o + |Wire(labels)| + (if ptr == -1 then 1 else 2), Ok)
  {
    var at := o + |Wire(labels)|;
    DecodeLabels(buf, o, h, off1, t, labels);
    EndDecode(buf, at, ptr, tail, h, off1, t + Join(labels));
  }

  /** The end of a name's labels, read at `at` with `h` hops used and `s`
      read so far: the rest of the name, resuming after the zero byte or
      the pointer when no pointer was followed before. */
  lemma EndDecode(buf: seq<byte>, at: nat, ptr: int, tail: Text, h: nat, off1: int, s: Text)
    requires EndAt(buf, at, ptr, tail) && h <= 126 && (ptr != -1 ==> h + 1 <= 126 - ptr)
    ensures NameLoop(buf, LoopState(at, h, off1, s)) ==
      Decoded(s + tail, if h > 0 then off1 else at + (if ptr == -1 then 1 else 2), Ok)
  {
    if ptr == -1 {
      EndDecodes(buf, at, h, off1, s);
      assert s + tail == s;
    } else {
      PointerJump(buf, at, h, off1, s);
      assert Resumed(buf, ptr, h + 1, if h == 0 then at + 2 else off1, s) == Decoded(s + tail, if h == 0 then at + 2 else off1, Ok);
    }
  }

  /** The label loop from `j` on, in a name whose labels are valid from
      there: the labels it writes are valid, their text followed by the
      suffix where it stopped is the name from `j`, the labels are valid
      from that suffix on, and a loop that found no pointer went to the end
      of the name. */
  lemma {:induction false} RunText(name: Text, j: nat, off: nat, comp: CompMap)
    requires j <= |name| && LabelsValidFrom(name, j)
    ensures TextFrom(name, j, EncFrom(name, j, off, comp))
    decreases |name| - j, 1
  {
    if j < |name| {
      var d := DotFrom(name, j);
      assert d < |name| && 0 < d - j < 64 && LabelsValidFrom(name, d + 1);
      if Hit(name, j, comp) {
        var r := EncFrom(name, j, off, comp);
        assert r == LabelRun([], comp, comp[name[j..]] as int, j);
        assert TextFrom(name, j, r);
      } else {
        var comp' := Recorded(name, j, off, comp);
        EncStep(name, j, d, off, comp, comp');
        RunTextStep(name, j, d, off + 1 + (d - j), comp');
        assert TextFrom(name, j, EncFrom(name, j, off, comp));
      }
    } else {
      assert TextFrom(name, j, EncFrom(name, j, off, comp));
    }
  }

  /** RunText for a run that writes the label `name[j..d]` and goes on
      after its '.' with some map. */
  lemma {:induction false} RunTextStep(name: Text, j: nat, d: nat, off: nat, comp: CompMap)
    requires j < d < |name| && d - j < 64 && name[d] == Dot && LabelsValidFrom(name, d + 1)
    ensures TextFrom(name, j, Follow([name[j..d]], EncFrom(name, d + 1, off, comp)))
    decreases |name| - j, 0
  {
    RunText(name, d + 1, off, comp);
    TextStep(name, j, d, EncFrom(name, d + 1, off, comp));
  }

  /** What RunText states about a run `r` of the label loop from `j`. */
  ghost predicate TextFrom(name: Text, j: nat, r: LabelRun)
    requires j <= r.begin <= |name|
  {
    && ValidLabels(r.labels) && LabelsValidFrom(name, r.begin)
    && Join(r.labels) + name[r.begin..] == name[j..]
    && (r.ptr == -1 ==> r.begin == |name|)
  }

  /** A valid label `name[j..d]` ended by its '.' in front of a run from
      `d + 1` extends what RunText states to the run from `j`. */
  lemma TextStep(name: Text, j: nat, d: nat, rest: LabelRun)
    requires j < d < |name| && d - j < 64 && name[d] == Dot && d + 1 <= rest.begin <= |name|
    requires TextFrom(name, d + 1, rest)
    ensures TextFrom(name, j, Follow([name[j..d]], rest))
  {
    var l := name[j..d];
    var ls := [l] + rest.labels;
    assert ls[0] == l && ls[1..] == rest.labels;
    assert Join(ls) == l + [Dot] + Join(rest.labels);
    assert name[j..] == l + [Dot] + name[d + 1..];
  }

  /** A run of the label loop found at `off` in `pre`, as the decoder
      sees it: the labels written, then the zero byte or a pointer to an
      offset before `off` where the rest `tail` of the name resolves. */
  ghost predicate Placed(pre: seq<byte>, off: nat, r: LabelRun, tail: Text)
  {
    && LabelsIn(pre, off, r.labels)
    && EndAt(pre, off + |Wire(r.labels)|, r.ptr, tail)
    && r.ptr < off
  }

  /** The requirements of a shared-map round trip for a name packed at
      `off` with the map `comp`: a valid name, a map hit below 64 if any,
      and a map sound for the bytes before `off`. */
  ghost predicate Shared(buf: seq<byte>, name: Text, off: nat, comp: CompMap)
  {
    && ValidName(name) && EncFrom(name, 0, off, comp).ptr < 64
    && HoldsAt(buf, off, EncName(name, off, comp).bytes)
    && MapValid(buf[..off], comp)
  }

  /** Such a name other than the root, found at `off`, is placed there
      as far as the bytes up to its end go, and its labels and the rest
      are the name. */
  lemma PlacedFrom(name: Text, buf: seq<byte>, off: nat, comp: CompMap)
    requires Shared(buf, name, off, comp) && name != Root
    ensures var r := EncFrom(name, 0, off, comp);
      && Placed(buf[..off + |EncName(name, off, comp).bytes|], off, r, name[r.begin..])
      && Join(r.labels) + name[r.begin..] == name
      && |EncName(name, off, comp).bytes| == |Wire(r.labels)| + (if r.ptr == -1 then 1 else 2)
  {
    var r := EncFrom(name, 0, off, comp);
    var e := NameEnd(name, r.ptr);
    assert !RootAt(name, 0);
    assert EncName(name, off, comp).bytes == Wire(r.labels) + e;
    RunText(name, 0, off, comp);
    assert name[0..] == name;
    HitIsOld(name, 0, off, comp);
    PlacedParts(buf, off, r, name[r.begin..], e, comp);
  }

  /** Labels and their end, written at `off` with a map sound for the
      bytes before `off`, whose entry for the rest of the name is the
      pointer written: in the bytes up to their end, the decoder finds the
      labels, then their end, and the pointer goes back before `off`. */
  lemma PlacedParts(buf: seq<byte>, off: nat, r: LabelRun, tail: Text, e: seq<byte>, comp: CompMap)
    requires ValidLabels(r.labels) && HoldsAt(buf, off, Wire(r.labels) + e) && MapValid(buf[..off], comp)
    requires r.ptr == -1 ==> e == [0] && tail == []
    requires r.ptr != -1 ==> 0 <= r.ptr < 64 && e == PointerBytes(r.ptr as u16) && tail in comp && comp[tail] as int == r.ptr
    ensures Placed(buf[..off + |Wire(r.labels) + e|], off, r, tail)
  {
    var pre := buf[..off + |Wire(r.labels) + e|];
    assert HoldsAt(pre, off, Wire(r.labels) + e);
    MapValidLonger(buf, comp, off, |pre|);
    EncodedParts(pre, off, r.labels, r.ptr, tail, e);
  }

  /** Labels and their end, written at `off`, are there for the decoder:
      the labels one by one, then the zero byte, or a pointer to a place
      below 64 where the rest of the name resolves. */
  lemma EncodedParts(pre: seq<byte>, off: nat, labels: seq<Text>, ptr: int, tail: Text, e: seq<byte>)
    requires ValidLabels(labels) && HoldsAt(pre, off, Wire(labels) + e)
    requires ptr == -1 ==> e == [0] && tail == []
    requires ptr != -1 ==> 0 <= ptr < 64 && e == PointerBytes(ptr as u16) && Resolves(pre, ptr, tail)
    ensures LabelsIn(pre, off, labels) && EndAt(pre, off + |Wire(labels)|, ptr, tail)
  {
    var w := Wire(labels);
    SliceSplit(pre, off, w, e);
    WireIsLabels(pre, off, labels);
    assert pre[off + |w|] == e[0];
    if ptr != -1 {
      assert pre[off + |w| + 1] == e[1];
    }
  }

  /** A placed run whose text and rest make the non-empty name `s`, with
      a pointer, if any, below 64: the decoder reads `s` from `off` in any
      buffer that starts with those bytes, and ends right after the run. */
  lemma PlacedReads(pre: seq<byte>, buf: seq<byte>, off: nat, r: LabelRun, tail: Text, s: Text)
    requires Placed(pre, off, r, tail) && Prefix(pre, buf) && r.ptr < 64
    requires Join(r.labels) + tail == s && s != []
    ensures UnpackName(buf, off) == Decoded(s, off + |Wire(r.labels)| + (if r.ptr == -1 then 1 else 2), Ok)
  {
    var st := LoopState(off, 0, 0, []);
    LabelsEndDecode(pre, off, r.labels, r.ptr, tail, 0, 0, []);
    assert [] + Join(r.labels) + tail == s;
    LoopExtends(pre, buf, st);
  }

  /** Shared-map round trip of a name: a valid name that `packDomainName`
      wrote at `off` with a map sound for the bytes before `off`, whose map
      hit, if any, is below 64, reads back from any buffer that holds its
      encoding there, ending just past it. */
  lemma NameReads(name: Text, buf: seq<byte>, off: nat, comp: CompMap)
    requires Shared(buf, name, off, comp)
    ensures UnpackName(buf, off) == Decoded(name, off + |EncName(name, off, comp).bytes|, Ok)
  {
    var bytes := EncName(name, off, comp).bytes;
    if name == Root {
      RootBytes(off, comp);
      assert buf[off] == buf[off..off + 1][0];
      RootDecodes(buf, off);
    } else {
      var r := EncFrom(name, 0, off, comp);
      PlacedFrom(name, buf, off, comp);
      HoldsPrefix(buf, off, EncName(name, off, comp).bytes);
      PlacedReads(buf[..off + |EncName(name, off, comp).bytes|], buf, off, r, name[r.begin..], name);
    }
  }

  /** The root "." is written as one zero byte and leaves the map alone. */
  lemma RootBytes(off: nat, comp: CompMap)
    ensures EncName(Root, off, comp) == NameEnc([0], comp)
  {
    DotFromIs(Root, 0, 0);
    DotFromIs(Root, 1, 1);
    assert EncFrom(Root, 1, off + 1, comp) == LabelRun([], comp, -1, 1);
    assert Wire([[]]) == [0];
  }

  /** Shared-map soundness: the map `packDomainName` leaves after such a
      name is sound for the bytes up to the end of the name, when the name
      ends within the first 65536 bytes, where the map's 16-bit offsets are
      exact. */
  lemma NameKeepsMapValid(name: Text, buf: seq<byte>, off: nat, comp: CompMap)
    requires Shared(buf, name, off, comp)
    requires off + |EncName(name, off, comp).bytes| <= 0x1_0000
    ensures MapValid(buf[..off + |EncName(name, off, comp).bytes|], EncName(name, off, comp).comp)
  {
    var bytes := EncName(name, off, comp).bytes;
    if name == Root {
      RootBytes(off, comp);
      MapValidLonger(buf, comp, off, off + 1);
    } else {
      var r := EncFrom(name, 0, off, comp);
      var pre := buf[..off + |bytes|];
      assert LabelsValidFrom(name, 0);
      assert EncName(name, off, comp).comp == r.comp;
      PlacedFrom(name, buf, off, comp);
      MapValidLonger(buf, comp, off, off + |bytes|);
      RunEntries(name, 0, off, comp, pre, name[r.begin..]);
    }
  }

  /** The label loop from `j` on, writing at `o` with the map `comp`
      sound for `buf`, where its run is placed: every suffix it records is
      an entry the decoder resolves, so the map it leaves is sound for
      `buf` too. */
  lemma {:induction false} RunEntries(name: Text, j: nat, o: nat, comp: CompMap, buf: seq<byte>, tail: Text)
    requires j <= |name| && LabelsValidFrom(name, j) && MapValid(buf, comp)
    requires var r := EncFrom(name, j, o, comp);
      Placed(buf, o, r, tail) && tail == name[r.begin..] && o + |Wire(r.labels)| <= 0x1_0000
    ensures MapValid(buf, EncFrom(name, j, o, comp).comp)
    decreases |name| - j, 1
  {
    if j < |name| && !Hit(name, j, comp) {
      var d := DotFrom(name, j);
      var l := name[j..d];
      var o' := o + 1 + (d - j);
      assert LabelsValidFrom(name, d + 1);
      var comp' := Recorded(name, j, o, comp);
      var rest := EncFrom(name, d + 1, o', comp');
      EncStep(name, j, d, o, comp, comp');
      assert EncFrom(name, j, o, comp) == Follow([l], rest);
      EntryResolves(name, j, o, comp, buf, tail);
      PlacedRest(buf, o, l, rest, tail, o');
      RecordedValid(name, j, o, comp, buf);
      RunEntriesStep(name, j, d, o', comp', buf, tail);
      assert EncFrom(name, j, o, comp).comp == rest.comp;
    } else {
      assert EncFrom(name, j, o, comp).comp == comp;
    }
  }

  /** RunEntries for the rest of the run after the label `name[j..d]`,
      written with some map sound for `buf`. */
  lemma {:induction false} RunEntriesStep(name: Text, j: nat, d: nat, o: nat, comp: CompMap, buf: seq<byte>, tail: Text)
    requires j < d < |name| && LabelsValidFrom(name, d + 1) && MapValid(buf, comp)
    requires var r := EncFrom(name, d + 1, o, comp);
      Placed(buf, o, r, tail) && tail == name[r.begin..] && o + |Wire(r.labels)| <= 0x1_0000
    ensures MapValid(buf, EncFrom(name, d + 1, o, comp).comp)
    decreases |name| - j, 0
  {
    RunEntries(name, d + 1, o, comp, buf, tail);
  }

  /** The run after its first label `l` is placed right after it, and
      still ends within the first 65536 bytes. */
  lemma PlacedRest(buf: seq<byte>, o: nat, l: Text, rest: LabelRun, tail: Text, o': nat)
    requires Placed(buf, o, Follow([l], rest), tail) && o + |Wire([l] + rest.labels)| <= 0x1_0000
    requires o' == o + 1 + |l|
    ensures Placed(buf, o', rest, tail) && o' + |Wire(rest.labels)| <= 0x1_0000
    ensures o' <= |buf| && o < 0x1_0000
  {
    var ls := [l] + rest.labels;
    assert ls[0] == l && ls[1..] == rest.labels;
    WireCons(l, rest.labels);
  }

  /** The suffix from `j` resolves at `o`, where the label loop's run is
      placed. */
  lemma EntryResolves(name: Text, j: nat, o: nat, comp: CompMap, buf: seq<byte>, tail: Text)
    requires j <= |name| && LabelsValidFrom(name, j)
    requires var r := EncFrom(name, j, o, comp); Placed(buf, o, r, tail) && tail == name[r.begin..]
    ensures Resolves(buf, o, name[j..])
  {
    var r := EncFrom(name, j, o, comp);
    RunText(name, j, o, comp);
    PlacedResolves(buf, o, r, tail, name[j..]);
  }

  /** A placed run resolves at its offset to its text and the rest. */
  lemma PlacedResolves(buf: seq<byte>, o: nat, r: LabelRun, tail: Text, s: Text)
    requires Placed(buf, o, r, tail) && Join(r.labels) + tail == s
    ensures Resolves(buf, o, s)
  {
    forall h: nat, off1: int, t: Text | 1 <= h <= 126 - o
      ensures Resumed(buf, o, h, off1, t) == Decoded(t + s, off1, Ok)
    {
      LabelsEndDecode(buf, o, r.labels, r.ptr, tail, h, off1, t);
      assert t + Join(r.labels) + tail == t + s;
    }
  }

  /** Recording the suffix from `j` at `o`, where it resolves, keeps the
      map sound. */
  lemma RecordedValid(name: Text, j: nat, o: nat, comp: CompMap, buf: seq<byte>)
    requires j < |name| && LabelsValidFrom(name, j) && MapValid(buf, comp) && !Hit(name, j, comp)
    requires o < |buf| && o < 0x1_0000 && Resolves(buf, o, name[j..])
    ensures MapValid(buf, Recorded(name, j, o, comp))
  {
    assert !RootAt(name, j);
    var c := Recorded(name, j, o, comp);
    assert c == comp[name[j..] := o];
  }
}
