/** Fixed-width primitives of the wire format: big-endian 16- and 32-bit
    integers and IPv4/IPv6 addresses, each packed into a caller's buffer in
    place and unpacked from a byte sequence with a bounds check. */
module MsgHelper {
  import opened Types
  import Util

  /** The errors the codec reports. IndexOutOfRange stands for the run-time
      panic Go raises when the name decoder indexes past the buffer. */
  datatype Error =
    | OverflowPacking
    | OverflowUnpacking
    | InfiniteLoop
    | BadRdlength
    | IndexOutOfRange

  /** The `error` result of a Go call: nil or an error. */
  datatype Status = Ok | Fail(error: Error)

  /** The `(value, next offset, error)` triple every Go unpacker returns. */
  datatype Decoded<T> = Decoded(val: T, off: int, status: Status)

  /** Big-endian encodings. */
  function Be16(v: u16): (r: seq<byte>)
    ensures |r| == 2
  {
    [v / 0x100, v % 0x100]
  }

  function Be32(v: u32): (r: seq<byte>)
    ensures |r| == 4
  {
    Be16(v / 0x1_0000) + Be16(v % 0x1_0000)
  }

  /** The buffer `b` with `bytes` written from `off` on. */
  function PutBytes(b: seq<byte>, off: nat, bytes: seq<byte>): (r: seq<byte>)
    requires off + |bytes| <= |b|
    ensures |r| == |b|
  {
    b[..off] + bytes + b[off + |bytes|..]
  }

  /** PutBytes puts `bytes` at [off, off + |bytes|) and changes no other
      byte. */
  lemma PutBytesFrame(b: seq<byte>, off: nat, bytes: seq<byte>)
    requires off + |bytes| <= |b|
    ensures var r := PutBytes(b, off, bytes);
      r[..off] == b[..off] && r[off..off + |bytes|] == bytes && r[off + |bytes|..] == b[off + |bytes|..]
  {
    var r := PutBytes(b, off, bytes);
    assert r == b[..off] + bytes + b[off + |bytes|..];
  }

  /** Writing `w` and then `p` right after it is writing `w + p`. */
  lemma PutBytesAppend(b: seq<byte>, off: nat, w: seq<byte>, p: seq<byte>)
    requires off + |w| + |p| <= |b|
    ensures PutBytes(PutBytes(b, off, w), off + |w|, p) == PutBytes(b, off, w + p)
  {
    var l, r := PutBytes(PutBytes(b, off, w), off + |w|, p), PutBytes(b, off, w + p);
    assert |l| == |r|;
    forall k | 0 <= k < |l| ensures l[k] == r[k] {
      if k < off {
        assert l[k] == l[..off][k];
      } else if k < off + |w| {
        assert l[k] == PutBytes(b, off, w)[k] == w[k - off];
      } else if k < off + |w| + |p| {
        assert l[k] == p[k - off - |w|];
      }
    }
  }

  /** `n` zero bytes: the contents of a freshly made Go byte slice. */
  function Zeros(n: nat): (r: seq<byte>)
    ensures |r| == n && forall i :: 0 <= i < n ==> r[i] == 0
  {
    seq(n, _ => 0)
  }

  /** What a writer leaves behind: the buffer's contents, the offset it
      returns and its error. */
  datatype Written = Written(buf: seq<byte>, off: int, status: Status)

  /** `packUint16` on the buffer's contents: too little room is an overflow
      error that reports `len(buf)` and writes nothing; otherwise the value
      goes big-endian into [off, off+2), no other byte changes, and
      `unpackUint16` at `off` reads it back. */
  function Uint16Write(i: u16, b: seq<byte>, off: nat): (r: Written)
    ensures |r.buf| == |b|
    ensures r.status.Ok? <==> off + 2 <= |b|
    ensures r.status.Fail? ==> r == Written(b, |b|, Fail(OverflowPacking))
    ensures r.status.Ok? ==> r.off == off + 2
  {
    if off + 2 > |b| then Written(b, |b|, Fail(OverflowPacking))
    else Written(PutBytes(b, off, Be16(i)), off + 2, Ok)
  }

  /** `packUint32` on the buffer's contents: as Uint16Write, with four
      bytes. */
  function Uint32Write(i: u32, b: seq<byte>, off: nat): (r: Written)
    ensures |r.buf| == |b|
    ensures r.status.Ok? <==> off + 4 <= |b|
    ensures r.status.Fail? ==> r == Written(b, |b|, Fail(OverflowPacking))
    ensures r.status.Ok? ==> r.off == off + 4
  {
    if off + 4 > |b| then Written(b, |b|, Fail(OverflowPacking))
    else Written(PutBytes(b, off, Be32(i)), off + 4, Ok)
  }

  /** `packUint16`, writing the caller's buffer in place. */
  method PackUint16(i: u16, buf: array<byte>, off: nat) returns (off1: int, status: Status)
    modifies buf
    ensures Written(buf[..], off1, status) == Uint16Write(i, old(buf[..]), off)
  {
    if off + 2 > buf.Length {
      return buf.Length, Fail(OverflowPacking);
    }
    buf[off] := i / 0x100;
    buf[off + 1] := i % 0x100;
    return off + 2, Ok;
  }

  /** `packUint32`, writing the caller's buffer in place. */
  method PackUint32(i: u32, buf: array<byte>, off: nat) returns (off1: int, status: Status)
    modifies buf
    ensures Written(buf[..], off1, status) == Uint32Write(i, old(buf[..]), off)
  {
    if off + 4 > buf.Length {
      return buf.Length, Fail(OverflowPacking);
    }
    var hi, lo := i / 0x1_0000, i % 0x1_0000;
    buf[off] := hi / 0x100;
    buf[off + 1] := hi % 0x100;
    buf[off + 2] := lo / 0x100;
    buf[off + 3] := lo % 0x100;
    assert buf[..] == PutBytes(old(buf[..]), off, Be32(i));
    return off + 4, Ok;
  }

  /** `unpackUint16`: the two bytes at `off` read big-endian. */
  function UnpackUint16(buf: seq<byte>, off: nat): (r: Decoded<u16>)
    ensures r.status.Ok? <==> off + 2 <= |buf|
    ensures r.status.Fail? ==> r == Decoded(0, |buf|, Fail(OverflowUnpacking))
    ensures r.status.Ok? ==> r.off == off + 2
  {
    if off + 2 > |buf| then Decoded(0, |buf|, Fail(OverflowUnpacking))
    else Decoded(buf[off] as int * 0x100 + buf[off + 1], off + 2, Ok)
  }

  /** `unpackUint16` reads the two bytes at `off` as a big-endian value. */
  lemma Uint16Reads(buf: seq<byte>, off: nat)
    requires off + 2 <= |buf|
    ensures Be16(UnpackUint16(buf, off).val) == buf[off..off + 2]
  {
  }

  /** `unpackUint32`: the four bytes at `off` read big-endian. */
  function UnpackUint32(buf: seq<byte>, off: nat): (r: Decoded<u32>)
    ensures r.status.Ok? <==> off + 4 <= |buf|
    ensures r.status.Fail? ==> r == Decoded(0, |buf|, Fail(OverflowUnpacking))
    ensures r.status.Ok? ==> r.off == off + 4
  {
    if off + 4 > |buf| then Decoded(0, |buf|, Fail(OverflowUnpacking))
    else
      var hi := buf[off] as int * 0x100 + buf[off + 1];
      var lo := buf[off + 2] as int * 0x100 + buf[off + 3];
      Decoded(hi * 0x1_0000 + lo, off + 4, Ok)
  }

  /** `unpackUint32` reads the four bytes at `off` as a big-endian value. */
  lemma Uint32Reads(buf: seq<byte>, off: nat)
    requires off + 4 <= |buf|
    ensures Be32(UnpackUint32(buf, off).val) == buf[off..off + 4]
  {
  }

  /** Reading back what PackUint16 wrote gives the value and the same next
      offset, whatever else the buffer holds. */
  lemma Uint16RoundTrip(b: seq<byte>, off: nat, v: u16)
    requires off + 2 <= |b|
    ensures UnpackUint16(PutBytes(b, off, Be16(v)), off) == Decoded(v, off + 2, Ok)
  {
    var buf := PutBytes(b, off, Be16(v));
    PutBytesFrame(b, off, Be16(v));
    Uint16Reads(buf, off);
    Be16Injective(UnpackUint16(buf, off).val, v);
  }

  /** Reading back what PackUint32 wrote gives the value and the same next
      offset. */
  lemma Uint32RoundTrip(b: seq<byte>, off: nat, v: u32)
    requires off + 4 <= |b|
    ensures UnpackUint32(PutBytes(b, off, Be32(v)), off) == Decoded(v, off + 4, Ok)
  {
    var buf := PutBytes(b, off, Be32(v));
    PutBytesFrame(b, off, Be32(v));
    Uint32Reads(buf, off);
    Be32Injective(UnpackUint32(buf, off).val, v);
  }

  lemma Be16Injective(x: u16, y: u16)
    requires Be16(x) == Be16(y)
    ensures x == y
  {
    assert Be16(x)[0] == Be16(y)[0] && Be16(x)[1] == Be16(y)[1];
  }

  lemma Be32Injective(x: u32, y: u32)
    requires Be32(x) == Be32(y)
    ensures x == y
  {
    assert Be32(x)[..2] == Be16(x / 0x1_0000) && Be32(y)[..2] == Be16(y / 0x1_0000);
    assert Be32(x)[2..] == Be16(x % 0x1_0000) && Be32(y)[2..] == Be16(y % 0x1_0000);
    Be16Injective(x / 0x1_0000, y / 0x1_0000);
    Be16Injective(x % 0x1_0000, y % 0x1_0000);
  }

  const IPv4Len: nat := 4
  const IPv6Len: nat := 16

  /** `net.IP.To4`: a 4-byte address as is, the last four bytes of an
      IPv4-mapped 16-byte address (ten zero bytes, then 0xff 0xff), and nil
      (no bytes) for anything else. */
  function To4(a: seq<byte>): (r: seq<byte>)
    ensures |r| == 0 || |r| == 4
    ensures |a| == 4 ==> r == a
    ensures |a| != 4 && |a| != 16 ==> r == []
  {
    if |a| == IPv4Len then a
    else if |a| == IPv6Len && IsIPv4Mapped(a) then a[12..16]
    else []
  }

  predicate IsIPv4Mapped(a: seq<byte>)
    requires |a| == 16
  {
    (forall i :: 0 <= i < 10 ==> a[i] == 0) && a[10] == 0xff && a[11] == 0xff
  }

  /** `unpackDataA`: the four bytes at `off`, copied, or an overflow error
      that reports `len(msg)` when fewer remain. */
  function UnpackDataA(msg: seq<byte>, off: nat): (r: Decoded<seq<byte>>)
    ensures r.status.Ok? <==> off + IPv4Len <= |msg|
    ensures r.status.Fail? ==> r == Decoded([], |msg|, Fail(OverflowUnpacking))
    ensures r.status.Ok? ==> r.off == off + 4 && |r.val| == 4 && msg[off..r.off] == r.val
  {
    if off + IPv4Len > |msg| then Decoded([], |msg|, Fail(OverflowUnpacking))
    else Decoded(Util.CloneSlice(Util.Of(msg[off..off + IPv4Len])).Elems(), off + IPv4Len, Ok)
  }

  /** `unpackDataAAAA`: the sixteen bytes at `off`, copied, or an overflow
      error that reports `len(msg)` when fewer remain. */
  function UnpackDataAAAA(msg: seq<byte>, off: nat): (r: Decoded<seq<byte>>)
    ensures r.status.Ok? <==> off + IPv6Len <= |msg|
    ensures r.status.Fail? ==> r == Decoded([], |msg|, Fail(OverflowUnpacking))
    ensures r.status.Ok? ==> r.off == off + 16 && |r.val| == 16 && msg[off..r.off] == r.val
  {
    if off + IPv6Len > |msg| then Decoded([], |msg|, Fail(OverflowUnpacking))
    else Decoded(Util.CloneSlice(Util.Of(msg[off..off + IPv6Len])).Elems(), off + IPv6Len, Ok)
  }

  /** `copy(msg[off:], src)` where `src` fits. */
  method CopyInto(src: seq<byte>, buf: array<byte>, off: nat)
    requires off + |src| <= buf.Length
    modifies buf
    ensures buf[..] == PutBytes(old(buf[..]), off, src)
  {
    forall j | 0 <= j < |src| {
      buf[off + j] := src[j];
    }
  }

  /** `packDataA` on the buffer's contents: an empty address writes nothing
      and keeps `off`; a 4- or 16-byte address copies `To4(a)` (nothing for
      a 16-byte address that is not IPv4-mapped) and advances 4 when 4 bytes
      remain; every other length, and too little room, is an overflow error
      that reports `len(msg)` and writes nothing. A 4-byte address reads
      back with `unpackDataA`. */
  function DataAWrite(a: seq<byte>, b: seq<byte>, off: nat): (r: Written)
    ensures |r.buf| == |b|
    ensures r.status.Fail? ==> r == Written(b, |b|, Fail(OverflowPacking))
    ensures |a| == 0 ==> r == Written(b, off, Ok)
    ensures |a| != 0 && |a| != 4 && |a| != 16 ==> r.status.Fail?
    ensures (|a| == 4 || |a| == 16) ==> (r.status.Ok? <==> off + 4 <= |b|)
    ensures (|a| == 4 || |a| == 16) && r.status.Ok? ==> r.off == off + 4
  {
    if |a| == IPv4Len || |a| == IPv6Len then
      if off + IPv4Len > |b| then Written(b, |b|, Fail(OverflowPacking))
      else Written(PutBytes(b, off, To4(a)), off + IPv4Len, Ok)
    else if |a| == 0 then Written(b, off, Ok)
    else Written(b, |b|, Fail(OverflowPacking))
  }

  /** `packDataAAAA` as written: only a 16-byte or an empty address is
      accepted; for a 16-byte one it checks room for 4 bytes only, copies
      `To4(a)` (nothing unless the address is IPv4-mapped) and yet advances
      16, so the next offset may lie past the end of the buffer. At most
      four bytes change. */
  function DataAAAAWrite(a: seq<byte>, b: seq<byte>, off: nat): (r: Written)
    ensures |r.buf| == |b|
    ensures r.status.Fail? ==> r == Written(b, |b|, Fail(OverflowPacking))
    ensures |a| == 0 ==> r == Written(b, off, Ok)
    ensures |a| != 0 && |a| != 16 ==> r.status.Fail?
    ensures |a| == 16 ==> (r.status.Ok? <==> off + 4 <= |b|)
    ensures |a| == 16 && r.status.Ok? ==> r.off == off + 16
  {
    if |a| == IPv6Len then
      if off + IPv4Len > |b| then Written(b, |b|, Fail(OverflowPacking))
      else Written(PutBytes(b, off, To4(a)), off + IPv6Len, Ok)
    else if |a| == 0 then Written(b, off, Ok)
    else Written(b, |b|, Fail(OverflowPacking))
  }

  /** `packDataA` changes at most the four bytes from `off` on, and a
      4-byte address reads back with `unpackDataA`. */
  lemma DataAWrites(a: seq<byte>, b: seq<byte>, off: nat)
    ensures var r := DataAWrite(a, b, off);
      (|a| == 4 || |a| == 16) && r.status.Ok? ==> r.buf[..off] == b[..off] && r.buf[off + 4..] == b[off + 4..]
    ensures var r := DataAWrite(a, b, off);
      |a| == 4 && r.status.Ok? ==> UnpackDataA(r.buf, off) == Decoded(a, off + 4, Ok)
  {
    if (|a| == 4 || |a| == 16) && off + 4 <= |b| {
      PutBytesFrame(b, off, To4(a));
    }
  }

  /** `packDataAAAA` changes at most the four bytes from `off` on, and
      none at all for an address that is not IPv4-mapped. */
  lemma DataAAAAWrites(a: seq<byte>, b: seq<byte>, off: nat)
    ensures var r := DataAAAAWrite(a, b, off);
      |a| == 16 && r.status.Ok? ==> r.buf[..off] == b[..off] && r.buf[off + 4..] == b[off + 4..]
    ensures var r := DataAAAAWrite(a, b, off);
      |a| == 16 && r.status.Ok? && !IsIPv4Mapped(a) ==> r.buf == b
  {
    if |a| == 16 && off + 4 <= |b| {
      PutBytesFrame(b, off, To4(a));
    }
  }

  /** `packDataA`, writing the caller's buffer in place. */
  method PackDataA(a: seq<byte>, msg: array<byte>, off: nat) returns (off1: int, status: Status)
    modifies msg
    ensures Written(msg[..], off1, status) == DataAWrite(a, old(msg[..]), off)
  {
    if |a| == IPv4Len || |a| == IPv6Len {
      if off + IPv4Len > msg.Length {
        return msg.Length, Fail(OverflowPacking);
      }
      CopyInto(To4(a), msg, off);
      return off + IPv4Len, Ok;
    } else if |a| == 0 {
      return off, Ok;
    } else {
      return msg.Length, Fail(OverflowPacking);
    }
  }

  /** `packDataAAAA`, writing the caller's buffer in place. */
  method PackDataAAAA(a: seq<byte>, msg: array<byte>, off: nat) returns (off1: int, status: Status)
    modifies msg
    ensures Written(msg[..], off1, status) == DataAAAAWrite(a, old(msg[..]), off)
  {
    if |a| == IPv6Len {
      if off + IPv4Len > msg.Length {
        return msg.Length, Fail(OverflowPacking);
      }
      CopyInto(To4(a), msg, off);
      return off + IPv6Len, Ok;
    } else if |a| == 0 {
      return off, Ok;
    } else {
      return msg.Length, Fail(OverflowPacking);
    }
  }

  /** The AAAA packer loses every 16-byte address that is not IPv4-mapped:
      it reports success but writes nothing, so unpacking yields the bytes
      the buffer already held (zeros in a fresh buffer), not the address. */
  lemma DataAAAALosesAddress(a: seq<byte>)
    requires |a| == 16 && !IsIPv4Mapped(a) && a != Zeros(16)
    ensures var w := DataAAAAWrite(a, Zeros(16), 0);
      w.status.Ok? && UnpackDataAAAA(w.buf, 0).status.Ok? && UnpackDataAAAA(w.buf, 0).val != a
  {
    var w := DataAAAAWrite(a, Zeros(16), 0);
    assert w.buf == Zeros(16);
    assert w.buf[0..16] == Zeros(16);
  }
}
