/** Constants of the DNS codec: header size, flag bits, type, class and
    rcode codes, and the registry that maps a type code to the record
    variant it constructs. */
module Types {

  /** An octet of the wire format. */
  type byte = x: int | 0 <= x < 0x100

  /** Go's `uint16` and `uint32`. */
  type u16 = x: int | 0 <= x < 0x1_0000
  type u32 = x: int | 0 <= x < 0x1_0000_0000

  /** A Go string: an immutable run of bytes. Domain names are Go strings,
      and the decoder builds them from the buffer's bytes. */
  type Text = seq<byte>

  /** The byte '.' and the root name ".". */
  const Dot: byte := 46
  const Root: Text := [Dot]

  /** Size of the fixed message header in bytes. */
  const HeaderSize: nat := 12

  /** Single-bit masks of the 16-bit flag word. */
  const BitQR: bv16 := 1 << 15
  const BitAA: bv16 := 1 << 10
  const BitTC: bv16 := 1 << 9
  const BitRD: bv16 := 1 << 8
  const BitRA: bv16 := 1 << 7

  /** Bits 11..14 carry the Opcode, bits 0..3 the Rcode. */
  const OpcodeField: bv16 := 0x7800
  const RcodeField: bv16 := 0x000F

  const TypeNone: u16 := 0
  const TypeA: u16 := 1
  const TypeNS: u16 := 2
  const TypeCNAME: u16 := 5
  const TypeSOA: u16 := 6
  const TypePTR: u16 := 12
  const TypeMX: u16 := 15
  const TypeTXT: u16 := 16
  const TypeAAAA: u16 := 28

  const ClassINET: u16 := 1

  const RcodeSuccess: int := 0
  const RcodeFormatError: int := 1
  const RcodeServerFailure: int := 2
  const RcodeNameError: int := 3
  const RcodeNotImplemented: int := 4
  const RcodeRefused: int := 5

  /** The record variants the registry can construct. */
  datatype Kind = KA | KAAAA | KNS | KCNAME | KSOA | KPTR | KMX | KTXT

  /** The type code each variant is registered under. */
  function KindCode(k: Kind): u16
  {
    match k
    case KA => TypeA
    case KAAAA => TypeAAAA
    case KNS => TypeNS
    case KCNAME => TypeCNAME
    case KSOA => TypeSOA
    case KPTR => TypePTR
    case KMX => TypeMX
    case KTXT => TypeTXT
  }

  /** The `TypeToRR` table: which variant a type code constructs, if any. */
  function TypeToRR(code: u16): (r: Option<Kind>)
    ensures r.Some? ==> KindCode(r.value) == code
  {
    if code == TypeA then Some(KA)
    else if code == TypeAAAA then Some(KAAAA)
    else if code == TypeNS then Some(KNS)
    else if code == TypeCNAME then Some(KCNAME)
    else if code == TypeSOA then Some(KSOA)
    else if code == TypePTR then Some(KPTR)
    else if code == TypeMX then Some(KMX)
    else if code == TypeTXT then Some(KTXT)
    else None
  }

  /** The keys of the registry. */
  function RegisteredCodes(): set<u16>
  {
    {TypeA, TypeNS, TypeCNAME, TypeSOA, TypePTR, TypeMX, TypeTXT, TypeAAAA}
  }

  datatype Option<T> = None | Some(value: T)

  /** A type code is registered exactly when it is one of the eight codes
      1, 2, 5, 6, 12, 15, 16 and 28; in particular TypeNone is not. */
  lemma RegistryKeys(code: u16)
    ensures TypeToRR(code).Some? <==> code in {1, 2, 5, 6, 12, 15, 16, 28}
    ensures TypeToRR(TypeNone).None?
  {
  }

  /** Every variant is registered under its own code and under no other:
      the registry and KindCode are inverse to each other. */
  lemma RegistryConstructsNamedVariant(code: u16, k: Kind)
    ensures TypeToRR(code) == Some(k) <==> KindCode(k) == code
  {
  }

  /** The five flag masks are distinct single bits and lie outside the
      Opcode and Rcode fields. */
  lemma FlagBitsDisjoint()
    ensures BitQR == 0x8000 && BitAA == 0x0400 && BitTC == 0x0200
    ensures BitRD == 0x0100 && BitRA == 0x0080
    ensures (BitQR | BitAA | BitTC | BitRD | BitRA) & (OpcodeField | RcodeField) == 0
    ensures BitQR & BitAA == 0 && BitQR & BitTC == 0 && BitQR & BitRD == 0 && BitQR & BitRA == 0
    ensures BitAA & BitTC == 0 && BitAA & BitRD == 0 && BitAA & BitRA == 0
    ensures BitTC & BitRD == 0 && BitTC & BitRA == 0 && BitRD & BitRA == 0
  {
  }
}
