/**
 * First-byte classification of datagrams (IceDtlsTransportManager.java, the
 * predicate of the DTLS packet path). A datagram goes to the DTLS path when
 * its first byte, read as an unsigned value, lies in 20..63: the DTLS range
 * of the demultiplexing scheme of section 7 of RFC 7983 (which updates
 * section 5.1.2 of RFC 5764).
 */
module Packets {
  import opened Common

  /** A Java `byte`: a signed two's-complement 8-bit value. */
  newtype JByte = x: int | -128 <= x < 128

  /** The bytes of a packet's buffer, index 0 up to the buffer's limit. */
  type Packet = seq<JByte>

  /** `ByteBuffer.get(0)` on a buffer whose limit is 0 throws. */
  datatype PacketError = IndexOutOfBounds

  /** Inclusive bounds of the DTLS range of the first byte. */
  const DtlsFirstByteMin: int := 20
  const DtlsFirstByteMax: int := 63

  /**
   * Java's `b & 0xFF`: the byte is widened to a two's-complement `int` and
   * its low eight bits are kept. On a two's-complement integer this is the
   * Euclidean remainder modulo 256, which is Dafny's `%`.
   */
  function MaskLowByte(b: JByte): (u: int)
    ensures 0 <= u < 256
    ensures u == if b < 0 then b as int + 256 else b as int
  {
    (b as int) % 256
  }

  /** The byte whose unsigned reading is `u`. */
  function ByteOfUnsigned(u: int): (b: JByte)
    requires 0 <= u < 256
    ensures MaskLowByte(b) == u
  {
    if u < 128 then u as JByte else (u - 256) as JByte
  }

  /**
   * The DTLS path's predicate: read byte 0 as unsigned and test it against
   * 20..63. Reading byte 0 of an empty buffer throws.
   */
  function IsDtlsPacket(p: Packet): (r: Result<bool, PacketError>)
    ensures r.Failure? <==> |p| == 0
    ensures r.Success? ==> (r.value <==> DtlsFirstByteMin <= p[0] as int <= DtlsFirstByteMax)
  {
    if |p| == 0 then Failure(IndexOutOfBounds)
    else
      var b := MaskLowByte(p[0]);
      Success(b >= DtlsFirstByteMin && b <= DtlsFirstByteMax)
  }

  /**
   * Reference reading without the mask: since the DTLS range lies below 128,
   * the signed value of byte 0 can be tested directly; negative bytes
   * (128..255 unsigned) never match.
   */
  lemma DtlsBySignedValue(p: Packet)
    ensures IsDtlsPacket(p) == if |p| == 0 then Failure(IndexOutOfBounds)
                               else Success(20 <= p[0] <= 63)
  {
  }

  /** Every unsigned value 0..255 of the first byte is classified by the range alone. */
  lemma DtlsByUnsignedValue(u: int, rest: Packet)
    requires 0 <= u < 256
    ensures IsDtlsPacket([ByteOfUnsigned(u)] + rest) == Success(20 <= u <= 63)
  {
  }

  /** A first byte that is negative as a Java byte never goes to the DTLS path. */
  lemma NegativeFirstByteNotDtls(p: Packet)
    requires |p| > 0 && p[0] < 0
    ensures IsDtlsPacket(p) == Success(false)
  {
  }

  /** Classification fails exactly on the empty buffer and only reads byte 0. */
  lemma DtlsDependsOnFirstByteOnly(p: Packet, q: Packet)
    requires |p| > 0 && |q| > 0 && p[0] == q[0]
    ensures IsDtlsPacket(p) == IsDtlsPacket(q)
  {
  }
}
