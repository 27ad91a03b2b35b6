/**
 * The framing rules of src/uwsc.c, as functions on byte sequences: what
 * parse_frame reads from the head of the received bytes (section 5.2 of
 * RFC 6455), the header uwsc_send writes in front of a client frame, and the
 * masking of section 5.3 of RFC 6455.
 */
module Frame {
  import opened Bytes
  import opened Wrappers

  // Opcodes, src/uwsc.h:69-76.
  const OP_CONTINUE: bv8 := 0x0
  const OP_TEXT: bv8 := 0x1
  const OP_BINARY: bv8 := 0x2
  const OP_CLOSE: bv8 := 0x8
  const OP_PING: bv8 := 0x9
  const OP_PONG: bv8 := 0xA

  /** INT_MAX of the C int that carries a payload length into uwsc_send. */
  const INT_MAX: nat := 0x7FFF_FFFF

  /** 2^64: uint64_t arithmetic wraps modulo this. */
  const U64_MODULUS: nat := 0x1_0000_0000_0000_0000

  type MaskKey = k: seq<bv8> | |k| == 4 witness [0, 0, 0, 0]

  /** What parse_frame finds at the head of the unconsumed bytes. */
  datatype Decoded =
    | Incomplete
    | Masked
    | Frame(fin: bool, opcode: bv8, headerLen: nat, payloadLen: nat)

  /** ntohs of two received bytes. */
  function Net16(b: seq<bv8>): nat
    requires |b| == 2
  {
    b[0] as nat * 0x100 + b[1] as nat
  }

  /** ntohl of four received bytes. */
  function Net32(b: seq<bv8>): nat
    requires |b| == 4
  {
    ((b[0] as nat * 0x100 + b[1] as nat) * 0x100 + b[2] as nat) * 0x100 + b[3] as nat
  }

  /**
   * The payload length field: the 7-bit code in byte 1, or the 16-bit or
   * 64-bit network-order value after it. Yields the header length and the
   * payload length, or None while the extended bytes are not all there.
   */
  function LengthField(data: seq<bv8>): Option<(nat, nat)>
    requires |data| >= 2
  {
    var code := data[1] & 0x7F;
    if code == 126 then
      if |data| < 4 then None else Some((4, Net16(data[2..4])))
    else if code == 127 then
      if |data| < 10 then None
      else Some((10, Net32(data[2..6]) * 0x1_0000_0000 + Net32(data[6..10])))
    else
      Some((2, code as nat))
  }

  /**
   * parse_frame's decision: too short, masked (refused), or a whole frame
   * whose header and payload are both buffered.
   */
  function DecodeFrame(data: seq<bv8>): Decoded {
    if |data| < 2 then Incomplete
    else if data[1] & 0x80 != 0 then Masked
    else match LengthField(data)
      case None => Incomplete
      case Some((h, n)) =>
        if |data| < h + n then Incomplete
        else Frame(data[0] & 0x80 != 0, data[0] & 0x0F, h, n)
  }

  /** The payload of a decoded frame. */
  function Payload(data: seq<bv8>): seq<bv8>
    requires DecodeFrame(data).Frame?
  {
    var f := DecodeFrame(data);
    data[f.headerLen..f.headerLen + f.payloadLen]
  }

  /**
   * A decoded frame has a 2, 4 or 10 byte header chosen by the length code,
   * fits in the bytes at hand, and its lengths are the ones the header
   * spells out.
   */
  lemma DecodedFrameShape(data: seq<bv8>)
    requires DecodeFrame(data).Frame?
    ensures var f := DecodeFrame(data);
      && f.headerLen + f.payloadLen <= |data|
      && data[1] & 0x80 == 0
      && f.fin == (data[0] & 0x80 == 0x80) && f.opcode == data[0] & 0x0F
      && (data[1] & 0x7F < 126 ==> f.headerLen == 2 && f.payloadLen == (data[1] & 0x7F) as nat)
      && (data[1] & 0x7F == 126 ==> f.headerLen == 4 && f.payloadLen < 0x1_0000)
      && (data[1] & 0x7F == 127 ==> f.headerLen == 10 && f.payloadLen < U64_MODULUS)
  {
  }

  /**
   * More bytes never change a decision already taken: a whole frame, or a
   * masked one, is decoded the same whatever follows it.
   */
  lemma DecodeIsPrefixStable(data: seq<bv8>, more: seq<bv8>)
    requires !DecodeFrame(data).Incomplete?
    ensures DecodeFrame(data + more) == DecodeFrame(data)
  {
    var d := data + more;
    assert d[..|data|] == data;
    if |data| >= 10 {
      assert d[2..4] == data[2..4] && d[2..6] == data[2..6] && d[6..10] == data[6..10];
    } else if |data| >= 4 {
      assert d[2..4] == data[2..4];
    }
  }

  /**
   * parse_frame consumes nothing until a frame is wholly buffered: every
   * proper prefix of a decoded frame is Incomplete.
   */
  lemma TruncatedFrameIsIncomplete(data: seq<bv8>, k: nat)
    requires DecodeFrame(data).Frame?
    requires k < DecodeFrame(data).headerLen + DecodeFrame(data).payloadLen
    ensures DecodeFrame(data[..k]).Incomplete?
  {
    var p := data[..k];
    if k >= 2 {
      assert p[1] == data[1];
      var code := data[1] & 0x7F;
      if code == 126 && k >= 4 {
        assert p[2..4] == data[2..4];
      } else if code == 127 && k >= 10 {
        assert p[2..6] == data[2..6] && p[6..10] == data[6..10];
      }
    }
  }

  /** The bytes 0..3 of a 32-bit value, most significant first. */
  function NetworkBytes4(v: nat): seq<bv8>
    requires v < 0x1_0000_0000
  {
    [((v / 0x100_0000) % 256) as bv8, ((v / 0x1_0000) % 256) as bv8, ((v / 0x100) % 256) as bv8, (v % 256) as bv8]
  }

  /**
   * The header uwsc_send writes for a payload of `len` bytes: FIN and
   * opcode, the mask bit with the 7-bit, 16-bit or 64-bit length form, then
   * the masking key.
   */
  function EncodeHeader(op: bv8, len: nat, key: MaskKey): (h: seq<bv8>)
    requires len <= INT_MAX - 14
    ensures |h| == (if len < 126 then 6 else if len < 0x1_0000 then 8 else 14)
    ensures h[0] == 0x80 | op && h[1] & 0x80 == 0x80 && h[|h| - 4..] == key
  {
    if len < 126 then
      [0x80 | op, 0x80 | (len as bv8)] + key
    else if len < 0x1_0000 then
      [0x80 | op, 0x80 | 126, ((len / 256) % 256) as bv8, (len % 256) as bv8] + key
    else
      [0x80 | op, 0x80 | 127, 0, 0, 0, 0] + NetworkBytes4(len) + key
  }

  /** Byte i XORed with key[i % 4], section 5.3 of RFC 6455. */
  function Mask(payload: seq<bv8>, key: MaskKey): (m: seq<bv8>)
    ensures |m| == |payload|
  {
    seq(|payload|, i requires 0 <= i < |payload| => payload[i] ^ key[i % 4])
  }

  /** Masking twice with the same key gives the payload back. */
  lemma MaskIsInvolution(payload: seq<bv8>, key: MaskKey)
    ensures Mask(Mask(payload, key), key) == payload
  {
    var m := Mask(payload, key);
    forall i | 0 <= i < |payload|
      ensures Mask(m, key)[i] == payload[i]
    {
      XorTwice(payload[i], key[i % 4]);
    }
  }

  lemma XorTwice(b: bv8, k: bv8)
    ensures (b ^ k) ^ k == b
  {
  }

  /** A whole client frame as uwsc_send writes it: header, then the masked payload. */
  function ClientFrame(op: bv8, payload: seq<bv8>, key: MaskKey): seq<bv8>
    requires |payload| <= INT_MAX - 14
  {
    EncodeHeader(op, |payload|, key) + Mask(payload, key)
  }

  lemma NetworkBytes4Value(v: nat)
    requires v < 0x1_0000_0000
    ensures Net32(NetworkBytes4(v)) == v
  {
    var q1, d := v / 0x100, v % 0x100;
    var q2, c := q1 / 0x100, q1 % 0x100;
    var a, b := q2 / 0x100, q2 % 0x100;
    assert v / 0x1_0000 == q2;
    assert v / 0x100_0000 == a && a < 0x100;
    ByteValue(a); ByteValue(b); ByteValue(c); ByteValue(d);
  }

  /**
   * The length field uwsc_send writes decodes, under the rules parse_frame
   * applies, to the payload length it was given, with the header length
   * that precedes the masking key.
   */
  lemma LengthFieldRoundTrip(op: bv8, len: nat, key: MaskKey)
    requires len <= INT_MAX - 14
    ensures var h := EncodeHeader(op, len, key); LengthField(h) == Some((|h| - 4, len))
  {
    if len < 126 {
      ShortLengthRoundTrip(op, len, key);
    } else if len < 0x1_0000 {
      MediumLengthRoundTrip(op, len, key);
    } else {
      LongLengthRoundTrip(op, len, key);
    }
  }

  lemma ShortLengthRoundTrip(op: bv8, len: nat, key: MaskKey)
    requires len < 126
    ensures LengthField(EncodeHeader(op, len, key)) == Some((2, len))
  {
    var h := EncodeHeader(op, len, key);
    var b := len as bv8;
    ByteValue(len);
    assert h[1] == 0x80 | b;
    SevenBitCode(b);
  }

  lemma MediumLengthRoundTrip(op: bv8, len: nat, key: MaskKey)
    requires 126 <= len < 0x1_0000
    ensures LengthField(EncodeHeader(op, len, key)) == Some((4, len))
  {
    var h := EncodeHeader(op, len, key);
    var hi, lo := (len / 256) % 256, len % 256;
    ByteValue(hi); ByteValue(lo);
    assert h[1] == 0x80 | 126;
    assert h[2..4] == [hi as bv8, lo as bv8];
    assert Net16(h[2..4]) == len;
  }

  lemma LongLengthRoundTrip(op: bv8, len: nat, key: MaskKey)
    requires 0x1_0000 <= len <= INT_MAX - 14
    ensures LengthField(EncodeHeader(op, len, key)) == Some((10, len))
  {
    var h := EncodeHeader(op, len, key);
    assert h[1] == 0x80 | 127;
    assert h[2..6] == [0, 0, 0, 0];
    assert Net32(h[2..6]) == 0;
    assert h[6..10] == NetworkBytes4(len);
    NetworkBytes4Value(len);
  }

  lemma SevenBitCode(b: bv8)
    requires b < 126
    ensures (0x80 | b) & 0x7F == b
  {
  }

  /**
   * What a server recovers from a client frame by the rules of sections
   * 5.2 and 5.3 of RFC 6455: the FIN bit, the opcode and the unmasked
   * payload, when the frame is masked and whole.
   */
  function UnmaskClientFrame(bytes: seq<bv8>): Option<(bool, bv8, seq<bv8>)> {
    if |bytes| < 2 || bytes[1] & 0x80 == 0 then None
    else match LengthField(bytes)
      case None => None
      case Some((h, n)) =>
        if |bytes| != h + 4 + n then None
        else Some((bytes[0] & 0x80 != 0, bytes[0] & 0x0F, Mask(bytes[h + 4..], bytes[h..h + 4])))
  }

  /** A length field already complete in `h` reads the same in any extension of `h`. */
  lemma LengthFieldOfExtension(h: seq<bv8>, more: seq<bv8>)
    requires |h| >= 2 && LengthField(h).Some?
    ensures LengthField(h + more) == LengthField(h)
  {
    var f := h + more;
    assert f[1] == h[1];
    if |h| >= 10 {
      assert f[2..4] == h[2..4] && f[2..6] == h[2..6] && f[6..10] == h[6..10];
    } else if |h| >= 4 {
      assert f[2..4] == h[2..4];
    }
  }

  /** Every frame uwsc_send writes carries, for the server, exactly the opcode and payload it was given. */
  lemma ClientFrameRoundTrip(op: bv8, payload: seq<bv8>, key: MaskKey)
    requires op <= 0x0F && |payload| <= INT_MAX - 14
    ensures UnmaskClientFrame(ClientFrame(op, payload, key)) == Some((true, op, payload))
  {
    var h := EncodeHeader(op, |payload|, key);
    var m := Mask(payload, key);
    var f := h + m;
    LengthFieldRoundTrip(op, |payload|, key);
    LengthFieldOfExtension(h, m);
    assert f[0] == h[0] && f[1] == h[1];
    assert f[|h| - 4..|h|] == key;
    assert f[|h|..] == m;
    MaskIsInvolution(payload, key);
    OpcodeBits(op);
  }

  lemma OpcodeBits(op: bv8)
    requires op <= 0x0F
    ensures (0x80 | op) & 0x80 != 0 && (0x80 | op) & 0x0F == op
  {
  }

  /**
   * The header a server puts before a payload of `len` bytes, by section
   * 5.2 of RFC 6455: FIN bit and opcode, then the shortest length form, and
   * no mask.
   */
  function ServerHeader(fin: bool, op: bv8, len: nat): (h: seq<bv8>)
    requires op <= 0x0F && len < U64_MODULUS
    ensures |h| == (if len < 126 then 2 else if len < 0x1_0000 then 4 else 10)
  {
    var b0 := (if fin then 0x80 else 0) | op;
    if len < 126 then [b0, len as bv8]
    else if len < 0x1_0000 then [b0, 126, ((len / 256) % 256) as bv8, (len % 256) as bv8]
    else [b0, 127] + NetworkBytes4(len / 0x1_0000_0000) + NetworkBytes4(len % 0x1_0000_0000)
  }

  /**
   * parse_frame reads a server frame back: the FIN bit, the opcode and the
   * payload the server framed, whatever bytes follow it.
   */
  lemma ServerFrameDecodes(fin: bool, op: bv8, payload: seq<bv8>, more: seq<bv8>)
    requires op <= 0x0F && |payload| < U64_MODULUS
    ensures var h := ServerHeader(fin, op, |payload|); var d := h + payload + more;
      && DecodeFrame(d) == Frame(fin, op, |h|, |payload|)
      && d[|h|..|h| + |payload|] == payload
  {
    var h := ServerHeader(fin, op, |payload|);
    ServerLengthField(fin, op, |payload|);
    FinOpcodeBits(fin, op);
    assert h[0] == (if fin then 0x80 else 0) | op;
    HeaderThenPayload(h, payload, more, fin, op);
  }

  /** A whole unmasked header whose length field reads back, then its payload, decodes as one frame. */
  lemma HeaderThenPayload(h: seq<bv8>, payload: seq<bv8>, more: seq<bv8>, fin: bool, op: bv8)
    requires |h| >= 2 && LengthField(h) == Some((|h|, |payload|)) && h[1] & 0x80 == 0
    requires (h[0] & 0x80 != 0) == fin && h[0] & 0x0F == op
    ensures var d := h + payload + more;
      && DecodeFrame(d) == Frame(fin, op, |h|, |payload|)
      && d[|h|..|h| + |payload|] == payload
  {
    var d := h + payload + more;
    assert d == h + (payload + more);
    LengthFieldOfExtension(h, payload + more);
    assert d[0] == h[0] && d[1] == h[1];
    assert d[|h|..|h| + |payload|] == payload;
  }

  lemma ServerLengthField(fin: bool, op: bv8, len: nat)
    requires op <= 0x0F && len < U64_MODULUS
    ensures var h := ServerHeader(fin, op, len); LengthField(h) == Some((|h|, len)) && h[1] & 0x80 == 0
  {
    var b0 := (if fin then 0x80 else 0) | op;
    if len < 126 {
      ServerShortLength(b0, len);
    } else if len < 0x1_0000 {
      ServerMediumLength(b0, len);
    } else {
      ServerLongLength(b0, len);
    }
  }

  lemma ServerShortLength(b0: bv8, len: nat)
    requires len < 126
    ensures var h := [b0, len as bv8]; LengthField(h) == Some((2, len)) && h[1] & 0x80 == 0
  {
    ByteValue(len);
    SevenBitValue(len as bv8);
  }

  lemma ServerMediumLength(b0: bv8, len: nat)
    requires 126 <= len < 0x1_0000
    ensures var h := [b0, 126, ((len / 256) % 256) as bv8, (len % 256) as bv8];
      LengthField(h) == Some((4, len)) && h[1] & 0x80 == 0
  {
    var h := [b0, 126, ((len / 256) % 256) as bv8, (len % 256) as bv8];
    Net16Bytes(len);
    assert h[2..4] == [((len / 256) % 256) as bv8, (len % 256) as bv8];
  }

  /** The two network-order bytes of a 16-bit value read back as that value. */
  lemma Net16Bytes(len: nat)
    requires len < 0x1_0000
    ensures Net16([((len / 256) % 256) as bv8, (len % 256) as bv8]) == len
  {
    var hi, lo := len / 256, len % 256;
    assert hi < 256 && len == hi * 256 + lo;
    assert hi % 256 == hi;
    ByteValue(hi);
    ByteValue(lo);
  }

  lemma ServerLongLength(b0: bv8, len: nat)
    requires 0x1_0000 <= len < U64_MODULUS
    ensures var h := [b0, 127] + NetworkBytes4(len / 0x1_0000_0000) + NetworkBytes4(len % 0x1_0000_0000);
      LengthField(h) == Some((10, len)) && h[1] & 0x80 == 0
  {
    var hi, lo := len / 0x1_0000_0000, len % 0x1_0000_0000;
    var h := [b0, 127] + NetworkBytes4(hi) + NetworkBytes4(lo);
    assert h[2..6] == NetworkBytes4(hi);
    assert h[6..10] == NetworkBytes4(lo);
    NetworkBytes4Value(hi);
    NetworkBytes4Value(lo);
    assert hi * 0x1_0000_0000 + lo == len;
  }

  lemma SevenBitValue(b: bv8)
    requires b < 126
    ensures b & 0x7F == b && b & 0x80 == 0
  {
  }

  lemma FinOpcodeBits(fin: bool, op: bv8)
    requires op <= 0x0F
    ensures var b0 := (if fin then 0x80 else 0) | op; (b0 & 0x80 != 0) == fin && b0 & 0x0F == op
  {
  }

  // ---------------------------------------------------------------------
  // Findings: the code as written, next to the corrected rules above.
  // ---------------------------------------------------------------------

  /**
   * The completeness test of src/uwsc.c:123 as written: the sum of the
   * header and payload lengths is a uint64_t and wraps around.
   */
  predicate FrameFitsAsWritten(avail: nat, headerLen: nat, payloadLen: nat)
    requires payloadLen < U64_MODULUS
  {
    !(avail < (headerLen + payloadLen) % U64_MODULUS)
  }

  /**
   * Ten bytes announcing a payload of 2^64 - 5 bytes pass the test as
   * written, although almost none of the payload has arrived; the corrected
   * decision waits for more bytes.
   */
  lemma WrappedLengthPassesAsWritten()
    ensures var d: seq<bv8> := [0x82, 0x7F, 0xFF, 0xFF, 0xFF, 0xFF, 0xFF, 0xFF, 0xFF, 0xFB];
      && LengthField(d) == Some((10, U64_MODULUS - 5))
      && FrameFitsAsWritten(|d|, 10, U64_MODULUS - 5)
      && DecodeFrame(d) == Incomplete
  {
    var d: seq<bv8> := [0x82, 0x7F, 0xFF, 0xFF, 0xFF, 0xFF, 0xFF, 0xFF, 0xFF, 0xFB];
    assert d[2..6] == [0xFF, 0xFF, 0xFF, 0xFF] && d[6..10] == [0xFF, 0xFF, 0xFF, 0xFB];
  }

  /**
   * Fragment reassembly as written (src/uwsc.c:126-141): the new length
   * counts an extra byte for a final TEXT frame, the fragment is appended,
   * and then byte `|frag| - 1` of the message, counted from its start, is
   * zeroed. None stands for the write before the buffer when the fragment
   * is empty. `spare` is the indeterminate byte realloc adds.
   */
  function AppendFragmentAsWritten(acc: seq<bv8>, frag: seq<bv8>, fin: bool, opcode: bv8, spare: bv8)
    : Option<seq<bv8>>
  {
    var extra: seq<bv8> := if fin && opcode == OP_TEXT then [spare] else [];
    var grown := acc + frag + extra;
    if |frag| == 0 then None else Some(grown[|frag| - 1 := 0])
  }

  /**
   * A TEXT message "ab" followed by a final continuation "cd" is handed to
   * the application as "a", NUL, "cd" instead of "abcd".
   */
  lemma FragmentIndexCorruptsMessage(spare: bv8)
    ensures AppendFragmentAsWritten([0x61, 0x62], [0x63, 0x64], true, OP_CONTINUE, spare)
         == Some([0x61, 0x00, 0x63, 0x64])
    ensures AppendFragmentAsWritten([0x61, 0x62], [0x63, 0x64], true, OP_CONTINUE, spare)
         != Some([0x61, 0x62] + [0x63, 0x64])
  {
    var joined: seq<bv8> := [0x61, 0x62] + [0x63, 0x64];
    assert joined == [0x61, 0x62, 0x63, 0x64];
    assert joined[1 := 0] == [0x61, 0x00, 0x63, 0x64];
    assert joined + [] == joined;
  }
}
