/** The fixed 12-byte DNS header of section 4.1.1 of RFC 1035: identifier,
    two flag bytes and four record counts, each stored as two big-endian
    bytes. Getters decode a field with masks and shifts; setters return the
    header with that field, and only that field, rewritten. */
module Header {
  import opened Wire

  /** A 16-bit field as it sits in the header: two bytes, most significant first. */
  type Bytes2 = s: seq<u8> | |s| == 2 witness [0, 0]

  /** The QR bit. */
  datatype HeaderKind = Query | Response

  /** The 4-bit OPCODE field. */
  datatype OpCode = Query | InverseQuery | Status | Notify | Update | Reserved(code: u8)

  /** The RCODE values, including the extended codes 16-21. */
  datatype ResponseCode =
    | NoError
    | FormatError
    | ServerFailure
    | NonExistentDomain
    | NotImplemented
    | Refused
    | ExistentDomain
    | ExistentRrSet
    | NonExistentRrSet
    | NotAuthoritative
    | NotZone
    | BadOptVersionOrBadSignature
    | BadKey
    | BadTime
    | BadMode
    | BadName
    | BadAlg
    | Reserved(code: u16)

  /** The codes that have a named `ResponseCode` variant. */
  predicate IsNamedResponseCode(n: int) {
    0 <= n <= 10 || 16 <= n <= 21
  }

  /** `impl From<ResponseCode> for u16`. */
  function ResponseCodeToU16(r: ResponseCode): u16 {
    match r
    case NoError => 0
    case FormatError => 1
    case ServerFailure => 2
    case NonExistentDomain => 3
    case NotImplemented => 4
    case Refused => 5
    case ExistentDomain => 6
    case ExistentRrSet => 7
    case NonExistentRrSet => 8
    case NotAuthoritative => 9
    case NotZone => 10
    case BadOptVersionOrBadSignature => 16
    case BadKey => 17
    case BadTime => 18
    case BadMode => 19
    case BadName => 20
    case BadAlg => 21
    case Reserved(n) => n
  }

  /** `impl From<u16> for ResponseCode`: every number converts back to itself,
      and only the unassigned numbers become `Reserved`. */
  function ResponseCodeFromU16(n: u16): (r: ResponseCode)
    ensures ResponseCodeToU16(r) == n
    ensures r.Reserved? <==> !IsNamedResponseCode(n)
  {
    match n
    case 0 => NoError
    case 1 => FormatError
    case 2 => ServerFailure
    case 3 => NonExistentDomain
    case 4 => NotImplemented
    case 5 => Refused
    case 6 => ExistentDomain
    case 7 => ExistentRrSet
    case 8 => NonExistentRrSet
    case 9 => NotAuthoritative
    case 10 => NotZone
    case 16 => BadOptVersionOrBadSignature
    case 17 => BadKey
    case 18 => BadTime
    case 19 => BadMode
    case 20 => BadName
    case 21 => BadAlg
    case _ => ResponseCode.Reserved(n)
  }

  /** A response code survives variant -> u16 -> variant unless it is a
      `Reserved` carrying a number that has a named variant. */
  lemma ResponseCodeVariantRoundTrip(r: ResponseCode)
    ensures ResponseCodeFromU16(ResponseCodeToU16(r)) == r
            <==> !(r.Reserved? && IsNamedResponseCode(r.code))
  {
    match r
    case Reserved(n) =>
      if !IsNamedResponseCode(n) {
        assert ResponseCodeFromU16(n) == ResponseCode.Reserved(n);
      }
    case _ =>
  }

  /** The value a `set_opcode` call writes into the OPCODE field (before the shift). */
  function OpCodeToU8(op: OpCode): u8 {
    match op
    case Query => 0
    case InverseQuery => 1
    case Status => 2
    case Notify => 4
    case Update => 5
    case Reserved(n) => n
  }

  /** The OPCODE decoding table used by `opcode()`. */
  function OpCodeFromU8(n: u8): (op: OpCode)
    ensures OpCodeToU8(op) == n
    ensures n < 16 ==> (op.Reserved? <==> n == 3 || 6 <= n)
  {
    match n
    case 0 => OpCode.Query
    case 1 => InverseQuery
    case 2 => Status
    case 4 => Notify
    case 5 => Update
    case _ => OpCode.Reserved(n)
  }

  /** `(b & keep) | bits` on one byte, the shape of every flag setter. */
  function MaskByte(b: u8, keep: bv8, bits: bv8): (r: u8)
    ensures r as bv8 == (b as bv8 & keep) | bits
  {
    ((b as bv8 & keep) | bits) as int
  }

  /** OR-ing a value below 16 into a byte whose low nibble is cleared sets
      that nibble to the value and keeps the high nibble. */
  lemma SetNibble(b: u8, c: u16)
    ensures c < 16 ==>
      var f := MaskByte(b, 0xF0, LowByte(c)) as bv8;
      ((f & 0x0F) as u8) == c && f & 0xF0 == b as bv8 & 0xF0
  {
    if c < 16 {
      var x := LowByte(c);
      assert x as int == c;
      NibbleBits(b as bv8, x);
    }
  }

  lemma NibbleBits(b: bv8, x: bv8)
    requires x < 16
    ensures ((b & 0xF0) | x) & 0x0F == x && ((b & 0xF0) | x) & 0xF0 == b & 0xF0
  {
  }

  /** The header, field by field, as the 12 bytes it occupies on the wire. */
  datatype Header = Header(
    id: Bytes2,
    flags: Bytes2,
    questionCount: Bytes2,
    answerCount: Bytes2,
    nameServerCount: Bytes2,
    additionalRecordsCount: Bytes2)
  {
    /** The first flag byte as a bit-vector: QR, OPCODE(4), AA, TC, RD. */
    function Flags0(): bv8 {
      flags[0] as bv8
    }

    /** The second flag byte as a bit-vector: RA, Z(3), RCODE(4). */
    function Flags1(): bv8 {
      flags[1] as bv8
    }

    function Id(): u16 {
      U16FromBe(id[0], id[1])
    }

    /** `set_id`: the id reads back and nothing else changes. */
    function SetId(v: u16): (h: Header)
      ensures h.Id() == v
      ensures h == this.(id := h.id)
    {
      this.(id := U16ToBe(v))
    }

    function Kind(): HeaderKind {
      if Flags0() & 0x80 == 0 then HeaderKind.Query else HeaderKind.Response
    }

    /** `set_kind`: the QR bit reads back; the other seven bits of the first
        flag byte and every other byte are unchanged. */
    function SetKind(k: HeaderKind): (h: Header)
      ensures h.Kind() == k
      ensures h.Flags0() & 0x7F == Flags0() & 0x7F && h.flags[1] == flags[1]
      ensures h == this.(flags := h.flags)
    {
      var f := match k
        case Query => MaskByte(flags[0], 0x7F, 0)
        case Response => MaskByte(flags[0], 0xFF, 0x80);
      this.(flags := [f, flags[1]])
    }

    /** The raw 4-bit OPCODE field. */
    function OpcodeBits(): u8 {
      ((Flags0() & 0x78) >> 3) as u8
    }

    /** `opcode()`: `Reserved` exactly for the field values 3 and 6-15. */
    function Opcode(): (op: OpCode)
      ensures op.Reserved? <==> OpcodeBits() == 3 || 6 <= OpcodeBits()
      ensures OpCodeToU8(op) == OpcodeBits()
    {
      OpCodeFromU8(OpcodeBits())
    }

    /** `set_opcode`: for a value below 16 the field reads back (as the
        decoding table sees it) and the QR, AA, TC and RD bits are kept. A
        wider `Reserved` value is shifted into the QR bit or lost. */
    function SetOpcode(op: OpCode): (h: Header)
      ensures OpCodeToU8(op) < 16 ==> h.OpcodeBits() == OpCodeToU8(op)
      ensures OpCodeToU8(op) < 16 ==> h.Opcode() == OpCodeFromU8(OpCodeToU8(op))
      ensures OpCodeToU8(op) < 16 ==> h.Flags0() & 0x87 == Flags0() & 0x87
      ensures h == this.(flags := h.flags) && h.flags[1] == flags[1]
    {
      var f := MaskByte(flags[0], 0x87, (OpCodeToU8(op) as bv8) << 3);
      this.(flags := [f, flags[1]])
    }

    function AuthoritativeAnswer(): bool {
      Flags0() & 0x04 != 0
    }

    function Truncated(): bool {
      Flags0() & 0x02 != 0
    }

    function RecursionDesired(): bool {
      Flags0() & 0x01 != 0
    }

    /** `set_recursion_desired`: RD reads back; the other bits are kept. */
    function SetRecursionDesired(rd: bool): (h: Header)
      ensures h.RecursionDesired() == rd
      ensures h.Flags0() & 0xFE == Flags0() & 0xFE && h.flags[1] == flags[1]
      ensures h == this.(flags := h.flags)
    {
      var f := if rd then MaskByte(flags[0], 0xFF, 0x01) else MaskByte(flags[0], 0xFE, 0);
      this.(flags := [f, flags[1]])
    }

    function RecursionAvailable(): bool {
      Flags1() & 0x80 != 0
    }

    /** `set_recursion_available`: RA reads back; the other bits are kept. */
    function SetRecursionAvailable(ra: bool): (h: Header)
      ensures h.RecursionAvailable() == ra
      ensures h.Flags1() & 0x7F == Flags1() & 0x7F && h.flags[0] == flags[0]
      ensures h == this.(flags := h.flags)
    {
      var f := if ra then MaskByte(flags[1], 0xFF, 0x80) else MaskByte(flags[1], 0x7F, 0);
      this.(flags := [flags[0], f])
    }

    /** The raw 4-bit RCODE field. */
    function ResponseCodeBits(): u8 {
      (Flags1() & 0x0F) as u8
    }

    /** `response_code()`: the RCODE nibble through the `From<u16>` table. */
    function ResponseCode(): (r: ResponseCode)
      ensures r.Reserved? <==> !IsNamedResponseCode(ResponseCodeBits())
      ensures ResponseCodeToU16(r) == ResponseCodeBits()
    {
      ResponseCodeFromU16(ResponseCodeBits())
    }

    /** `set_response_code`: the code is cast to `u8` and OR-ed in without a
        mask. Below 16 it reads back and the RA and Z bits are kept. */
    function SetResponseCode(r: ResponseCode): (h: Header)
      ensures ResponseCodeToU16(r) < 16 ==> h.ResponseCodeBits() == ResponseCodeToU16(r)
      ensures ResponseCodeToU16(r) < 16 ==> h.Flags1() & 0xF0 == Flags1() & 0xF0
      ensures h == this.(flags := h.flags) && h.flags[0] == flags[0]
    {
      var code := ResponseCodeToU16(r);
      var f := MaskByte(flags[1], 0xF0, LowByte(code));
      SetNibble(flags[1], code);
      this.(flags := [flags[0], f])
    }

    function QuestionCount(): u16 {
      U16FromBe(questionCount[0], questionCount[1])
    }

    /** `set_question_count`: the count reads back and nothing else changes. */
    function SetQuestionCount(n: u16): (h: Header)
      ensures h.QuestionCount() == n
      ensures h == this.(questionCount := h.questionCount)
    {
      this.(questionCount := U16ToBe(n))
    }

    function AnswerCount(): u16 {
      U16FromBe(answerCount[0], answerCount[1])
    }

    /** `set_answer_count`: the count reads back and nothing else changes. */
    function SetAnswerCount(n: u16): (h: Header)
      ensures h.AnswerCount() == n
      ensures h == this.(answerCount := h.answerCount)
    {
      this.(answerCount := U16ToBe(n))
    }

    function NameServerCount(): u16 {
      U16FromBe(nameServerCount[0], nameServerCount[1])
    }

    /** `set_name_server_count`: the count reads back and nothing else changes. */
    function SetNameServerCount(n: u16): (h: Header)
      ensures h.NameServerCount() == n
      ensures h == this.(nameServerCount := h.nameServerCount)
    {
      this.(nameServerCount := U16ToBe(n))
    }

    function AdditionalRecordsCount(): u16 {
      U16FromBe(additionalRecordsCount[0], additionalRecordsCount[1])
    }

    /** `set_additional_records_count`: the count reads back and nothing else changes. */
    function SetAdditionalRecordsCount(n: u16): (h: Header)
      ensures h.AdditionalRecordsCount() == n
      ensures h == this.(additionalRecordsCount := h.additionalRecordsCount)
    {
      this.(additionalRecordsCount := U16ToBe(n))
    }

    /** The 12 bytes of the header in wire order. */
    function ToBytes(): (b: seq<u8>)
      ensures |b| == HEADER_SIZE
    {
      id + flags + questionCount + answerCount + nameServerCount + additionalRecordsCount
    }
  }

  /** The header stored in the first 12 bytes of a message buffer. */
  function FromBytes(b: seq<u8>): (h: Header)
    requires |b| >= HEADER_SIZE
    ensures h.ToBytes() == b[..HEADER_SIZE]
  {
    Header(b[0..2], b[2..4], b[4..6], b[6..8], b[8..10], b[10..12])
  }

  /** The header read from a buffer depends only on its first 12 bytes. */
  lemma FromBytesPrefix(a: seq<u8>, b: seq<u8>)
    requires |a| >= HEADER_SIZE && |b| >= HEADER_SIZE
    requires forall k :: 0 <= k < HEADER_SIZE ==> a[k] == b[k]
    ensures FromBytes(a) == FromBytes(b)
  {
    assert a[0..2] == b[0..2] && a[2..4] == b[2..4] && a[4..6] == b[4..6];
    assert a[6..8] == b[6..8] && a[8..10] == b[8..10] && a[10..12] == b[10..12];
  }

  /** Encoding a header and reinterpreting the bytes gives the header back. */
  lemma HeaderBytesRoundTrip(h: Header)
    ensures FromBytes(h.ToBytes()) == h
  {
    var b := h.ToBytes();
    assert b[0..2] == [h.id[0], h.id[1]] == h.id;
    assert b[2..4] == [h.flags[0], h.flags[1]] == h.flags;
    assert b[4..6] == [h.questionCount[0], h.questionCount[1]] == h.questionCount;
    assert b[6..8] == [h.answerCount[0], h.answerCount[1]] == h.answerCount;
    assert b[8..10] == [h.nameServerCount[0], h.nameServerCount[1]] == h.nameServerCount;
    assert b[10..12] == [h.additionalRecordsCount[0], h.additionalRecordsCount[1]] == h.additionalRecordsCount;
  }

  /** `set_response_code` with any code: RCODE reads back as the code
      modulo 16, and bits 4 to 7 of the code's low byte are OR-ed into the
      RA and Z bits. So every code from 16 to 255 (the extended codes 16 to
      21 among them) fails to read back as itself; from 16 to 31 the low Z
      bit comes on, and `BadKey` (17) reads back as `FormatError`. */
  lemma SetResponseCodeSpillsIntoZ(h: Header, r: ResponseCode)
    ensures h.SetResponseCode(r).ResponseCodeBits() == ResponseCodeToU16(r) % 16
    ensures h.SetResponseCode(r).Flags1() & 0xF0 == (h.Flags1() & 0xF0) | (LowByte(ResponseCodeToU16(r)) & 0xF0)
    ensures 16 <= ResponseCodeToU16(r) < 0x100 ==> h.SetResponseCode(r).ResponseCode() != r
    ensures 16 <= ResponseCodeToU16(r) < 32 ==> h.SetResponseCode(r).Flags1() & 0x10 == 0x10
    ensures r == BadKey ==> h.SetResponseCode(r).ResponseCode() == FormatError
  {
    var code := ResponseCodeToU16(r);
    var x := LowByte(code);
    RcodeAfterSet(h, r, h.SetResponseCode(r), code, x);
    HighBitsAfterSet(h, r, h.SetResponseCode(r), code, x);
    ZBitAfterSet(h, r, h.SetResponseCode(r), code, x);
  }

  /** The RCODE bits of `h'`, the header `set_response_code` returns. */
  lemma RcodeAfterSet(h: Header, r: ResponseCode, h': Header, code: u16, x: bv8)
    requires h' == h.SetResponseCode(r)
    requires code == ResponseCodeToU16(r) && x == LowByte(code)
    ensures h'.ResponseCodeBits() == code % 16
    ensures 16 <= code < 0x100 ==> h'.ResponseCode() != r
    ensures r == BadKey ==> h'.ResponseCode() == FormatError
  {
    ResponseCodeFlags(h, r, code, x);
    RcodeAfterOr(h.Flags1(), h', r, code, x);
  }

  /** The RA and Z bits of `h'`, the header `set_response_code` returns. */
  lemma HighBitsAfterSet(h: Header, r: ResponseCode, h': Header, code: u16, x: bv8)
    requires h' == h.SetResponseCode(r)
    requires code == ResponseCodeToU16(r) && x == LowByte(code)
    ensures h'.Flags1() & 0xF0 == (h.Flags1() & 0xF0) | (x & 0xF0)
  {
    ResponseCodeFlags(h, r, code, x);
    SpilledBits(h.Flags1(), x);
  }

  /** The low Z bit of `h'` for the codes 16 to 31. */
  lemma ZBitAfterSet(h: Header, r: ResponseCode, h': Header, code: u16, x: bv8)
    requires h' == h.SetResponseCode(r)
    requires code == ResponseCodeToU16(r) && x == LowByte(code)
    ensures 16 <= code < 32 ==> h'.Flags1() & 0x10 == 0x10
  {
    ResponseCodeFlags(h, r, code, x);
    if 16 <= code < 32 {
      SmallLowByte(code, x);
      OrCodeHighBits(h.Flags1(), h'.Flags1(), x);
    }
  }

  /** The same facts, about any header whose second flag byte is `b` with
      its low nibble cleared, OR-ed with the code's low byte. */
  lemma RcodeAfterOr(b: bv8, h': Header, r: ResponseCode, code: u16, x: bv8)
    requires code == ResponseCodeToU16(r) && x == LowByte(code)
    requires h'.Flags1() == (b & 0xF0) | x
    ensures h'.ResponseCodeBits() == code % 16
    ensures 16 <= code < 0x100 ==> h'.ResponseCode() != r
    ensures r == BadKey ==> h'.ResponseCode() == FormatError
  {
    NibbleAfterOr(b, h', code, x);
    if r == BadKey {
      BadKeyReadsFormatError(h');
    }
  }

  /** The RCODE bits after an OR of the code's low byte: the code modulo
      16, so a code of 16 or more does not read back. */
  lemma NibbleAfterOr(b: bv8, h': Header, code: u16, x: bv8)
    requires x == LowByte(code) && h'.Flags1() == (b & 0xF0) | x
    ensures h'.ResponseCodeBits() == code % 16
    ensures 16 <= code ==> forall r :: ResponseCodeToU16(r) == code ==> h'.ResponseCode() != r
  {
    OrCodeNibble(b, h'.Flags1(), code, x);
    assert h'.ResponseCodeBits() < 16;
    if 16 <= code {
      forall r | ResponseCodeToU16(r) == code
        ensures h'.ResponseCode() != r
      {
        NoRoundTrip(h', r, code);
      }
    }
  }

  /** After `set_response_code`, the second flag byte is the old one with
      its low nibble cleared, OR-ed with the code's low byte. */
  lemma ResponseCodeFlags(h: Header, r: ResponseCode, code: u16, x: bv8)
    requires code == ResponseCodeToU16(r) && x == LowByte(code)
    ensures h.SetResponseCode(r).Flags1() == (h.Flags1() & 0xF0) | x
  {
  }

  /** A code's low byte OR-ed into a byte whose low nibble is cleared: the
      nibble holds the code modulo 16. */
  lemma OrCodeNibble(b: bv8, f: bv8, code: u16, x: bv8)
    requires x == LowByte(code) && f == (b & 0xF0) | x
    ensures (f & 0x0F) as int == code % 16
  {
    SpilledBits(b, x);
    SameNibble(f, x);
    LowNibble(x);
    ModSixteen(code);
  }

  /** The low byte of a code below 256 is the code itself. */
  lemma SmallLowByte(code: int, x: bv8)
    requires x == LowByte(code) && 0 <= code < 0x100
    ensures x as int == code
  {
  }

  /** A byte from 16 to 31 OR-ed into a byte whose low nibble is cleared
      sets bit 4, the low Z bit. */
  lemma OrCodeHighBits(b: bv8, f: bv8, x: bv8)
    requires f == (b & 0xF0) | x && 16 <= x as int < 32
    ensures f & 0x10 == 0x10
  {
    HighNibble(x);
    ZBitSpilled(b, f, x);
  }

  /** Bytes with the same low nibble have the same low nibble as integers. */
  lemma SameNibble(f: bv8, x: bv8)
    requires f & 0x0F == x & 0x0F
    ensures (f & 0x0F) as int == (x & 0x0F) as int
  {
  }

  /** OR-ing a byte with bit 4 set as its only high bit sets bit 4. */
  lemma ZBitSpilled(b: bv8, f: bv8, x: bv8)
    requires f == (b & 0xF0) | x && x & 0xF0 == 0x10
    ensures f & 0x10 == 0x10
  {
  }

  /** Taking a code's low byte keeps it modulo 16. */
  lemma ModSixteen(code: int)
    ensures (code % 0x100) % 16 == code % 16
  {
    var k := code / 0x100;
    assert code == 0x100 * k + code % 0x100;
    assert code % 0x100 == code - 16 * (16 * k);
  }

  /** A header whose RCODE bits are below a code of 16 or more does not
      read back that code. */
  lemma NoRoundTrip(h: Header, r: ResponseCode, code: u16)
    requires code == ResponseCodeToU16(r) && 16 <= code && h.ResponseCodeBits() < 16
    ensures h.ResponseCode() != r
  {
  }

  /** RCODE bits of 1 read back as `FormatError`. */
  lemma BadKeyReadsFormatError(h: Header)
    requires h.ResponseCodeBits() == 1
    ensures h.ResponseCode() == FormatError
  {
  }

  /** A byte from 16 to 31 has exactly bit 4 set in its high nibble. */
  lemma HighNibble(x: bv8)
    requires 16 <= x as int < 32
    ensures x & 0xF0 == 0x10
  {
  }

  /** Any byte OR-ed into a byte whose low nibble is cleared: its low four
      bits land in the nibble and its high four are added to the rest. */
  lemma SpilledBits(b: bv8, x: bv8)
    ensures ((b & 0xF0) | x) & 0x0F == x & 0x0F
    ensures ((b & 0xF0) | x) & 0xF0 == (b & 0xF0) | (x & 0xF0)
  {
  }

  /** The low nibble of a byte is its value modulo 16. */
  lemma LowNibble(x: bv8)
    ensures (x & 0x0F) as int == x as int % 16
  {
  }

  /** `HeaderBuilder`: a header under construction, threaded by value. */
  datatype HeaderBuilder = HeaderBuilder(header: Header)
  {
    function Id(v: u16): HeaderBuilder {
      HeaderBuilder(header.SetId(v))
    }

    function Kind(k: HeaderKind): HeaderBuilder {
      HeaderBuilder(header.SetKind(k))
    }

    function RecursionDesired(rd: bool): HeaderBuilder {
      HeaderBuilder(header.SetRecursionDesired(rd))
    }

    function RecursionAvailable(ra: bool): HeaderBuilder {
      HeaderBuilder(header.SetRecursionAvailable(ra))
    }

    function ResponseCode(r: ResponseCode): HeaderBuilder {
      HeaderBuilder(header.SetResponseCode(r))
    }

    function Build(): Header {
      header
    }
  }

  /** `HeaderBuilder::new()`: all 12 bytes of the header are zero. */
  function NewHeaderBuilder(): (b: HeaderBuilder)
    ensures b.header.ToBytes() == [0, 0, 0, 0, 0, 0, 0, 0, 0, 0, 0, 0]
  {
    HeaderBuilder(Header([0, 0], [0, 0], [0, 0], [0, 0], [0, 0], [0, 0]))
  }

  /** A buffer whose first 12 bytes are zero holds the new builder's header. */
  lemma ZeroBytesHeader(b: seq<u8>)
    requires |b| >= HEADER_SIZE && forall m :: 0 <= m < HEADER_SIZE ==> b[m] == 0
    ensures FromBytes(b) == NewHeaderBuilder().Build()
  {
    assert b[0..2] == [0, 0] && b[2..4] == [0, 0] && b[4..6] == [0, 0];
    assert b[6..8] == [0, 0] && b[8..10] == [0, 0] && b[10..12] == [0, 0];
  }

  /** A zero first flag byte: a standard query with AA, TC and RD clear. */
  lemma ZeroFirstFlagByte(h: Header)
    requires h.flags == [0, 0]
    ensures h.Kind() == HeaderKind.Query && h.Opcode() == OpCode.Query
    ensures !h.AuthoritativeAnswer() && !h.Truncated() && !h.RecursionDesired()
  {
    assert h.Flags0() == 0;
  }

  /** A zero second flag byte: RA clear and code `NoError`. */
  lemma ZeroSecondFlagByte(h: Header)
    requires h.flags == [0, 0]
    ensures !h.RecursionAvailable() && h.ResponseCode() == NoError
  {
    assert h.Flags1() == 0;
  }

  lemma ZeroId(h: Header)
    requires h.id == [0, 0]
    ensures h.Id() == 0
  {
  }

  lemma ZeroQuestionCount(h: Header)
    requires h.questionCount == [0, 0]
    ensures h.QuestionCount() == 0
  {
  }

  lemma ZeroAnswerCount(h: Header)
    requires h.answerCount == [0, 0]
    ensures h.AnswerCount() == 0
  {
  }

  lemma ZeroNameServerCount(h: Header)
    requires h.nameServerCount == [0, 0]
    ensures h.NameServerCount() == 0
  {
  }

  lemma ZeroAdditionalRecordsCount(h: Header)
    requires h.additionalRecordsCount == [0, 0]
    ensures h.AdditionalRecordsCount() == 0
  {
  }

  /** The new builder's header reads as a plain query with every flag
      clear and code `NoError`. */
  lemma NewHeaderFlags()
    ensures var h := NewHeaderBuilder().header;
      && h.Id() == 0 && h.Kind() == HeaderKind.Query && h.Opcode() == OpCode.Query
      && !h.AuthoritativeAnswer() && !h.Truncated()
      && !h.RecursionDesired() && !h.RecursionAvailable()
      && h.ResponseCode() == NoError
  {
    var h := NewHeaderBuilder().header;
    ZeroId(h);
    ZeroFirstFlagByte(h);
    ZeroSecondFlagByte(h);
  }

  /** The new builder's header counts no records of any kind. */
  lemma NewHeaderCounts()
    ensures var h := NewHeaderBuilder().header;
      && h.QuestionCount() == 0 && h.AnswerCount() == 0
      && h.NameServerCount() == 0 && h.AdditionalRecordsCount() == 0
  {
    var h := NewHeaderBuilder().header;
    ZeroQuestionCount(h);
    ZeroAnswerCount(h);
    ZeroNameServerCount(h);
    ZeroAdditionalRecordsCount(h);
  }

  /** The header of the captive.apple.com query decodes field by field. */
  lemma CaptiveAppleComHeader()
    ensures var h := FromBytes([30, 252, 1, 0, 0, 1, 0, 0, 0, 0, 0, 0]);
      && h.Id() == 7932 && h.Kind() == HeaderKind.Query && h.Opcode() == OpCode.Query
      && !h.AuthoritativeAnswer() && !h.Truncated() && h.RecursionDesired()
      && !h.RecursionAvailable() && h.ResponseCode() == NoError
      && h.QuestionCount() == 1 && h.AnswerCount() == 0
      && h.NameServerCount() == 0 && h.AdditionalRecordsCount() == 0
  {
    var h := FromBytes([30, 252, 1, 0, 0, 1, 0, 0, 0, 0, 0, 0]);
    assert h.id == [30, 252] && h.flags == [1, 0] && h.questionCount == [0, 1];
    assert h.answerCount == [0, 0] && h.nameServerCount == [0, 0] && h.additionalRecordsCount == [0, 0];
    assert h.Flags0() == 1 && h.Flags1() == 0;
    assert h.OpcodeBits() == 0 && h.ResponseCodeBits() == 0;
  }

  /** The header built for that query (id 7932, recursion desired) has the
      same 12 bytes, apart from the question count that `add_question` sets. */
  lemma BuiltQueryHeader()
    ensures NewHeaderBuilder().Id(7932).RecursionDesired(true).Build().ToBytes()
            == [30, 252, 1, 0, 0, 0, 0, 0, 0, 0, 0, 0]
  {
  }
}
