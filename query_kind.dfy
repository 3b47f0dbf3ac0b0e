/** The TYPE and QTYPE values of sections 3.2.2 and 3.2.3 of RFC 1035, as
    the codec names them, with their 2-byte big-endian wire form. */
module QueryKinds {
  import opened Wire

  datatype QueryKind =
    | A | NS | MD | MF | CNAME | SOA | MB | MG | MR | NULL
    | WKS | PTR | HINFO | MINFO | MX | TXT
    | AXFR | MAILB | MAILA | ALL
    | Reserved
  {
    /** `self as u16`: the declared discriminants, with MAILB = 253 and
        MAILA = 254; `Reserved` follows ALL and takes the implicit 256. */
    function ToU16(): u16 {
      match this
      case A => 1
      case NS => 2
      case MD => 3
      case MF => 4
      case CNAME => 5
      case SOA => 6
      case MB => 7
      case MG => 8
      case MR => 9
      case NULL => 10
      case WKS => 11
      case PTR => 12
      case HINFO => 13
      case MINFO => 14
      case MX => 15
      case TXT => 16
      case AXFR => 252
      case MAILB => 253
      case MAILA => 254
      case ALL => 255
      case Reserved => 256
    }

    /** `to_be_bytes`: the discriminant, most significant byte first. */
    function ToBeBytes(): (b: seq<u8>)
      ensures |b| == 2 && U16FromBe(b[0], b[1]) == ToU16()
    {
      U16ToBe(ToU16())
    }
  }

  /** The codes that `From<u16>` maps to a named variant. */
  predicate IsNamedKind(n: int) {
    1 <= n <= 16 || 252 <= n <= 255
  }

  /** `impl From<u16> for QueryKind`. Note the table maps 253 to MAILA and
      254 to MAILB, the reverse of the discriminants. */
  function FromU16(n: u16): (k: QueryKind)
    ensures k.Reserved? <==> !IsNamedKind(n)
    ensures IsNamedKind(n) && n != 253 && n != 254 ==> k.ToU16() == n
  {
    match n
    case 1 => A
    case 2 => NS
    case 3 => MD
    case 4 => MF
    case 5 => CNAME
    case 6 => SOA
    case 7 => MB
    case 8 => MG
    case 9 => MR
    case 10 => NULL
    case 11 => WKS
    case 12 => PTR
    case 13 => HINFO
    case 14 => MINFO
    case 15 => MX
    case 16 => TXT
    case 252 => AXFR
    case 253 => MAILA
    case 254 => MAILB
    case 255 => ALL
    case _ => Reserved
  }

  /** What a kind becomes after variant -> u16 -> variant: itself, except
      that MAILA and MAILB trade places. */
  function AfterRoundTrip(k: QueryKind): QueryKind {
    match k
    case MAILA => MAILB
    case MAILB => MAILA
    case _ => k
  }

  /** Every kind survives variant -> u16 -> variant except MAILA and MAILB,
      which come back swapped; `Reserved` encodes as 256 and decodes to itself. */
  lemma KindRoundTrip(k: QueryKind)
    ensures FromU16(k.ToU16()) == AfterRoundTrip(k)
    ensures FromU16(k.ToU16()) == k <==> !(k.MAILA? || k.MAILB?)
  {
    match k
    case Reserved =>
      assert !IsNamedKind(256);
    case _ =>
  }

  /** For every named code except 253 and 254, `to_be_bytes(from(n))` is `n`
      big-endian; for every other code it is the bytes of 256. */
  lemma CodeRoundTrip(n: u16)
    ensures IsNamedKind(n) && n != 253 && n != 254 ==> FromU16(n).ToBeBytes() == U16ToBe(n)
    ensures !IsNamedKind(n) ==> FromU16(n).ToBeBytes() == [1, 0]
    ensures n == 253 ==> FromU16(n).ToBeBytes() == U16ToBe(254)
    ensures n == 254 ==> FromU16(n).ToBeBytes() == U16ToBe(253)
  {
  }

  /** `QueryKind::read`: two bytes at the cursor, decoded big-endian and
      advanced over; with fewer than two bytes left it fails and leaves the
      cursor where it was. */
  function Read(buf: seq<u8>, i: nat): (r: (Option<QueryKind>, nat))
    ensures r.0.Some? <==> i + 2 <= |buf|
    ensures r.0.None? ==> r.1 == i
    ensures r.0.Some? ==> r.1 == i + 2 && r.0.value == FromU16(U16FromBe(buf[i], buf[i + 1]))
  {
    if i + 2 <= |buf| then
      (Some(FromU16(U16FromBe(buf[i], buf[i + 1]))), i + 2)
    else
      (None, i)
  }

  /** Reading back what `to_be_bytes` wrote gives the kind (up to the
      MAILA/MAILB swap) and moves the cursor over exactly those two bytes. */
  lemma ReadToBeBytes(buf: seq<u8>, i: nat, k: QueryKind)
    requires i + 2 <= |buf| && buf[i..i + 2] == k.ToBeBytes()
    ensures Read(buf, i) == (Some(AfterRoundTrip(k)), i + 2)
  {
    assert buf[i] == buf[i..i + 2][0] && buf[i + 1] == buf[i..i + 2][1];
    KindRoundTrip(k);
  }
}
