/** The CLASS and QCLASS values of section 3.2.4 of RFC 1035, as the codec
    names them, with their 2-byte big-endian wire form. */
module QueryClasses {
  import opened Wire

  datatype QueryClass =
    | IN  // Internet
    | CS  // CSNET
    | CH  // CHAOS
    | HS  // Hesiod
    | Reserved
  {
    /** `self as u16`: IN..HS are 1..4 and `Reserved` takes the implicit 5. */
    function ToU16(): u16 {
      match this
      case IN => 1
      case CS => 2
      case CH => 3
      case HS => 4
      case Reserved => 5
    }

    /** `to_be_bytes`: the discriminant, most significant byte first. */
    function ToBeBytes(): (b: seq<u8>)
      ensures |b| == 2 && U16FromBe(b[0], b[1]) == ToU16()
    {
      U16ToBe(ToU16())
    }
  }

  /** `impl From<u16> for QueryClass`: 1..4 are named, every other value is `Reserved`. */
  function FromU16(n: u16): (c: QueryClass)
    ensures c.Reserved? <==> !(1 <= n <= 4)
    ensures 1 <= n <= 4 ==> c.ToU16() == n
  {
    match n
    case 1 => IN
    case 2 => CS
    case 3 => CH
    case 4 => HS
    case _ => Reserved
  }

  /** Every class, `Reserved` included, survives variant -> u16 -> variant. */
  lemma ClassRoundTrip(c: QueryClass)
    ensures FromU16(c.ToU16()) == c
  {
    match c
    case Reserved =>
      assert FromU16(5) == Reserved;
    case _ =>
  }

  /** `to_be_bytes(from(n))` is `n` big-endian for 1..4 and `[0, 5]` otherwise. */
  lemma CodeRoundTrip(n: u16)
    ensures 1 <= n <= 4 ==> FromU16(n).ToBeBytes() == U16ToBe(n)
    ensures !(1 <= n <= 4) ==> FromU16(n).ToBeBytes() == [0, 5]
  {
  }

  /** `QueryClass::read`: two bytes at the cursor, decoded big-endian and
      advanced over; with fewer than two bytes left it returns `None` and
      leaves the cursor where it was. */
  function Read(buf: seq<u8>, i: nat): (r: (Option<QueryClass>, nat))
    ensures r.0.Some? <==> i + 2 <= |buf|
    ensures r.0.None? ==> r.1 == i
    ensures r.0.Some? ==> r.1 == i + 2 && r.0.value == FromU16(U16FromBe(buf[i], buf[i + 1]))
  {
    if i + 2 <= |buf| then
      (Some(FromU16(U16FromBe(buf[i], buf[i + 1]))), i + 2)
    else
      (None, i)
  }

  /** Reading back what `to_be_bytes` wrote gives the same class and moves
      the cursor over exactly those two bytes. */
  lemma ReadToBeBytes(buf: seq<u8>, i: nat, c: QueryClass)
    requires i + 2 <= |buf| && buf[i..i + 2] == c.ToBeBytes()
    ensures Read(buf, i) == (Some(c), i + 2)
  {
    assert buf[i] == buf[i..i + 2][0] && buf[i + 1] == buf[i..i + 2][1];
    ClassRoundTrip(c);
  }
}
