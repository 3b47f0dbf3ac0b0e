/** A resource record of the answer section (section 4.1.3 of RFC 1035):
    name, TYPE, CLASS, a 4-byte TTL and length-prefixed RDATA, and the
    iterator over the answer section. */
module AnswerRecord {
  import opened Wire
  import opened Names
  import QueryKinds
  import QueryClasses

  /** A decoded answer; `rdata` is the record's data as it sits in the
      buffer. */
  datatype Answer = Answer(
    name: Name,
    kind: QueryKinds.QueryKind,
    qclass: QueryClasses.QueryClass,
    ttl: u32,
    rdata: seq<u8>)

  /** `read_ttl`: four big-endian bytes, when there are four left. */
  function ReadTtl(buf: seq<u8>, i: nat): (r: (Option<u32>, nat))
    ensures r.0.Some? <==> i + 4 <= |buf|
    ensures r.0.None? ==> r.1 == i
    ensures r.0.Some? ==> r.1 == i + 4 && r.0.value == U32FromBe(buf[i], buf[i + 1], buf[i + 2], buf[i + 3])
  {
    if i + 4 <= |buf| then (Some(U32FromBe(buf[i], buf[i + 1], buf[i + 2], buf[i + 3])), i + 4)
    else (None, i)
  }

  /** `read_rdata`: a big-endian length and that many bytes, when both fit
      in the buffer. */
  function ReadRdata(buf: seq<u8>, i: nat): (r: (Option<seq<u8>>, nat))
    ensures r.0.Some? <==> i + 2 <= |buf| && i + 2 + U16FromBe(buf[i], buf[i + 1]) <= |buf|
    ensures r.0.None? ==> r.1 == i
    ensures r.0.Some? ==>
      && r.1 == i + 2 + |r.0.value|
      && |r.0.value| == U16FromBe(buf[i], buf[i + 1])
      && r.0.value == buf[i + 2..r.1]
  {
    if i + 2 <= |buf| then
      var rdataLen := U16FromBe(buf[i], buf[i + 1]);
      var rdataI := i + 2;
      if rdataI + rdataLen <= |buf| then (Some(buf[rdataI..rdataI + rdataLen]), rdataI + rdataLen)
      else (None, i)
    else (None, i)
  }

  /** What `add_ttl` writes reads back as the same TTL. */
  lemma ReadTtlOfBytes(buf: seq<u8>, i: nat, ttl: u32)
    requires i + 4 <= |buf| && buf[i..i + 4] == U32ToBe(ttl)
    ensures ReadTtl(buf, i) == (Some(ttl), i + 4)
  {
    var w := buf[i..i + 4];
    assert buf[i] == w[0] && buf[i + 1] == w[1] && buf[i + 2] == w[2] && buf[i + 3] == w[3];
  }

  /** What `add_rdata` writes (length, then the data) reads back as the
      same data, when the length survives the 16-bit cast. */
  lemma ReadRdataOfBytes(buf: seq<u8>, i: nat, data: seq<u8>)
    requires |data| < 0x1_0000
    requires i + 2 + |data| <= |buf| && buf[i..i + 2 + |data|] == U16ToBe(|data| % 0x1_0000) + data
    ensures ReadRdata(buf, i) == (Some(data), i + 2 + |data|)
  {
    var w := buf[i..i + 2 + |data|];
    var lb := U16ToBe(|data|);
    assert buf[i] == w[0] == lb[0] && buf[i + 1] == w[1] == lb[1];
    assert buf[i + 2..i + 2 + |data|] == w[2..] == data;
  }

  /** `Answer::read`: name, kind, class, TTL and data on a local cursor
      that is handed back only when all five decoded (`Decoded` spells the
      fields out). */
  function Read(buf: seq<u8>, i: nat): (r: (Option<Answer>, nat))
    ensures r.0.None? ==> r.1 == i
    ensures r.0.Some? ==> i < r.1 <= |buf| && r.0.value.name == Name(buf, i)
  {
    var name := NameRead(buf, i);
    if name.0.None? then (None, i)
    else ReadFields(buf, i, name.1)
  }

  /** The part of `Answer::read` after the name that starts at `i` and
      ends at `j`; the cursor stays at `i` on failure. */
  function ReadFields(buf: seq<u8>, i: nat, j: nat): (r: (Option<Answer>, nat))
    ensures r.0.None? ==> r.1 == i
    ensures r.0.Some? ==> j < r.1 <= |buf|
    ensures r.0.Some? ==> r.0.value.name == Name(buf, i)
  {
    var kind := QueryKinds.Read(buf, j);
    if kind.0.None? then (None, i)
    else
      var qclass := QueryClasses.Read(buf, kind.1);
      if qclass.0.None? then (None, i)
      else
        var ttl := ReadTtl(buf, qclass.1);
        if ttl.0.None? then (None, i)
        else
          var rdata := ReadRdata(buf, ttl.1);
          if rdata.0.None? then (None, i)
          else (Some(Answer(Name(buf, i), kind.0.value, qclass.0.value, ttl.0.value, rdata.0.value)), rdata.1)
  }

  /** Where `Answer::read` leaves the cursor, or `None` where it fails:
      the name must decode, the ten bytes of kind, class, TTL and data
      length must follow it, and the data must fit in the buffer. The
      decoded field values play no part in it. */
  function End(buf: seq<u8>, i: nat): (r: Option<nat>)
    ensures r.Some? ==> i < r.value <= |buf|
  {
    var name := NameRead(buf, i);
    if name.0.None? || name.1 + 10 > |buf| then None
    else
      var rdata := ReadRdata(buf, name.1 + 8);
      if rdata.0.None? then None else Some(rdata.1)
  }

  /** `Answer::read` succeeds exactly where `End` is defined, and leaves the
      cursor there. */
  lemma ReadEnd(buf: seq<u8>, i: nat)
    ensures Read(buf, i).0.Some? <==> End(buf, i).Some?
    ensures End(buf, i).Some? ==> Read(buf, i).1 == End(buf, i).value
  {
  }

  /** An answer whose name reads nothing below `lo` ends at the same
      place in a buffer that agrees from `lo` on: the data length it reads
      lies in the part both buffers share. */
  lemma EndAgrees(buf: seq<u8>, buf': seq<u8>, i: nat, lo: nat)
    requires DecodesAbove(buf, i, lo) && End(buf, i).Some? && AgreeFrom(buf, buf', lo)
    ensures End(buf', i) == End(buf, i)
  {
    NameAgrees(buf, buf', i, lo);
    var j := NameRead(buf, i).1;
    assert NameRead(buf, i).0.Some? && NameRead(buf', i).0.Some? && j + 10 <= |buf|;
    assert buf'[j + 8] == buf[j + 8] && buf'[j + 9] == buf[j + 9];
    var r := ReadRdata(buf, j + 8);
    assert r.0.Some? && ReadRdata(buf', j + 8).0.Some? && ReadRdata(buf', j + 8).1 == r.1;
  }

  /** What `Answer::read` hands back, field by field, when it succeeds. */
  lemma Decoded(buf: seq<u8>, i: nat)
    requires Read(buf, i).0.Some?
    ensures var j := NameRead(buf, i).1;
      && NameRead(buf, i).0.Some? && j + 10 <= |buf|
      && Read(buf, i).0.value == Answer(
        Name(buf, i),
        QueryKinds.FromU16(U16FromBe(buf[j], buf[j + 1])),
        QueryClasses.FromU16(U16FromBe(buf[j + 2], buf[j + 3])),
        U32FromBe(buf[j + 4], buf[j + 5], buf[j + 6], buf[j + 7]),
        ReadRdata(buf, j + 8).0.value)
  {
    AfterName(buf, i);
    FieldsDecoded(buf, i, NameRead(buf, i).1);
  }

  /** What the fields after a name at `i` ending at `j` decode to. */
  lemma FieldsDecoded(buf: seq<u8>, i: nat, j: nat)
    requires ReadFields(buf, i, j).0.Some?
    ensures
      && j + 10 <= |buf|
      && ReadFields(buf, i, j).0.value == Answer(
        Name(buf, i),
        QueryKinds.FromU16(U16FromBe(buf[j], buf[j + 1])),
        QueryClasses.FromU16(U16FromBe(buf[j + 2], buf[j + 3])),
        U32FromBe(buf[j + 4], buf[j + 5], buf[j + 6], buf[j + 7]),
        ReadRdata(buf, j + 8).0.value)
  {
    var kind := QueryKinds.Read(buf, j);
    var qclass := QueryClasses.Read(buf, kind.1);
    var ttl := ReadTtl(buf, qclass.1);
    assert kind.0.Some? && qclass.0.Some? && ttl.0.Some?;
    assert kind.1 == j + 2 && qclass.1 == j + 4 && ttl.1 == j + 8;
  }

  /** The cursor after `count` answers read back to back from `i`, or
      `None` if one of them does not decode. */
  function Skip(buf: seq<u8>, i: nat, count: nat): (r: Option<nat>)
    ensures r.Some? ==> i <= r.value
    ensures r.Some? && count > 0 ==> r.value <= |buf|
    decreases count
  {
    if count == 0 then Some(i)
    else
      var e := End(buf, i);
      if e.None? then None else Skip(buf, e.value, count - 1)
  }

  /** Reading one more answer after `count` of them extends `Skip`. */
  lemma {:induction false} SkipStep(buf: seq<u8>, i: nat, count: nat, j: nat)
    requires Skip(buf, i, count) == Some(j)
    requires End(buf, j).Some?
    ensures Skip(buf, i, count + 1) == End(buf, j)
    decreases count
  {
    if count > 0 {
      SkipStep(buf, End(buf, i).value, count - 1, j);
    }
  }

  /** `Answer::read` where only its outcome and the cursor matter, as in
      the loops of `Message` that skip over the section: whether it
      succeeded, and the cursor, moved to where `End` says on success and
      left alone on failure. */
  method ReadOver(buf: seq<u8>, i: nat) returns (ok: bool, i': nat)
    ensures ok <==> End(buf, i).Some?
    ensures i' == if ok then End(buf, i).value else i
  {
    var read := Read(buf, i);
    ReadEnd(buf, i);
    return read.0.Some?, read.1;
  }

  /** The loop of `answers_end`: `count` answers skipped in turn with `ReadOver`
      from `i`, each of which the source asserts decodes. */
  method SkipOver(buf: seq<u8>, i: nat, count: nat) returns (i': nat)
    requires Skip(buf, i, count).Some?
    ensures Skip(buf, i, count) == Some(i')
  {
    i' := i;
    ghost var end := Skip(buf, i, count).value;
    ghost var left := count;
    for k := 0 to count
      invariant left + k == count && Skip(buf, i', left) == Some(end)
    {
      ghost var rest := left - 1;
      SkipCons(buf, i', left, rest);
      var ok;
      ok, i' := ReadOver(buf, i');
      assert ok;
      left := rest;
    }
  }

  /** Skipping `rest + 1` items from `i` reads the first and skips the
      `rest` after it, and fails where the first fails. */
  lemma SkipCons(buf: seq<u8>, i: nat, count: nat, rest: nat)
    requires count == rest + 1
    ensures Skip(buf, i, count) == if End(buf, i).None? then None else Skip(buf, End(buf, i).value, rest)
  {
  }

  /** The bytes `add_kind`, `add_class`, `add_ttl` and `add_rdata` write
      after an answer's name; the data length is cast to 16 bits. */
  function FieldBytes(kind: QueryKinds.QueryKind, qclass: QueryClasses.QueryClass, ttl: u32, rdata: seq<u8>): (r: seq<u8>)
    ensures |r| == 10 + |rdata| && r[10..] == rdata
  {
    kind.ToBeBytes() + qclass.ToBeBytes() + U32ToBe(ttl) + U16ToBe(|rdata| % 0x1_0000) + rdata
  }

  /** The field bytes as the two inserts of `add_answer` write them: kind
      and class, then TTL and data. */
  lemma FieldBytesParts(kind: QueryKinds.QueryKind, qclass: QueryClasses.QueryClass, ttl: u32, rdata: seq<u8>)
    ensures FieldBytes(kind, qclass, ttl, rdata)
         == (kind.ToBeBytes() + qclass.ToBeBytes()) + (U32ToBe(ttl) + (U16ToBe(|rdata| % 0x1_0000) + rdata))
  {
  }

  /** The field bytes at `j` read back as the same kind (as `From<u16>`
      maps its code back), class, TTL and data, as long as the data length
      survives the 16-bit cast. */
  lemma FieldsWritten(buf: seq<u8>, i: nat, j: nat, kind: QueryKinds.QueryKind, qclass: QueryClasses.QueryClass, ttl: u32, rdata: seq<u8>)
    requires |rdata| < 0x1_0000
    requires j + 10 + |rdata| <= |buf| && buf[j..j + 10 + |rdata|] == FieldBytes(kind, qclass, ttl, rdata)
    ensures ReadFields(buf, i, j) == (Some(Answer(Name(buf, i), QueryKinds.AfterRoundTrip(kind), qclass, ttl, rdata)), j + 10 + |rdata|)
  {
    FieldsReadBack(buf, j, kind, qclass, ttl, rdata);
    ReadFieldsOf(buf, i, j, j + 2, j + 4, j + 8, QueryKinds.AfterRoundTrip(kind), qclass, ttl, rdata);
  }

  /** Each field of the field bytes at `j` reads back on its own. */
  lemma FieldsReadBack(buf: seq<u8>, j: nat, kind: QueryKinds.QueryKind, qclass: QueryClasses.QueryClass, ttl: u32, rdata: seq<u8>)
    requires |rdata| < 0x1_0000
    requires j + 10 + |rdata| <= |buf| && buf[j..j + 10 + |rdata|] == FieldBytes(kind, qclass, ttl, rdata)
    ensures QueryKinds.Read(buf, j) == (Some(QueryKinds.AfterRoundTrip(kind)), j + 2)
    ensures QueryClasses.Read(buf, j + 2) == (Some(qclass), j + 4)
    ensures ReadTtl(buf, j + 4) == (Some(ttl), j + 8)
    ensures ReadRdata(buf, j + 8) == (Some(rdata), j + 10 + |rdata|)
  {
    var kb, cb, tb := kind.ToBeBytes(), qclass.ToBeBytes(), U32ToBe(ttl);
    var rest := U16ToBe(|rdata| % 0x1_0000) + rdata;
    assert FieldBytes(kind, qclass, ttl, rdata) == kb + cb + (tb + rest);
    SliceParts(buf, j, kb, cb, tb + rest);
    SliceParts(buf, j + 4, tb, rest, []);
    QueryKinds.ReadToBeBytes(buf, j, kind);
    QueryClasses.ReadToBeBytes(buf, j + 2, qclass);
    ReadTtlOfBytes(buf, j + 4, ttl);
    ReadRdataOfBytes(buf, j + 8, rdata);
  }

  /** The fields read in turn, each from where the previous one ended,
      make up the answer. */
  lemma ReadFieldsOf(buf: seq<u8>, i: nat, j: nat, j2: nat, j4: nat, j8: nat,
                     kind: QueryKinds.QueryKind, qclass: QueryClasses.QueryClass, ttl: u32, rdata: seq<u8>)
    requires QueryKinds.Read(buf, j) == (Some(kind), j2)
    requires QueryClasses.Read(buf, j2) == (Some(qclass), j4)
    requires ReadTtl(buf, j4) == (Some(ttl), j8)
    requires ReadRdata(buf, j8) == (Some(rdata), j8 + 2 + |rdata|)
    ensures ReadFields(buf, i, j) == (Some(Answer(Name(buf, i), kind, qclass, ttl, rdata)), j8 + 2 + |rdata|)
  {
  }

  /** An answer whose name reads back at `off` and ends at `j`, followed
      by its field bytes, reads back whole: that name, the kind as
      `From<u16>` maps its code back, the same class, TTL and data. */
  lemma ReadWritten(buf: seq<u8>, off: nat, j: nat, end: nat, kind: QueryKinds.QueryKind, qclass: QueryClasses.QueryClass, ttl: u32, rdata: seq<u8>)
    requires NameRead(buf, off) == (Some(Name(buf, off)), j)
    requires |rdata| < 0x1_0000
    requires end == j + 10 + |rdata| && end <= |buf| && buf[j..end] == FieldBytes(kind, qclass, ttl, rdata)
    ensures Read(buf, off) == (Some(Answer(Name(buf, off), QueryKinds.AfterRoundTrip(kind), qclass, ttl, rdata)), end)
  {
    FieldsWritten(buf, off, j, kind, qclass, ttl, rdata);
    AfterName(buf, off);
  }

  /** Once the name at `i` reads back, reading the answer is reading its
      fields after the name. */
  lemma AfterName(buf: seq<u8>, i: nat)
    requires NameRead(buf, i).0.Some?
    ensures Read(buf, i) == ReadFields(buf, i, NameRead(buf, i).1)
  {
  }

  /** The fields after a name ending at `j` read the same after a name
      ending at `j'` in another buffer that holds the same field bytes
      there: the same kind, class, TTL and data, the same number of bytes
      on. */
  lemma FieldsMoved(buf: seq<u8>, i: nat, j: nat, buf': seq<u8>, i': nat, j': nat)
    requires ReadFields(buf, i, j).0.Some?
    requires var end := ReadFields(buf, i, j).1;
      j' + (end - j) <= |buf'| && buf'[j'..j' + (end - j)] == buf[j..end]
    ensures ReadFields(buf', i', j') == (Some(ReadFields(buf, i, j).0.value.(name := Name(buf', i'))), ReadFields(buf, i, j).1 - j + j')
  {
    var end := ReadFields(buf, i, j).1;
    var end' := j' + (end - j);
    var w := buf[j..end];
    var r := ReadFields(buf, i, j).0.value;
    FieldsDecoded(buf, i, j);
    assert buf'[j'] == w[0] == buf[j] && buf'[j' + 1] == w[1] == buf[j + 1];
    assert buf'[j' + 2] == w[2] == buf[j + 2] && buf'[j' + 3] == w[3] == buf[j + 3];
    assert buf'[j' + 4] == w[4] == buf[j + 4] && buf'[j' + 5] == w[5] == buf[j + 5];
    assert buf'[j' + 6] == w[6] == buf[j + 6] && buf'[j' + 7] == w[7] == buf[j + 7];
    assert buf'[j' + 8] == w[8] == buf[j + 8] && buf'[j' + 9] == w[9] == buf[j + 9];
    assert buf'[j' + 10..end'] == buf'[j'..end'][10..] == w[10..] == buf[j + 10..end];
    assert ReadRdata(buf, j + 8).1 == end;
    ReadFieldsOf(buf', i', j', j' + 2, j' + 4, j' + 8, r.kind, r.qclass, r.ttl, r.rdata);
  }

  /** An answer whose name ends at `j` reads the same at `i'` in another
      buffer whose name there ends at `j'` and which holds the same field
      bytes after it: the same kind, class, TTL and data, the same number
      of bytes on. */
  lemma AnswerMoved(buf: seq<u8>, i: nat, j: nat, end: nat, buf': seq<u8>, i': nat, j': nat, end': nat)
    requires NameRead(buf, i) == (Some(Name(buf, i)), j) && NameRead(buf', i') == (Some(Name(buf', i')), j')
    requires End(buf, i) == Some(end) && j <= end && end' == j' + (end - j)
    requires end' <= |buf'| && buf'[j'..end'] == buf[j..end]
    ensures End(buf', i') == Some(end')
    ensures Read(buf', i').0 == Some(Read(buf, i).0.value.(name := Name(buf', i')))
  {
    ReadEnd(buf, i);
    AfterName(buf, i);
    FieldsMoved(buf, i, j, buf', i', j');
    AfterName(buf', i');
    ReadEnd(buf', i');
  }

  /** An answer whose name has the shape `PointsBelow` describes reads
      back whole from `i + d` once `d` bytes were inserted at `at`: the
      same kind, class, TTL and data, the name moved with it, and the
      answer ends `d` places further up. */
  lemma ReadMoved(buf: seq<u8>, buf': seq<u8>, at: nat, d: nat, lo: nat, i: nat)
    requires Shifted(buf, buf', at, d, lo) && PointsBelow(buf, i, at, lo) && End(buf, i).Some?
    ensures End(buf', i + d) == Some(End(buf, i).value + d)
    ensures Read(buf, i).0.Some? && Read(buf', i + d).0 == Some(Read(buf, i).0.value.(name := Name(buf', i + d)))
  {
    var j := NameRead(buf, i).1;
    var end := End(buf, i).value;
    NameBeforeFields(buf, i);
    NameReadMoved(buf, buf', at, d, lo, i, j);
    ShiftedSlice(buf, buf', at, d, lo, j, end);
    AnswerMoved(buf, i, j, end, buf', i + d, j + d, end + d);
    ReadEnd(buf, i);
  }

  /** The name of an answer that reads ends before the answer does. */
  lemma NameBeforeFields(buf: seq<u8>, i: nat)
    requires End(buf, i).Some?
    ensures NameRead(buf, i) == (Some(Name(buf, i)), NameRead(buf, i).1) && NameRead(buf, i).1 <= End(buf, i).value
  {
  }

  /** A name of the shape `PointsBelow` describes that ends at `j` reads
      from `i + d` to `j + d` once `d` bytes were inserted at `at`. */
  lemma NameReadMoved(buf: seq<u8>, buf': seq<u8>, at: nat, d: nat, lo: nat, i: nat, j: nat)
    requires Shifted(buf, buf', at, d, lo) && PointsBelow(buf, i, at, lo)
    requires NameRead(buf, i) == (Some(Name(buf, i)), j)
    ensures NameRead(buf', i + d) == (Some(Name(buf', i + d)), j + d)
  {
    NameShift(buf, buf', at, d, lo, i);
  }

  /** `Answers`: the iterator over the answer section, bounded by the
      header's count. */
  class Answers {
    const answerCount: nat
    var currentAnswer: nat
    const buf: seq<u8>
    var bufI: nat
    /** Where the first answer starts. */
    ghost const start: nat

    /** It never hands out more answers than the header counts, and the
        cursor sits right after the answers handed out so far. */
    ghost predicate Valid()
      reads this
    {
      && currentAnswer <= answerCount
      && Skip(buf, start, currentAnswer) == Some(bufI)
    }

    constructor (answerCount: nat, buf: seq<u8>, bufI: nat)
      ensures Valid()
      ensures this.answerCount == answerCount && this.buf == buf && this.bufI == bufI
      ensures start == bufI && currentAnswer == 0
    {
      this.answerCount := answerCount;
      this.currentAnswer := 0;
      this.buf := buf;
      this.bufI := bufI;
      this.start := bufI;
    }

    /** `Answers::next`: nothing once `answerCount` answers were handed
        out; otherwise the answer at the cursor, moving the cursor and the
        count only when it decoded. */
    method Next() returns (a: Option<Answer>)
      requires Valid()
      modifies this
      ensures Valid()
      ensures old(currentAnswer) >= answerCount ==> a.None? && currentAnswer == old(currentAnswer) && bufI == old(bufI)
      ensures old(currentAnswer) < answerCount ==>
        && a == Read(buf, old(bufI)).0
        && (a.Some? ==> currentAnswer == old(currentAnswer) + 1 && bufI == Read(buf, old(bufI)).1)
        && (a.None? ==> currentAnswer == old(currentAnswer) && bufI == old(bufI))
    {
      if currentAnswer >= answerCount {
        return None;
      }
      var i := bufI;
      var read := Read(buf, i);
      if read.0.None? {
        return None;
      }
      ReadEnd(buf, i);
      SkipStep(buf, start, currentAnswer, i);
      currentAnswer := currentAnswer + 1;
      bufI := read.1;
      return read.0;
    }
  }
}
