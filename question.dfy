/** A question entry (section 4.1.2 of RFC 1035): a name, a 2-byte QTYPE
    and a 2-byte QCLASS, and the iterator over the question section. */
module QuestionRecord {
  import opened Wire
  import opened Names
  import QueryKinds
  import QueryClasses

  /** A decoded question: a view of its name, its kind and its class. */
  datatype Question = Question(name: Name, kind: QueryKinds.QueryKind, qclass: QueryClasses.QueryClass)

  /** `Question::read`: the name, then the kind, then the class, on a local
      cursor that is handed back only when all three decoded (`ReadEnd` and
      `Decoded` spell out when that is and what it hands back). */
  function Read(buf: seq<u8>, i: nat): (r: (Option<Question>, nat))
    ensures r.0.None? ==> r.1 == i
    ensures r.0.Some? ==> i < r.1 <= |buf| && r.0.value.name == Name(buf, i)
  {
    var name := NameRead(buf, i);
    if name.0.None? then (None, i)
    else ReadFields(buf, i, name.1)
  }

  /** The part of `Question::read` after the name that starts at `i` and
      ends at `j`; the cursor stays at `i` on failure. */
  function ReadFields(buf: seq<u8>, i: nat, j: nat): (r: (Option<Question>, nat))
    ensures r.0.None? ==> r.1 == i
    ensures r.0.Some? ==> r.1 == j + 2 + 2 <= |buf|
    ensures r.0.Some? ==> r.0.value.name == Name(buf, i)
  {
    var kind := QueryKinds.Read(buf, j);
    if kind.0.None? then (None, i)
    else
      var qclass := QueryClasses.Read(buf, kind.1);
      if qclass.0.None? then (None, i)
      else (Some(Question(Name(buf, i), kind.0.value, qclass.0.value)), qclass.1)
  }

  /** Where `Question::read` leaves the cursor, or `None` where it fails:
      the name must decode and four bytes of kind and class must follow
      it. The decoded kind and class play no part in it. */
  function End(buf: seq<u8>, i: nat): (r: Option<nat>)
    ensures r.Some? ==> i < r.value <= |buf|
  {
    var name := NameRead(buf, i);
    if name.0.None? || name.1 + 4 > |buf| then None else Some(name.1 + 4)
  }

  /** `Question::read` succeeds exactly where `End` is defined, and leaves
      the cursor there. */
  lemma ReadEnd(buf: seq<u8>, i: nat)
    ensures Read(buf, i).0.Some? <==> End(buf, i).Some?
    ensures End(buf, i).Some? ==> Read(buf, i).1 == End(buf, i).value
  {
  }

  /** What `Question::read` hands back when it succeeds: a view of the name
      at `i`, and the kind and class decoded from the four bytes after it. */
  lemma Decoded(buf: seq<u8>, i: nat)
    requires Read(buf, i).0.Some?
    ensures var j := NameRead(buf, i).1;
      && NameRead(buf, i).0.Some? && j + 4 <= |buf|
      && Read(buf, i).0.value == Question(
        Name(buf, i),
        QueryKinds.FromU16(U16FromBe(buf[j], buf[j + 1])),
        QueryClasses.FromU16(U16FromBe(buf[j + 2], buf[j + 3])))
  {
  }

  /** The cursor after `count` questions read back to back from `i`, or
      `None` if one of them does not decode. */
  function Skip(buf: seq<u8>, i: nat, count: nat): (r: Option<nat>)
    ensures r.Some? ==> i <= r.value
    ensures r.Some? && count > 0 ==> r.value <= |buf|
    decreases count
  {
    if count == 0 then Some(i)
    else
      var e := End(buf, i);
      if e.None? then None else Skip(buf, e.value, count - 1)
  }

  /** Reading one more question after `count` of them extends `Skip`. */
  lemma {:induction false} SkipStep(buf: seq<u8>, i: nat, count: nat, j: nat)
    requires Skip(buf, i, count) == Some(j)
    requires End(buf, j).Some?
    ensures Skip(buf, i, count + 1) == End(buf, j)
    decreases count
  {
    if count > 0 {
      SkipStep(buf, End(buf, i).value, count - 1, j);
    }
  }

  /** `Question::read` where only its outcome and the cursor matter, as in
      the loops of `Message` that skip over the section: whether it
      succeeded, and the cursor, moved to where `End` says on success and
      left alone on failure. */
  method ReadOver(buf: seq<u8>, i: nat) returns (ok: bool, i': nat)
    ensures ok <==> End(buf, i).Some?
    ensures i' == if ok then End(buf, i).value else i
  {
    var read := Read(buf, i);
    ReadEnd(buf, i);
    return read.0.Some?, read.1;
  }

  /** The loop of `questions_end`: `count` questions skipped in turn with `ReadOver`
      from `i`, each of which the source asserts decodes. */
  method SkipOver(buf: seq<u8>, i: nat, count: nat) returns (i': nat)
    requires Skip(buf, i, count).Some?
    ensures Skip(buf, i, count) == Some(i')
  {
    i' := i;
    ghost var end := Skip(buf, i, count).value;
    ghost var left := count;
    for k := 0 to count
      invariant left + k == count && Skip(buf, i', left) == Some(end)
    {
      ghost var rest := left - 1;
      SkipCons(buf, i', left, rest);
      var ok;
      ok, i' := ReadOver(buf, i');
      assert ok;
      left := rest;
    }
  }

  /** Skipping `rest + 1` items from `i` reads the first and skips the
      `rest` after it, and fails where the first fails. */
  lemma SkipCons(buf: seq<u8>, i: nat, count: nat, rest: nat)
    requires count == rest + 1
    ensures Skip(buf, i, count) == if End(buf, i).None? then None else Skip(buf, End(buf, i).value, rest)
  {
  }

  /** A question whose name reads nothing below `lo` ends at the same
      place in a buffer that agrees from `lo` on. */
  lemma EndAgrees(buf: seq<u8>, buf': seq<u8>, i: nat, lo: nat)
    requires DecodesAbove(buf, i, lo) && End(buf, i).Some? && AgreeFrom(buf, buf', lo)
    ensures End(buf', i) == End(buf, i)
  {
    NameAgrees(buf, buf', i, lo);
  }

  /** A question whose name reads back at `off` and ends at `j`, followed
      by the bytes of a kind and a class, reads back whole: that name, the
      kind as `From<u16>` maps its code back, the same class. */
  lemma ReadWritten(buf: seq<u8>, off: nat, j: nat, end: nat, kind: QueryKinds.QueryKind, qclass: QueryClasses.QueryClass)
    requires NameRead(buf, off) == (Some(Name(buf, off)), j)
    requires end == j + 4 && end <= |buf| && buf[j..end] == kind.ToBeBytes() + qclass.ToBeBytes()
    ensures Read(buf, off) == (Some(Question(Name(buf, off), QueryKinds.AfterRoundTrip(kind), qclass)), end)
  {
    FieldsWritten(buf, off, j, kind, qclass);
    AfterName(buf, off);
  }

  /** Once the name at `i` reads back, reading the question is reading its
      fields after the name. */
  lemma AfterName(buf: seq<u8>, i: nat)
    requires NameRead(buf, i).0.Some?
    ensures Read(buf, i) == ReadFields(buf, i, NameRead(buf, i).1)
  {
  }

  /** A kind and a class written as bytes at `j` read back as the kind
      `From<u16>` maps its code back to and the same class. */
  lemma FieldsWritten(buf: seq<u8>, i: nat, j: nat, kind: QueryKinds.QueryKind, qclass: QueryClasses.QueryClass)
    requires j + 4 <= |buf| && buf[j..j + 4] == kind.ToBeBytes() + qclass.ToBeBytes()
    ensures ReadFields(buf, i, j) == (Some(Question(Name(buf, i), QueryKinds.AfterRoundTrip(kind), qclass)), j + 4)
  {
    SliceHalves(buf, j, j + 2, j + 4, kind.ToBeBytes(), qclass.ToBeBytes());
    QueryKinds.ReadToBeBytes(buf, j, kind);
    QueryClasses.ReadToBeBytes(buf, j + 2, qclass);
  }

  /** `Questions`: the iterator over the question section, bounded by the
      header's count. */
  class Questions {
    const questionCount: nat
    var currentQuestion: nat
    const buf: seq<u8>
    var bufI: nat
    /** Where the first question starts. */
    ghost const start: nat

    /** It never hands out more questions than the header counts, and the
        cursor sits right after the questions handed out so far. */
    ghost predicate Valid()
      reads this
    {
      && currentQuestion <= questionCount
      && Skip(buf, start, currentQuestion) == Some(bufI)
    }

    constructor (questionCount: nat, buf: seq<u8>, bufI: nat)
      ensures Valid()
      ensures this.questionCount == questionCount && this.buf == buf && this.bufI == bufI
      ensures start == bufI && currentQuestion == 0
    {
      this.questionCount := questionCount;
      this.currentQuestion := 0;
      this.buf := buf;
      this.bufI := bufI;
      this.start := bufI;
    }

    /** `Questions::next`: nothing once `questionCount` questions were
        handed out; otherwise the question at the cursor, moving the
        cursor and the count only when it decoded. */
    method Next() returns (q: Option<Question>)
      requires Valid()
      modifies this
      ensures Valid()
      ensures old(currentQuestion) >= questionCount ==> q.None? && currentQuestion == old(currentQuestion) && bufI == old(bufI)
      ensures old(currentQuestion) < questionCount ==>
        && q == Read(buf, old(bufI)).0
        && (q.Some? ==> currentQuestion == old(currentQuestion) + 1 && bufI == Read(buf, old(bufI)).1)
        && (q.None? ==> currentQuestion == old(currentQuestion) && bufI == old(bufI))
    {
      if currentQuestion >= questionCount {
        return None;
      }
      var i := bufI;
      var read := Read(buf, i);
      if read.0.None? {
        return None;
      }
      ReadEnd(buf, i);
      SkipStep(buf, start, currentQuestion, i);
      currentQuestion := currentQuestion + 1;
      bufI := read.1;
      return read.0;
    }
  }
}
