/** A DNS message over a caller's buffer: building one from a header and
    records, parsing one, and the iterators over its sections. */
module Messages {
  import opened Wire
  import opened Names
  import Hdr = Header
  import QueryKinds
  import QueryClasses
  import Q = QuestionRecord
  import A = AnswerRecord

  /** The buffer `s` after `bytes` went in at `i` of a message `len` bytes
      long: what came before `i`, the new bytes, the rest of the message
      moved up by `|bytes|`, and the buffer past the grown message as it
      was. */
  function Splice(s: seq<u8>, len: nat, i: nat, bytes: seq<u8>): (r: seq<u8>)
    requires i <= len && len + |bytes| <= |s|
    ensures |r| == |s|
  {
    s[..i] + bytes + s[i..len] + s[len + |bytes|..]
  }

  /** Byte by byte, a splice keeps what lies before `i`, holds the new bytes
      from `i`, the old message bytes from `i` on moved up by `|bytes|`, and
      the old buffer past the grown message. */
  lemma SpliceAt(s: seq<u8>, len: nat, i: nat, bytes: seq<u8>)
    requires i <= len && len + |bytes| <= |s|
    ensures forall k :: 0 <= k < |s| ==>
      Splice(s, len, i, bytes)[k] ==
        if k < i then s[k]
        else if k < i + |bytes| then bytes[k - i]
        else if k < len + |bytes| then s[k - |bytes|]
        else s[k]
  {
    var r := Splice(s, len, i, bytes);
    assert r == s[..i] + bytes + s[i..len] + s[len + |bytes|..];
    forall k | 0 <= k < |s|
      ensures r[k] == if k < i then s[k]
                      else if k < i + |bytes| then bytes[k - i]
                      else if k < len + |bytes| then s[k - |bytes|]
                      else s[k]
    {
    }
  }

  /** The message part of a spliced buffer: the new bytes sit at `i`
      between the old halves of the message. */
  lemma SpliceMessage(s: seq<u8>, len: nat, i: nat, bytes: seq<u8>)
    requires i <= len && len + |bytes| <= |s|
    ensures Splice(s, len, i, bytes)[..len + |bytes|] == s[..i] + bytes + s[i..len]
  {
    var r := Splice(s, len, i, bytes);
    var m := s[..i] + bytes + s[i..len];
    SpliceAt(s, len, i, bytes);
    assert |r[..len + |bytes|]| == |m|;
    forall k | 0 <= k < |m|
      ensures r[k] == m[k]
    {
    }
  }

  /** A splice seen as the grown message and the bytes past it: the old
      message with `bytes` inserted at `i`, then the untouched tail. */
  lemma SpliceParts(s: seq<u8>, len: nat, i: nat, bytes: seq<u8>)
    requires i <= len && len + |bytes| <= |s|
    ensures Splice(s, len, i, bytes)[..len + |bytes|] == s[..len][..i] + bytes + s[..len][i..]
    ensures Splice(s, len, i, bytes)[len + |bytes|..] == s[len + |bytes|..]
  {
    SpliceMessage(s, len, i, bytes);
    assert s[..len][..i] == s[..i] && s[..len][i..] == s[i..len];
  }

  /** Two inserts at a moving cursor are one insert of both byte strings. */
  lemma SpliceTwice(s: seq<u8>, len: nat, i: nat, a: seq<u8>, b: seq<u8>, len': nat, i': nat)
    requires i <= len && len' == len + |a| && i' == i + |a| && len' + |b| <= |s|
    ensures Splice(Splice(s, len, i, a), len', i', b) == Splice(s, len, i, a + b)
  {
    var r := Splice(Splice(s, len, i, a), len', i', b);
    var t := Splice(s, len, i, a + b);
    SpliceAt(s, len, i, a);
    SpliceAt(Splice(s, len, i, a), len', i', b);
    SpliceAt(s, len, i, a + b);
    forall k | 0 <= k < |s|
      ensures r[k] == t[k]
    {
    }
  }

  /** What `parse` makes of a buffer: `None` when its size is outside
      12..512 or one of the questions the header counts does not decode;
      otherwise the message length, just past the last question. */
  function ParsedLen(bytes: seq<u8>): (r: Option<nat>)
    ensures r.Some? ==> HEADER_SIZE <= |bytes| <= HEADER_SIZE + MAX_MESSAGE_SIZE
    ensures r.Some? ==> HEADER_SIZE <= r.value <= |bytes|
    ensures r.None? <==>
      || |bytes| < HEADER_SIZE || |bytes| > HEADER_SIZE + MAX_MESSAGE_SIZE
      || Q.Skip(bytes, HEADER_SIZE, Hdr.FromBytes(bytes).QuestionCount()).None?
  {
    if |bytes| < HEADER_SIZE || |bytes| > HEADER_SIZE + MAX_MESSAGE_SIZE then None
    else Q.Skip(bytes, HEADER_SIZE, Hdr.FromBytes(bytes).QuestionCount())
  }

  /** Every question the iterator reaches from `i`, at most `count` of them,
      has a name whose labels can all be sliced, as `create_pointer`
      expects of the names it walks. */
  predicate NamesReadable(bytes: seq<u8>, i: nat, count: nat)
    decreases count
  {
    count == 0 || Q.End(bytes, i).None? ||
      (Readable(bytes, i) && NamesReadable(bytes, Q.End(bytes, i).value, count - 1))
  }

  /** The pointer target the first loop of `add_name` settles on: the first
      question, in order, in whose name `create_pointer` finds a suffix
      equal to `name`. The target starts a name with the same labels as
      `name`, ignoring ASCII case. Where a name could not be walked
      (`add_name` would panic there) no target is found. */
  function PointerTarget(bytes: seq<u8>, i: nat, count: nat, name: Name): (r: Option<nat>)
    ensures r.Some? ==> r.value < |bytes|
    decreases count
  {
    if count == 0 || Q.End(bytes, i).None? || !Readable(bytes, i) || !Readable(name.buf, name.start) then None
    else
      var t := PointerSearch(bytes, i, name);
      if t.Some? then t else PointerTarget(bytes, Q.End(bytes, i).value, count - 1, name)
  }

  /** The target starts a name with the same labels as `name`, ignoring
      ASCII case. */
  lemma {:induction false} PointerTargetMatches(bytes: seq<u8>, i: nat, count: nat, name: Name)
    ensures var r := PointerTarget(bytes, i, count, name);
      r.Some? ==> && Readable(bytes, r.value) && Readable(name.buf, name.start)
                  && EqualLabels(Contents(bytes, LabelsFrom(bytes, r.value)), name.LabelContents())
    decreases count
  {
    if count == 0 || Q.End(bytes, i).None? || !Readable(bytes, i) || !Readable(name.buf, name.start) {
    } else if PointerSearch(bytes, i, name).Some? {
      PointerSearchMatches(bytes, i, name);
    } else {
      var next, rest := Q.End(bytes, i).value, count - 1;
      PointerTargetStep(bytes, i, count, name, next, rest);
      PointerTargetMatches(bytes, next, rest, name);
    }
  }

  /** The question reached after `k` questions from `i` reads, its name
      can be walked label by label, and a non-empty run of that name's last
      labels equals the labels of `name`, ignoring ASCII case. */
  predicate QuestionMatches(bytes: seq<u8>, i: nat, k: nat, name: Name) {
    var p := Q.Skip(bytes, i, k);
    && Readable(name.buf, name.start)
    && p.Some? && Q.End(bytes, p.value).Some? && Readable(bytes, p.value)
    && exists d :: 0 <= d < |LabelsFrom(bytes, p.value)| &&
         EqualLabels(Contents(bytes, LabelsFrom(bytes, p.value))[d..], name.LabelContents())
  }

  /** The question at `i` matches exactly when `create_pointer` finds a
      target in its name. */
  lemma QuestionMatchesHere(bytes: seq<u8>, i: nat, name: Name)
    requires Q.End(bytes, i).Some? && Readable(bytes, i) && Readable(name.buf, name.start)
    ensures QuestionMatches(bytes, i, 0, name) <==> PointerSearch(bytes, i, name).Some?
  {
    var xs := Contents(bytes, LabelsFrom(bytes, i));
    PointerSearchFindsFirstSuffix(bytes, i, name);
    FirstMatchIsFirst(xs, name.LabelContents());
    assert Q.Skip(bytes, i, 0) == Some(i);
  }

  /** Counting from the question after the one at `i`, every question is
      one place earlier. */
  lemma QuestionMatchesLater(bytes: seq<u8>, i: nat, next: nat, k: nat, name: Name)
    requires Q.End(bytes, i) == Some(next) && k >= 1
    ensures QuestionMatches(bytes, i, k, name) == QuestionMatches(bytes, next, k - 1, name)
  {
    Q.SkipCons(bytes, i, k, k - 1);
  }

  /** No question from `i` on matches when the question at `i` does not read. */
  lemma NoQuestionMatches(bytes: seq<u8>, i: nat, k: nat, name: Name)
    requires Q.End(bytes, i).None?
    ensures !QuestionMatches(bytes, i, k, name)
  {
    if k > 0 {
      Q.SkipCons(bytes, i, k, k - 1);
    }
  }

  /** The first loop of `add_name` finds a target exactly when one of the
      first `count` questions from `i` has a name ending in the labels of
      `name`: the search misses no question it reaches. */
  lemma {:induction false} PointerTargetFound(bytes: seq<u8>, i: nat, count: nat, name: Name)
    requires NamesReadable(bytes, i, count) && Readable(name.buf, name.start)
    ensures PointerTarget(bytes, i, count, name).Some? <==> exists k :: 0 <= k < count && QuestionMatches(bytes, i, k, name)
    decreases count
  {
    if count == 0 {
    } else if Q.End(bytes, i).None? {
      forall k | 0 <= k < count
        ensures !QuestionMatches(bytes, i, k, name)
      {
        NoQuestionMatches(bytes, i, k, name);
      }
    } else {
      var next, rest := Q.End(bytes, i).value, count - 1;
      NamesReadableStep(bytes, i, count, next, rest);
      PointerTargetStep(bytes, i, count, name, next, rest);
      QuestionMatchesHere(bytes, i, name);
      if PointerSearch(bytes, i, name).None? {
        PointerTargetFound(bytes, next, rest, name);
        forall k | 1 <= k < count
          ensures QuestionMatches(bytes, i, k, name) == QuestionMatches(bytes, next, k - 1, name)
        {
          QuestionMatchesLater(bytes, i, next, k, name);
        }
        if k' :| 0 <= k' < rest && QuestionMatches(bytes, next, k', name) {
          assert QuestionMatches(bytes, i, k' + 1, name);
        }
      }
    }
  }

  /** When the question `k` places after `i` is the first whose name ends
      in the labels of `name`, the target of `add_name` is what
      `create_pointer` finds in that question's name. */
  lemma PointerTargetFirst(bytes: seq<u8>, i: nat, count: nat, name: Name, k: nat)
    requires NamesReadable(bytes, i, count) && Readable(name.buf, name.start)
    requires k < count && QuestionMatches(bytes, i, k, name)
    requires forall k' :: 0 <= k' < k ==> !QuestionMatches(bytes, i, k', name)
    ensures PointerTarget(bytes, i, count, name) == PointerSearch(bytes, Q.Skip(bytes, i, k).value, name)
  {
    NamesReadableFewer(bytes, i, count, k);
    PointerTargetFound(bytes, i, k, name);
    var p := Q.Skip(bytes, i, k).value;
    assert Q.Skip(bytes, p, 0) == Some(p);
    QuestionMatchesHere(bytes, p, name);
    PointerTargetAfter(bytes, i, count, name, k);
  }

  /** The question reached after `k` questions from `i` reads, and
      `create_pointer` finds a target in its name. */
  predicate FoundAt(bytes: seq<u8>, i: nat, k: nat, name: Name) {
    var p := Q.Skip(bytes, i, k);
    && Readable(name.buf, name.start)
    && p.Some? && Q.End(bytes, p.value).Some? && Readable(bytes, p.value)
    && PointerSearch(bytes, p.value, name).Some?
  }

  /** When none of the first `k` questions from `i` gives a target and
      `create_pointer` finds one in the next, that is the target. */
  lemma PointerTargetAfter(bytes: seq<u8>, i: nat, count: nat, name: Name, k: nat)
    requires NamesReadable(bytes, i, count)
    requires k < count && FoundAt(bytes, i, k, name) && PointerTarget(bytes, i, k, name).None?
    ensures PointerTarget(bytes, i, count, name) == PointerSearch(bytes, Q.Skip(bytes, i, k).value, name)
  {
    var p, rest := Q.Skip(bytes, i, k).value, count - k;
    PointerTargetSkip(bytes, i, count, name, k, p, rest);
    NamesReadableSkip(bytes, i, count, k, p, rest);
    PointerTargetStep(bytes, p, rest, name, Q.End(bytes, p).value, rest - 1);
  }

  /** When none of the first `k` questions from `i` gives a target, the
      search goes on from the question `p` after them with what is left of
      the count. */
  lemma {:induction false} PointerTargetSkip(bytes: seq<u8>, i: nat, count: nat, name: Name, k: nat, p: nat, rest: nat)
    requires NamesReadable(bytes, i, count) && Readable(name.buf, name.start)
    requires count == k + rest && Q.Skip(bytes, i, k) == Some(p) && PointerTarget(bytes, i, k, name).None?
    ensures PointerTarget(bytes, i, count, name) == PointerTarget(bytes, p, rest, name)
    decreases k
  {
    if k == 0 {
      assert Q.Skip(bytes, i, 0) == Some(i);
    } else {
      var next, left, before := PointerTargetSkipStep(bytes, i, count, name, k, p);
      PointerTargetSkip(bytes, next, left, name, before, p, rest);
    }
  }

  /** The step of `PointerTargetSkip`: the question at `i` gives no target,
      so the search and both counts move one question on. */
  lemma PointerTargetSkipStep(bytes: seq<u8>, i: nat, count: nat, name: Name, k: nat, p: nat)
    returns (next: nat, left: nat, before: nat)
    requires NamesReadable(bytes, i, count) && Readable(name.buf, name.start)
    requires 1 <= k <= count && Q.Skip(bytes, i, k) == Some(p) && PointerTarget(bytes, i, k, name).None?
    ensures left == count - 1 && before == k - 1
    ensures NamesReadable(bytes, next, left) && PointerTarget(bytes, next, before, name).None?
    ensures Q.Skip(bytes, next, before) == Some(p)
    ensures PointerTarget(bytes, i, count, name) == PointerTarget(bytes, next, left, name)
  {
    left, before := count - 1, k - 1;
    Q.SkipCons(bytes, i, k, before);
    next := Q.End(bytes, i).value;
    NamesReadableStep(bytes, i, count, next, left);
    PointerTargetStep(bytes, i, count, name, next, left);
    PointerTargetStep(bytes, i, k, name, next, before);
  }

  /** The names of the questions from the one `p` after the first `k` are
      readable too. */
  lemma {:induction false} NamesReadableSkip(bytes: seq<u8>, i: nat, count: nat, k: nat, p: nat, rest: nat)
    requires NamesReadable(bytes, i, count) && count == k + rest && Q.Skip(bytes, i, k) == Some(p)
    ensures NamesReadable(bytes, p, rest)
    decreases k
  {
    if k > 0 {
      var next, left, before := Q.End(bytes, i).value, count - 1, k - 1;
      Q.SkipCons(bytes, i, k, before);
      NamesReadableNext(bytes, i, count, next, left);
      NamesReadableSkip(bytes, next, left, before, p, rest);
    }
  }

  /** The names of fewer questions are readable too. */
  lemma {:induction false} NamesReadableFewer(bytes: seq<u8>, i: nat, count: nat, k: nat)
    requires NamesReadable(bytes, i, count) && k <= count
    ensures NamesReadable(bytes, i, k)
    decreases count
  {
    if k > 0 && Q.End(bytes, i).Some? {
      NamesReadableFewer(bytes, Q.End(bytes, i).value, count - 1, k - 1);
    }
  }

  /** One question further, the names of the questions after the one at
      `at` are readable. */
  lemma NamesReadableNext(bytes: seq<u8>, at: nat, count: nat, next: nat, rest: nat)
    requires count == rest + 1 && Q.End(bytes, at) == Some(next) && NamesReadable(bytes, at, count)
    ensures NamesReadable(bytes, next, rest)
  {
  }

  /** One question further: when the question at `at` reads, its name is
      readable and so are the names of the questions after it. */
  lemma NamesReadableStep(bytes: seq<u8>, at: nat, count: nat, next: nat, rest: nat)
    requires count == rest + 1 && Q.End(bytes, at) == Some(next) && NamesReadable(bytes, at, count)
    ensures Readable(bytes, at) && NamesReadable(bytes, next, rest)
  {
  }

  /** One question further: the search goes on with the questions after
      the one at `at` only when `create_pointer` finds nothing in its name. */
  lemma PointerTargetStep(bytes: seq<u8>, at: nat, count: nat, name: Name, next: nat, rest: nat)
    requires count == rest + 1 && Q.End(bytes, at) == Some(next) && Readable(name.buf, name.start)
    requires Readable(bytes, at)
    ensures PointerSearch(bytes, at, name).Some? ==> PointerTarget(bytes, at, count, name) == PointerSearch(bytes, at, name)
    ensures PointerSearch(bytes, at, name).None? ==> PointerTarget(bytes, at, count, name) == PointerTarget(bytes, next, rest, name)
  {
    var t := PointerSearch(bytes, at, name);
    assert PointerTarget(bytes, at, count, name) == if t.Some? then t else PointerTarget(bytes, next, rest, name);
  }

  /** The labels of a readable name fit in length bytes. */
  lemma LabelsByteSized(name: Name)
    requires Readable(name.buf, name.start)
    ensures ByteSized(name.LabelContents())
  {
    var ls := name.LabelContents();
    forall k | 0 <= k < |ls|
      ensures |ls[k]| < 0x100
    {
    }
  }

  /** Writing out the first `k + 1` labels appends the length byte and
      the bytes of label `k` to the first `k`, and leaves room for the rest
      and the closing zero. */
  lemma EncodePrefix(all: seq<seq<u8>>, k: nat)
    requires ByteSized(all) && k < |all|
    ensures EncodeLabels(all[..k + 1]) == EncodeLabels(all[..k]) + ([|all[k]| as u8] + all[k])
    ensures |EncodeLabels(all[..k + 1])| + 1 <= |Encode(all)|
  {
    var one: seq<seq<u8>> := [all[k]];
    assert all[..k + 1] == all[..k] + one;
    EncodeLabelsAppend(all[..k], one);
    assert one[1..] == [];
    assert all == all[..k + 1] + all[k + 1..];
    EncodeLabelsAppend(all[..k + 1], all[k + 1..]);
  }

  /** The first `k` labels of `all` written out in the order the labels
      loop of `add_name` inserts them. */
  function EncodeFirst(all: seq<seq<u8>>, k: nat): seq<u8>
    requires ByteSized(all) && k <= |all|
  {
    if k == 0 then [] else EncodeFirst(all, k - 1) + ([|all[k - 1]| as u8] + all[k - 1])
  }

  /** One more label written after the first `k`. */
  lemma EncodeFirstStep(all: seq<seq<u8>>, k: nat, k1: nat)
    requires ByteSized(all) && k1 == k + 1 && k1 <= |all|
    ensures EncodeFirst(all, k1) == EncodeFirst(all, k) + ([|all[k]| as u8] + all[k])
  {
  }

  /** The `k`-th label the iterator hands out is the `k`-th label of the
      name, and writing it, length first, after the first `k` extends
      `EncodeFirst` by one label, still short of the whole name. */
  lemma NextLabelBytes(nbuf: seq<u8>, start: nat, k: nat, k1: nat, lab: Label, rem: seq<nat>)
    requires Readable(nbuf, start) && k <= |LabelsFrom(nbuf, start)| && k1 == k + 1
    requires LabelsFrom(nbuf, start)[k..] != [] && rem == LabelsFrom(nbuf, start)[k..][1..]
    requires lab == Label(nbuf, LabelsFrom(nbuf, start)[k..][0])
    requires ByteSized(Contents(nbuf, LabelsFrom(nbuf, start)))
    ensures k1 <= |LabelsFrom(nbuf, start)| && rem == LabelsFrom(nbuf, start)[k1..]
    ensures lab.bufI < |lab.buf| && lab.bufI + 1 + lab.Len() <= |lab.buf|
    ensures var all := Contents(nbuf, LabelsFrom(nbuf, start));
      && EncodeFirst(all, k1) == EncodeFirst(all, k) + ([lab.Len()] + lab.AsBytes())
      && |EncodeFirst(all, k1)| + 1 <= |Encode(all)|
  {
    var all, ps := Contents(nbuf, LabelsFrom(nbuf, start)), LabelsFrom(nbuf, start);
    assert rem == ps[k1..] && ps[k..][0] == ps[k];
    LabelAt(nbuf, start, k);
    assert [lab.Len()] + lab.AsBytes() == [|all[k]| as u8] + all[k];
    EncodeFirstStep(all, k, k1);
    EncodeFirstPrefix(all, k1);
  }

  /** Once the iterator has handed out every label, the labels written so
      far are the whole name. */
  lemma EncodeFirstAll(nbuf: seq<u8>, start: nat, k: nat)
    requires Readable(nbuf, start) && k <= |LabelsFrom(nbuf, start)| && LabelsFrom(nbuf, start)[k..] == []
    requires ByteSized(Contents(nbuf, LabelsFrom(nbuf, start)))
    ensures var all := Contents(nbuf, LabelsFrom(nbuf, start));
      k == |all| && EncodeFirst(all, k) == EncodeLabels(all)
  {
    var all := Contents(nbuf, LabelsFrom(nbuf, start));
    assert k == |all|;
    EncodeFirstPrefix(all, k);
    assert all[..k] == all;
  }

  /** Inserting the labels one at a time writes the same bytes as writing
      the first `k` out at once, and leaves room for the rest and the
      closing zero. */
  lemma {:induction false} EncodeFirstPrefix(all: seq<seq<u8>>, k: nat)
    requires ByteSized(all) && k <= |all|
    ensures EncodeFirst(all, k) == EncodeLabels(all[..k])
    ensures |EncodeFirst(all, k)| + 1 <= |Encode(all)|
  {
    if k == 0 {
      assert all[..0] == [];
    } else {
      EncodeFirstPrefix(all, k - 1);
      EncodePrefix(all, k - 1);
    }
  }

  /** What `add_name` writes for `name` into a message whose bytes are
      `bytes` and whose header counts `count` questions: a pointer to the
      first match among the questions' names, or else the labels spelled
      out, each as its raw length byte and its bytes, then a zero. */
  function NameBytes(bytes: seq<u8>, count: nat, name: Name): seq<u8>
    requires |bytes| <= 0x4000
    requires NamesReadable(bytes, HEADER_SIZE, count) && Readable(name.buf, name.start)
  {
    var t := PointerTarget(bytes, HEADER_SIZE, count, name);
    LabelsByteSized(name);
    if t.Some? then PointerBytes(t.value) else Encode(name.LabelContents())
  }

  /** `add_name` writes a two-byte pointer, flagged as one, exactly when
      one of the counted questions has a name ending in the labels of
      `name`; otherwise it writes the labels spelled out. */
  lemma NameBytesCases(bytes: seq<u8>, count: nat, name: Name)
    requires |bytes| <= 0x4000
    requires NamesReadable(bytes, HEADER_SIZE, count) && Readable(name.buf, name.start)
    ensures var r := NameBytes(bytes, count, name);
      var matched := exists k :: 0 <= k < count && QuestionMatches(bytes, HEADER_SIZE, k, name);
      && (matched ==> |r| == 2 && IsPointerByte(r[0]))
      && (!matched ==> ByteSized(name.LabelContents()) && r == Encode(name.LabelContents()))
  {
    LabelsByteSized(name);
    PointerTargetFound(bytes, HEADER_SIZE, count, name);
  }

  /** What `add_question` writes: the name as `add_name` writes it, then
      the kind and the class. */
  function QuestionBytes(bytes: seq<u8>, count: nat, q: Q.Question): seq<u8>
    requires |bytes| <= 0x4000
    requires NamesReadable(bytes, HEADER_SIZE, count) && Readable(q.name.buf, q.name.start)
  {
    NameBytes(bytes, count, q.name) + q.kind.ToBeBytes() + q.qclass.ToBeBytes()
  }

  /** What `add_answer` writes: the name as `add_name` writes it, then the
      kind, the class, the TTL and the data with its length. */
  function AnswerBytes(bytes: seq<u8>, count: nat, a: A.Answer): seq<u8>
    requires |bytes| <= 0x4000
    requires NamesReadable(bytes, HEADER_SIZE, count) && Readable(a.name.buf, a.name.start)
  {
    NameBytes(bytes, count, a.name) + A.FieldBytes(a.kind, a.qclass, a.ttl, a.rdata)
  }

  /** What `add_question` writes, as its name and its fixed fields. */
  lemma QuestionBytesParts(bytes: seq<u8>, count: nat, q: Q.Question)
    requires |bytes| <= 0x4000
    requires NamesReadable(bytes, HEADER_SIZE, count) && Readable(q.name.buf, q.name.start)
    ensures QuestionBytes(bytes, count, q) == NameBytes(bytes, count, q.name) + (q.kind.ToBeBytes() + q.qclass.ToBeBytes())
  {
  }

  /** What `add_answer` writes, as its name and its other fields. */
  lemma AnswerBytesParts(bytes: seq<u8>, count: nat, a: A.Answer)
    requires |bytes| <= 0x4000
    requires NamesReadable(bytes, HEADER_SIZE, count) && Readable(a.name.buf, a.name.start)
    ensures AnswerBytes(bytes, count, a) == NameBytes(bytes, count, a.name) + A.FieldBytes(a.kind, a.qclass, a.ttl, a.rdata)
  {
  }

  /** When no question's name matches, `add_question` spells the name out:
      its labels, each after its raw length byte, a zero, then the kind
      and the class. */
  lemma SpelledQuestionBytes(bytes: seq<u8>, count: nat, q: Q.Question)
    requires |bytes| <= 0x4000
    requires NamesReadable(bytes, HEADER_SIZE, count) && Readable(q.name.buf, q.name.start)
    requires PointerTarget(bytes, HEADER_SIZE, count, q.name).None?
    ensures ByteSized(q.name.LabelContents())
    ensures QuestionBytes(bytes, count, q) == Encode(q.name.LabelContents()) + (q.kind.ToBeBytes() + q.qclass.ToBeBytes())
  {
    NameBytesCases(bytes, count, q.name);
  }

  /** When no question's name matches, `add_answer` spells the name out,
      then writes the kind, the class, the TTL and the data with its length. */
  lemma SpelledAnswerBytes(bytes: seq<u8>, count: nat, a: A.Answer)
    requires |bytes| <= 0x4000
    requires NamesReadable(bytes, HEADER_SIZE, count) && Readable(a.name.buf, a.name.start)
    requires PointerTarget(bytes, HEADER_SIZE, count, a.name).None?
    ensures ByteSized(a.name.LabelContents())
    ensures AnswerBytes(bytes, count, a) == Encode(a.name.LabelContents()) + A.FieldBytes(a.kind, a.qclass, a.ttl, a.rdata)
  {
    NameBytesCases(bytes, count, a.name);
  }

  /** A question spelled out as above reads back from where it was
      written: with the labels at `off` up to `j` and the kind and class
      bytes after them, reading yields a name with the same labels, the
      kind as `From<u16>` maps its code back, and the class, with the
      cursor just past the class. Labels must be 1 to 63 bytes long and
      add up to at most 255, or the length bytes would not read back as
      lengths. */
  lemma QuestionReadsBack(buf: seq<u8>, off: nat, j: nat, ls: seq<seq<u8>>, kind: QueryKinds.QueryKind, qclass: QueryClasses.QueryClass)
    requires PlainLabels(ls) && TotalLen(ls) <= 255
    requires j == off + |Encode(ls)| && j <= |buf| && buf[off..j] == Encode(ls)
    requires j + 4 <= |buf| && buf[j..j + 4] == kind.ToBeBytes() + qclass.ToBeBytes()
    ensures Readable(buf, off) && Name(buf, off).LabelContents() == ls
    ensures Q.Read(buf, off) == (Some(Q.Question(Name(buf, off), QueryKinds.AfterRoundTrip(kind), qclass)), j + 4)
  {
    NameWritten(buf, off, ls);
    Q.ReadWritten(buf, off, j, j + 4, kind, qclass);
  }

  /** An answer spelled out as above reads back the same way: a name with
      the same labels, the kind as `From<u16>` maps its code back, the
      class, the TTL and the data, as long as the data length fits in 16
      bits. */
  lemma AnswerReadsBack(buf: seq<u8>, off: nat, j: nat, ls: seq<seq<u8>>, kind: QueryKinds.QueryKind,
                        qclass: QueryClasses.QueryClass, ttl: u32, rdata: seq<u8>)
    requires PlainLabels(ls) && TotalLen(ls) <= 255 && |rdata| < 0x1_0000
    requires j == off + |Encode(ls)| && j <= |buf| && buf[off..j] == Encode(ls)
    requires j + 10 + |rdata| <= |buf| && buf[j..j + 10 + |rdata|] == A.FieldBytes(kind, qclass, ttl, rdata)
    ensures Readable(buf, off) && Name(buf, off).LabelContents() == ls
    ensures A.Read(buf, off) == (Some(A.Answer(Name(buf, off), QueryKinds.AfterRoundTrip(kind), qclass, ttl, rdata)), j + 10 + |rdata|)
  {
    NameWritten(buf, off, ls);
    A.ReadWritten(buf, off, j, j + 10 + |rdata|, kind, qclass, ttl, rdata);
  }

  /** A splice past the header leaves the header bytes as they were. */
  lemma SpliceKeepsHeader(s: seq<u8>, len: nat, i: nat, bytes: seq<u8>)
    requires HEADER_SIZE <= i <= len && len + |bytes| <= |s|
    ensures Hdr.FromBytes(Splice(s, len, i, bytes)) == Hdr.FromBytes(s)
  {
    SpliceAt(s, len, i, bytes);
    Hdr.FromBytesPrefix(Splice(s, len, i, bytes), s);
  }

  /** The `count` questions from `i` read one after another; each name
      can be walked label by label and reads nothing below `lo`. */
  predicate QuestionsAbove(bytes: seq<u8>, i: nat, count: nat, lo: nat)
    decreases count
  {
    count == 0 ||
      (&& Q.End(bytes, i).Some? && Readable(bytes, i) && DecodesAbove(bytes, i, lo)
       && QuestionsAbove(bytes, Q.End(bytes, i).value, count - 1, lo))
  }

  /** The `count` answers from `i` read one after another, and no name
      among them reads anything below `lo`. */
  predicate AnswersAbove(bytes: seq<u8>, i: nat, count: nat, lo: nat)
    decreases count
  {
    count == 0 ||
      (&& A.End(bytes, i).Some? && DecodesAbove(bytes, i, lo)
       && AnswersAbove(bytes, A.End(bytes, i).value, count - 1, lo))
  }

  /** The question section of `bytes` ends at `qend`: the questions the
      header counts read from the bytes before `qend` alone, one after
      another, up to `qend`; every name can be walked label by label and
      none reads the header. */
  predicate QuestionSection(bytes: seq<u8>, qend: nat) {
    && HEADER_SIZE <= qend <= |bytes|
    && var count := Hdr.FromBytes(bytes).QuestionCount();
    && QuestionsAbove(bytes[..qend], HEADER_SIZE, count, HEADER_SIZE)
    && Q.Skip(bytes[..qend], HEADER_SIZE, count) == Some(qend)
  }

  /** The shape a message built from a bare header by `add_question` and
      `add_answer` keeps: the question section ends at `qend` as above,
      and the answers the header counts read from the bytes before `aend`
      alone, one after another from `qend` up to `aend`, no name among them
      reading the header. */
  predicate Sections(bytes: seq<u8>, qend: nat, aend: nat) {
    && QuestionSection(bytes, qend) && qend <= aend <= |bytes|
    && var count := Hdr.FromBytes(bytes).AnswerCount();
    && AnswersAbove(bytes[..aend], qend, count, HEADER_SIZE)
    && A.Skip(bytes[..aend], qend, count) == Some(aend)
  }

  /** A bare header, counting no records, has both sections empty. */
  lemma BareHeaderSections(bytes: seq<u8>)
    requires |bytes| >= HEADER_SIZE
    requires Hdr.FromBytes(bytes).QuestionCount() == 0 && Hdr.FromBytes(bytes).AnswerCount() == 0
    ensures Sections(bytes, HEADER_SIZE, HEADER_SIZE)
  {
  }

  /** One question whose name reads nothing below `lo` reads the same in a
      buffer that agrees from `lo` on. */
  lemma QuestionAgrees(bytes: seq<u8>, bytes': seq<u8>, i: nat, lo: nat)
    requires Q.End(bytes, i).Some? && Readable(bytes, i) && DecodesAbove(bytes, i, lo) && AgreeFrom(bytes, bytes', lo)
    ensures Q.End(bytes', i) == Q.End(bytes, i) && Readable(bytes', i) && DecodesAbove(bytes', i, lo)
  {
    Q.EndAgrees(bytes, bytes', i, lo);
    NameAgrees(bytes, bytes', i, lo);
  }

  /** One answer whose name reads nothing below `lo` ends at the same place
      in a buffer that agrees from `lo` on. */
  lemma AnswerAgrees(bytes: seq<u8>, bytes': seq<u8>, i: nat, lo: nat)
    requires A.End(bytes, i).Some? && DecodesAbove(bytes, i, lo) && AgreeFrom(bytes, bytes', lo)
    ensures A.End(bytes', i) == A.End(bytes, i) && DecodesAbove(bytes', i, lo)
  {
    A.EndAgrees(bytes, bytes', i, lo);
    NameAgrees(bytes, bytes', i, lo);
  }

  /** Questions that read nothing below `lo` read the same, and end at the
      same place, in a buffer that agrees from `lo` on. */
  lemma {:induction false} QuestionsAgree(bytes: seq<u8>, bytes': seq<u8>, i: nat, count: nat, lo: nat)
    requires QuestionsAbove(bytes, i, count, lo) && AgreeFrom(bytes, bytes', lo)
    ensures QuestionsAbove(bytes', i, count, lo) && Q.Skip(bytes', i, count) == Q.Skip(bytes, i, count)
    decreases count
  {
    if count > 0 {
      var next := Q.End(bytes, i).value;
      assert Readable(bytes, i) && DecodesAbove(bytes, i, lo) && QuestionsAbove(bytes, next, count - 1, lo);
      QuestionAgrees(bytes, bytes', i, lo);
      QuestionsAgree(bytes, bytes', next, count - 1, lo);
      assert Q.End(bytes', i) == Some(next);
      Q.SkipCons(bytes, i, count, count - 1);
      Q.SkipCons(bytes', i, count, count - 1);
    }
  }

  /** Questions that read nothing below `lo` end somewhere, and their
      names can all be walked label by label. */
  lemma {:induction false} QuestionsAboveReadable(bytes: seq<u8>, i: nat, count: nat, lo: nat)
    requires QuestionsAbove(bytes, i, count, lo)
    ensures Q.Skip(bytes, i, count).Some? && NamesReadable(bytes, i, count)
    decreases count
  {
    if count > 0 {
      QuestionsAboveReadable(bytes, Q.End(bytes, i).value, count - 1, lo);
    }
  }

  /** The step of `AnswersAgree`: an answer that ends at the same place in
      both buffers, followed by answers that do. */
  lemma AnswersStep(bytes: seq<u8>, bytes': seq<u8>, i: nat, count: nat, next: nat, lo: nat)
    requires count > 0 && A.End(bytes, i) == Some(next) && A.End(bytes', i) == Some(next) && DecodesAbove(bytes', i, lo)
    requires AnswersAbove(bytes', next, count - 1, lo) && A.Skip(bytes', next, count - 1) == A.Skip(bytes, next, count - 1)
    ensures AnswersAbove(bytes', i, count, lo) && A.Skip(bytes', i, count) == A.Skip(bytes, i, count)
  {
    A.SkipCons(bytes, i, count, count - 1);
    A.SkipCons(bytes', i, count, count - 1);
  }

  /** Answers that read nothing below `lo` end at the same place in a
      buffer that agrees from `lo` on. */
  lemma {:induction false} AnswersAgree(bytes: seq<u8>, bytes': seq<u8>, i: nat, count: nat, lo: nat)
    requires AnswersAbove(bytes, i, count, lo) && AgreeFrom(bytes, bytes', lo)
    ensures AnswersAbove(bytes', i, count, lo) && A.Skip(bytes', i, count) == A.Skip(bytes, i, count)
    decreases count
  {
    if count > 0 {
      var next := A.End(bytes, i).value;
      assert DecodesAbove(bytes, i, lo) && AnswersAbove(bytes, next, count - 1, lo);
      AnswerAgrees(bytes, bytes', i, lo);
      AnswersAgree(bytes, bytes', next, count - 1, lo);
      AnswersStep(bytes, bytes', i, count, next, lo);
    }
  }

  /** The pointer search of `add_name` settles on the same target in a
      buffer that agrees from `lo` on with one whose questions read nothing
      below `lo`. */
  lemma {:induction false} PointerTargetAgrees(bytes: seq<u8>, bytes': seq<u8>, i: nat, count: nat, name: Name, lo: nat)
    requires QuestionsAbove(bytes, i, count, lo) && AgreeFrom(bytes, bytes', lo)
    ensures PointerTarget(bytes', i, count, name) == PointerTarget(bytes, i, count, name)
    decreases count
  {
    if count > 0 && Readable(name.buf, name.start) {
      var next, rest := Q.End(bytes, i).value, count - 1;
      assert Readable(bytes, i) && DecodesAbove(bytes, i, lo) && QuestionsAbove(bytes, next, rest, lo);
      Q.EndAgrees(bytes, bytes', i, lo);
      PointerSearchAgrees(bytes, bytes', i, name, lo);
      PointerTargetStep(bytes, i, count, name, next, rest);
      PointerTargetStep(bytes', i, count, name, next, rest);
      PointerTargetAgrees(bytes, bytes', next, rest, name, lo);
    }
  }

  /** The target the pointer search of `add_name` settles on among
      questions that read nothing below `lo` reads nothing below `lo`. */
  lemma {:induction false} PointerTargetAbove(bytes: seq<u8>, i: nat, count: nat, name: Name, lo: nat)
    requires QuestionsAbove(bytes, i, count, lo)
    ensures PointerTarget(bytes, i, count, name).Some? ==> DecodesAbove(bytes, PointerTarget(bytes, i, count, name).value, lo)
    decreases count
  {
    if count > 0 && Readable(name.buf, name.start) {
      var next, rest := Q.End(bytes, i).value, count - 1;
      assert Readable(bytes, i) && DecodesAbove(bytes, i, lo) && QuestionsAbove(bytes, next, rest, lo);
      PointerSearchAbove(bytes, i, name, lo);
      PointerTargetStep(bytes, i, count, name, next, rest);
      PointerTargetAbove(bytes, next, rest, name, lo);
    }
  }

  /** One more question, read at the end of the others, extends the run. */
  lemma {:induction false} QuestionsAboveSnoc(bytes: seq<u8>, i: nat, count: nat, lo: nat, last: nat)
    requires QuestionsAbove(bytes, i, count, lo) && Q.Skip(bytes, i, count) == Some(last)
    requires Q.End(bytes, last).Some? && Readable(bytes, last) && DecodesAbove(bytes, last, lo)
    ensures QuestionsAbove(bytes, i, count + 1, lo) && Q.Skip(bytes, i, count + 1) == Q.End(bytes, last)
    decreases count
  {
    Q.SkipStep(bytes, i, count, last);
    if count > 0 {
      QuestionsAboveSnoc(bytes, Q.End(bytes, i).value, count - 1, lo, last);
    }
  }

  /** One more answer, read at the end of the others, extends the run. */
  lemma {:induction false} AnswersAboveSnoc(bytes: seq<u8>, i: nat, count: nat, lo: nat, last: nat)
    requires AnswersAbove(bytes, i, count, lo) && A.Skip(bytes, i, count) == Some(last)
    requires A.End(bytes, last).Some? && DecodesAbove(bytes, last, lo)
    ensures AnswersAbove(bytes, i, count + 1, lo) && A.Skip(bytes, i, count + 1) == A.End(bytes, last)
    decreases count
  {
    A.SkipStep(bytes, i, count, last);
    if count > 0 {
      AnswersAboveSnoc(bytes, A.End(bytes, i).value, count - 1, lo, last);
    }
  }

  /** A message whose question section ends at `qend` has its questions
      end there in the whole message too, with every name walkable label
      by label: what `add_question` and `add_answer` expect. */
  lemma QuestionSectionEnds(bytes: seq<u8>, qend: nat)
    requires QuestionSection(bytes, qend)
    ensures var count := Hdr.FromBytes(bytes).QuestionCount();
      Q.Skip(bytes, HEADER_SIZE, count) == Some(qend) && NamesReadable(bytes, HEADER_SIZE, count)
  {
    var count := Hdr.FromBytes(bytes).QuestionCount();
    PrefixAgrees(bytes, qend, HEADER_SIZE);
    QuestionsAgree(bytes[..qend], bytes, HEADER_SIZE, count, HEADER_SIZE);
    QuestionsAboveReadable(bytes, HEADER_SIZE, count, HEADER_SIZE);
  }

  /** ... and its answers end at `aend` in the whole message too. */
  lemma SectionsEnd(bytes: seq<u8>, qend: nat, aend: nat)
    requires Sections(bytes, qend, aend)
    ensures A.Skip(bytes, qend, Hdr.FromBytes(bytes).AnswerCount()) == Some(aend)
  {
    PrefixAgrees(bytes, aend, HEADER_SIZE);
    AnswersAgree(bytes[..aend], bytes, qend, Hdr.FromBytes(bytes).AnswerCount(), HEADER_SIZE);
  }

  /** `m'` is the message `m` with the bytes `e` inserted at `at`, past the
      header, whatever its header now holds. */
  predicate InsertedAt(m: seq<u8>, m': seq<u8>, at: nat, e: seq<u8>) {
    && HEADER_SIZE <= at <= |m| && |m'| == |m| + |e|
    && m'[HEADER_SIZE..] == (m[..at] + e + m[at..])[HEADER_SIZE..]
  }

  /** Past the header, a message with `e` inserted at `at` holds the old
      bytes before `at`, then `e`. */
  lemma InsertedBytes(m: seq<u8>, m': seq<u8>, at: nat, e: seq<u8>, end: nat)
    requires InsertedAt(m, m', at, e) && end == at + |e|
    ensures AgreeFrom(m[..at], m', HEADER_SIZE) && AgreeFrom(m[..at], m'[..end], HEADER_SIZE)
    ensures m'[at..end] == e && m'[..end][at..end] == e
  {
    var w := m[..at] + e + m[at..];
    forall k | HEADER_SIZE <= k < |m'|
      ensures m'[k] == w[k]
    {
      assert m'[k] == m'[HEADER_SIZE..][k - HEADER_SIZE];
    }
    assert m'[at..end] == w[at..end];
  }

  /** A splice at `i` past the header, read back as the grown message. */
  lemma SpliceInserted(s: seq<u8>, len: nat, i: nat, e: seq<u8>, b: seq<u8>)
    requires HEADER_SIZE <= i <= len && len + |e| <= |s| == |b|
    requires b[HEADER_SIZE..] == Splice(s, len, i, e)[HEADER_SIZE..]
    ensures InsertedAt(s[..len], b[..len + |e|], i, e)
  {
    SpliceMessage(s, len, i, e);
    var r := Splice(s, len, i, e);
    assert s[..len][..i] == s[..i] && s[..len][i..] == s[i..len];
    forall k | HEADER_SIZE <= k < len + |e|
      ensures b[k] == r[k]
    {
      assert b[k] == b[HEADER_SIZE..][k - HEADER_SIZE];
    }
    assert b[..len + |e|][HEADER_SIZE..] == r[..len + |e|][HEADER_SIZE..];
  }

  /** A name spelled out by `add_name` at `at`, labels of 1 to 63 bytes,
      reads back there with the same labels and follows no pointer. */
  lemma SpelledNameAdded(buf: seq<u8>, at: nat, name: Name, nb: seq<u8>, j: nat)
    requires Readable(name.buf, name.start) && PlainLabels(name.LabelContents()) && HEADER_SIZE <= at
    requires nb == Encode(name.LabelContents()) && j == at + |nb| && j <= |buf| && buf[at..j] == nb
    ensures Readable(buf, at) && DecodesAbove(buf, at, HEADER_SIZE)
    ensures Name(buf, at).LabelContents() == name.LabelContents()
    ensures EqualLabels(Name(buf, at).LabelContents(), name.LabelContents())
    ensures NameRead(buf, at) == (Some(Name(buf, at)), j)
  {
    LabelsFromBounds(name.buf, name.start);
    PlainTotalLen(name.buf, LabelsFrom(name.buf, name.start));
    NameWritten(buf, at, name.LabelContents());
    LiteralNoTargets(buf, at, name.LabelContents());
    assert EqualLabels(name.LabelContents(), name.LabelContents());
  }

  /** A pointer written by `add_name` at `at` to a name `t` below it that
      reads nothing in the header reads back as a name with the same
      labels, itself reading nothing in the header, with the cursor just
      past the two pointer bytes. */
  lemma PointerNameAdded(buf: seq<u8>, at: nat, t: nat, nb: seq<u8>, j: nat)
    requires t < at && t < 0x4000 && DecodesAbove(buf, t, HEADER_SIZE) && Readable(buf, t)
    requires nb == PointerBytes(t) && j == at + |nb| && j <= |buf| && buf[at..j] == nb
    ensures Readable(buf, at) && DecodesAbove(buf, at, HEADER_SIZE)
    ensures NameRead(buf, at) == (Some(Name(buf, at)), j)
    ensures Name(buf, at).LabelContents() == Name(buf, t).LabelContents()
  {
    ReadPointerName(buf, at, t, j);
    AllAboveCons(t, Walk(buf, t, t, None, 0).value.targets, HEADER_SIZE);
  }

  /** The target the pointer search of `add_name` settles on lies in the
      question section and keeps its name, reading nothing in the header,
      in any buffer that keeps that section. */
  lemma TargetKept(m: seq<u8>, qend: nat, buf: seq<u8>, name: Name, t: nat)
    requires |m| <= 0x4000 && QuestionSection(m, qend)
    requires PointerTarget(m, HEADER_SIZE, Hdr.FromBytes(m).QuestionCount(), name) == Some(t)
    requires AgreeFrom(m[..qend], buf, HEADER_SIZE)
    ensures t < qend && DecodesAbove(buf, t, HEADER_SIZE) && Readable(buf, t) && Readable(name.buf, name.start)
    ensures EqualLabels(Name(buf, t).LabelContents(), name.LabelContents())
  {
    var count := Hdr.FromBytes(m).QuestionCount();
    var p := m[..qend];
    PrefixAgrees(m, qend, HEADER_SIZE);
    PointerTargetAgrees(p, m, HEADER_SIZE, count, name, HEADER_SIZE);
    PointerTargetAbove(p, HEADER_SIZE, count, name, HEADER_SIZE);
    PointerTargetMatches(p, HEADER_SIZE, count, name);
    NameAgrees(p, buf, t, HEADER_SIZE);
  }

  /** The name `add_name` writes at `at`, past the questions of a message
      whose question section ends at `qend`, reads back from any buffer
      that keeps that section: as a pointer or spelled out, it has the
      labels of `name`, ignoring ASCII case, exactly when spelled out, and
      reads nothing in the header. Spelled out, the labels must be 1 to 63
      bytes long, or their length bytes would read back as something
      else. */
  lemma NameAdded(m: seq<u8>, qend: nat, buf: seq<u8>, at: nat, name: Name, nb: seq<u8>, j: nat)
    requires |m| <= 0x4000 && QuestionSection(m, qend) && qend <= at
    requires NamesReadable(m, HEADER_SIZE, Hdr.FromBytes(m).QuestionCount()) && Readable(name.buf, name.start)
    requires PointerTarget(m, HEADER_SIZE, Hdr.FromBytes(m).QuestionCount(), name).Some? || PlainLabels(name.LabelContents())
    requires AgreeFrom(m[..qend], buf, HEADER_SIZE)
    requires nb == NameBytes(m, Hdr.FromBytes(m).QuestionCount(), name)
    requires j == at + |nb| && j <= |buf| && buf[at..j] == nb
    ensures Readable(buf, at) && DecodesAbove(buf, at, HEADER_SIZE)
    ensures NameRead(buf, at) == (Some(Name(buf, at)), j)
    ensures EqualLabels(Name(buf, at).LabelContents(), name.LabelContents())
    ensures PointerTarget(m, HEADER_SIZE, Hdr.FromBytes(m).QuestionCount(), name).None? ==>
      Name(buf, at).LabelContents() == name.LabelContents()
  {
    var count := Hdr.FromBytes(m).QuestionCount();
    var t := PointerTarget(m, HEADER_SIZE, count, name);
    LabelsByteSized(name);
    if t.Some? {
      assert nb == PointerBytes(t.value);
      TargetKept(m, qend, buf, name, t.value);
      PointerNameAdded(buf, at, t.value, nb, j);
    } else {
      assert nb == Encode(name.LabelContents());
      SpelledNameAdded(buf, at, name, nb, j);
    }
  }

  /** A buffer that agrees with the first `a` bytes of `m` agrees with any
      shorter part of them, and so does its own part of that length. */
  lemma AgreeShorter(m: seq<u8>, buf: seq<u8>, a: nat, n: nat, lo: nat)
    requires n <= a <= |m| && AgreeFrom(m[..a], buf, lo)
    ensures AgreeFrom(m[..n], buf, lo) && AgreeFrom(m[..n], buf[..n], lo)
  {
  }

  /** The question `add_question` writes at `qend`, past the question
      section of `m`, reads back from any buffer that keeps that section:
      its name as `NameAdded` says, the kind as `From<u16>` maps its code
      back, the class, ending just past the class. */
  lemma QuestionWrittenAt(m: seq<u8>, qend: nat, q: Q.Question, buf: seq<u8>, nb: seq<u8>, j: nat, qend': nat)
    requires |m| <= 0x4000 && QuestionSection(m, qend)
    requires NamesReadable(m, HEADER_SIZE, Hdr.FromBytes(m).QuestionCount()) && Readable(q.name.buf, q.name.start)
    requires PointerTarget(m, HEADER_SIZE, Hdr.FromBytes(m).QuestionCount(), q.name).Some? || PlainLabels(q.name.LabelContents())
    requires AgreeFrom(m[..qend], buf, HEADER_SIZE)
    requires nb == NameBytes(m, Hdr.FromBytes(m).QuestionCount(), q.name) && j == qend + |nb| && qend' == j + 4 && qend' <= |buf|
    requires buf[qend..j] == nb && buf[j..qend'] == q.kind.ToBeBytes() + q.qclass.ToBeBytes()
    ensures Readable(buf, qend) && DecodesAbove(buf, qend, HEADER_SIZE) && Q.End(buf, qend) == Some(qend')
    ensures Q.Read(buf, qend) == (Some(Q.Question(Name(buf, qend), QueryKinds.AfterRoundTrip(q.kind), q.qclass)), qend')
    ensures EqualLabels(Name(buf, qend).LabelContents(), q.name.LabelContents())
    ensures PointerTarget(m, HEADER_SIZE, Hdr.FromBytes(m).QuestionCount(), q.name).None? ==>
      Name(buf, qend).LabelContents() == q.name.LabelContents()
  {
    NameAdded(m, qend, buf, qend, q.name, nb, j);
    Q.ReadWritten(buf, qend, j, qend', q.kind, q.qclass);
    Q.ReadEnd(buf, qend);
  }

  /** The answer `add_answer` writes at `at`, at or past the question
      section of `m`, reads back from any buffer that keeps that section:
      its name as `NameAdded` says, the kind as `From<u16>` maps its code
      back, the class, the TTL and the data, ending just past the data. */
  lemma AnswerWrittenAt(m: seq<u8>, qend: nat, a: A.Answer, buf: seq<u8>, at: nat, nb: seq<u8>, j: nat, end: nat)
    requires |m| <= 0x4000 && QuestionSection(m, qend) && qend <= at
    requires NamesReadable(m, HEADER_SIZE, Hdr.FromBytes(m).QuestionCount()) && Readable(a.name.buf, a.name.start)
    requires PointerTarget(m, HEADER_SIZE, Hdr.FromBytes(m).QuestionCount(), a.name).Some? || PlainLabels(a.name.LabelContents())
    requires |a.rdata| < 0x1_0000 && AgreeFrom(m[..qend], buf, HEADER_SIZE)
    requires nb == NameBytes(m, Hdr.FromBytes(m).QuestionCount(), a.name) && j == at + |nb| && end == j + 10 + |a.rdata| && end <= |buf|
    requires buf[at..j] == nb && buf[j..end] == A.FieldBytes(a.kind, a.qclass, a.ttl, a.rdata)
    ensures Readable(buf, at) && DecodesAbove(buf, at, HEADER_SIZE) && A.End(buf, at) == Some(end)
    ensures A.Read(buf, at) == (Some(A.Answer(Name(buf, at), QueryKinds.AfterRoundTrip(a.kind), a.qclass, a.ttl, a.rdata)), end)
    ensures EqualLabels(Name(buf, at).LabelContents(), a.name.LabelContents())
    ensures PointerTarget(m, HEADER_SIZE, Hdr.FromBytes(m).QuestionCount(), a.name).None? ==>
      Name(buf, at).LabelContents() == a.name.LabelContents()
  {
    NameAdded(m, qend, buf, at, a.name, nb, j);
    A.ReadWritten(buf, at, j, end, a.kind, a.qclass, a.ttl, a.rdata);
    A.ReadEnd(buf, at);
  }

  /** `add_question` on a message whose question section ends at `qend`:
      once the header counts one more question, the section ends just
      past the new question, which reads back with the name `add_name`
      wrote (the labels of the question's name, ignoring ASCII case, and
      exactly those when spelled out), the kind as `From<u16>` maps its
      code back and the class. The name must have been found among the
      questions or have labels of 1 to 63 bytes. */
  lemma QuestionAdded(m: seq<u8>, qend: nat, q: Q.Question, e: seq<u8>, m': seq<u8>, qend': nat)
    requires |m| <= 0x4000 && QuestionSection(m, qend)
    requires NamesReadable(m, HEADER_SIZE, Hdr.FromBytes(m).QuestionCount()) && Readable(q.name.buf, q.name.start)
    requires PointerTarget(m, HEADER_SIZE, Hdr.FromBytes(m).QuestionCount(), q.name).Some? || PlainLabels(q.name.LabelContents())
    requires e == QuestionBytes(m, Hdr.FromBytes(m).QuestionCount(), q) && qend' == qend + |e|
    requires InsertedAt(m, m', qend, e) && Hdr.FromBytes(m').QuestionCount() == Hdr.FromBytes(m).QuestionCount() + 1
    ensures QuestionSection(m', qend')
    ensures Readable(m', qend)
    ensures Q.Read(m', qend) == (Some(Q.Question(Name(m', qend), QueryKinds.AfterRoundTrip(q.kind), q.qclass)), qend')
    ensures EqualLabels(Name(m', qend).LabelContents(), q.name.LabelContents())
    ensures PointerTarget(m, HEADER_SIZE, Hdr.FromBytes(m).QuestionCount(), q.name).None? ==>
      Name(m', qend).LabelContents() == q.name.LabelContents()
  {
    var count := Hdr.FromBytes(m).QuestionCount();
    var nb := NameBytes(m, count, q.name);
    var fb := q.kind.ToBeBytes() + q.qclass.ToBeBytes();
    var j := qend + |nb|;
    QuestionBytesParts(m, count, q);
    InsertedBytes(m, m', qend, e, qend');
    SliceHalves(m', qend, j, qend', nb, fb);
    QuestionWrittenAt(m, qend, q, m', nb, j, qend');
    QuestionSectionAdded(m, qend, q, e, m', qend', nb, j);
  }

  /** The section half of `QuestionAdded`, once the question's bytes are
      known to be its name's `nb` up to `j`, then its kind and class. */
  lemma QuestionSectionAdded(m: seq<u8>, qend: nat, q: Q.Question, e: seq<u8>, m': seq<u8>, qend': nat, nb: seq<u8>, j: nat)
    requires |m| <= 0x4000 && QuestionSection(m, qend)
    requires NamesReadable(m, HEADER_SIZE, Hdr.FromBytes(m).QuestionCount()) && Readable(q.name.buf, q.name.start)
    requires PointerTarget(m, HEADER_SIZE, Hdr.FromBytes(m).QuestionCount(), q.name).Some? || PlainLabels(q.name.LabelContents())
    requires nb == NameBytes(m, Hdr.FromBytes(m).QuestionCount(), q.name) && j == qend + |nb|
    requires e == nb + (q.kind.ToBeBytes() + q.qclass.ToBeBytes()) && qend' == qend + |e|
    requires InsertedAt(m, m', qend, e) && Hdr.FromBytes(m').QuestionCount() == Hdr.FromBytes(m).QuestionCount() + 1
    ensures QuestionSection(m', qend')
  {
    var count := Hdr.FromBytes(m).QuestionCount();
    var p := m'[..qend'];
    InsertedBytes(m, m', qend, e, qend');
    SliceHalves(p, qend, j, qend', nb, q.kind.ToBeBytes() + q.qclass.ToBeBytes());
    QuestionWrittenAt(m, qend, q, p, nb, j, qend');
    QuestionsAgree(m[..qend], p, HEADER_SIZE, count, HEADER_SIZE);
    SectionSnoc(m', qend, qend', count);
  }

  /** A question read right after a question section that ends at `qend`,
      ending at `qend'`, extends the section once the header counts it. */
  lemma SectionSnoc(m: seq<u8>, qend: nat, qend': nat, count: nat)
    requires HEADER_SIZE <= qend < qend' <= |m| && Hdr.FromBytes(m).QuestionCount() == count + 1
    requires QuestionsAbove(m[..qend'], HEADER_SIZE, count, HEADER_SIZE) && Q.Skip(m[..qend'], HEADER_SIZE, count) == Some(qend)
    requires Q.End(m[..qend'], qend) == Some(qend') && Readable(m[..qend'], qend) && DecodesAbove(m[..qend'], qend, HEADER_SIZE)
    ensures QuestionSection(m, qend')
  {
    QuestionsAboveSnoc(m[..qend'], HEADER_SIZE, count, HEADER_SIZE, qend);
  }

  /** `add_answer` on a message whose question section ends at `qend` and
      whose answers end at `aend`: once the header counts one more answer,
      the answers end just past the new one, which reads back with the
      name `add_name` wrote (as for `QuestionAdded`), the kind as
      `From<u16>` maps its code back, the class, the TTL and the data.
      The data length must fit in 16 bits. */
  lemma AnswerAdded(m: seq<u8>, qend: nat, aend: nat, a: A.Answer, e: seq<u8>, m': seq<u8>, aend': nat)
    requires |m| <= 0x4000 && Sections(m, qend, aend) && |a.rdata| < 0x1_0000
    requires NamesReadable(m, HEADER_SIZE, Hdr.FromBytes(m).QuestionCount()) && Readable(a.name.buf, a.name.start)
    requires PointerTarget(m, HEADER_SIZE, Hdr.FromBytes(m).QuestionCount(), a.name).Some? || PlainLabels(a.name.LabelContents())
    requires e == AnswerBytes(m, Hdr.FromBytes(m).QuestionCount(), a) && aend' == aend + |e|
    requires InsertedAt(m, m', aend, e)
    requires Hdr.FromBytes(m').QuestionCount() == Hdr.FromBytes(m).QuestionCount()
    requires Hdr.FromBytes(m').AnswerCount() == Hdr.FromBytes(m).AnswerCount() + 1
    ensures Sections(m', qend, aend')
    ensures Readable(m', aend)
    ensures A.Read(m', aend) == (Some(A.Answer(Name(m', aend), QueryKinds.AfterRoundTrip(a.kind), a.qclass, a.ttl, a.rdata)), aend')
    ensures EqualLabels(Name(m', aend).LabelContents(), a.name.LabelContents())
    ensures PointerTarget(m, HEADER_SIZE, Hdr.FromBytes(m).QuestionCount(), a.name).None? ==>
      Name(m', aend).LabelContents() == a.name.LabelContents()
  {
    var count := Hdr.FromBytes(m).QuestionCount();
    var nb := NameBytes(m, count, a.name);
    var fb := A.FieldBytes(a.kind, a.qclass, a.ttl, a.rdata);
    var j := aend + |nb|;
    AnswerBytesParts(m, count, a);
    InsertedBytes(m, m', aend, e, aend');
    AgreeShorter(m, m', aend, qend, HEADER_SIZE);
    SliceHalves(m', aend, j, aend', nb, fb);
    AnswerWrittenAt(m, qend, a, m', aend, nb, j, aend');
    AnswerSectionsAdded(m, qend, aend, a, e, m', aend', nb, j);
  }

  /** The sections half of `AnswerAdded`, once the answer's bytes are
      known to be its name's `nb` up to `j`, then its other fields. */
  lemma AnswerSectionsAdded(m: seq<u8>, qend: nat, aend: nat, a: A.Answer, e: seq<u8>, m': seq<u8>, aend': nat, nb: seq<u8>, j: nat)
    requires |m| <= 0x4000 && Sections(m, qend, aend) && |a.rdata| < 0x1_0000
    requires NamesReadable(m, HEADER_SIZE, Hdr.FromBytes(m).QuestionCount()) && Readable(a.name.buf, a.name.start)
    requires PointerTarget(m, HEADER_SIZE, Hdr.FromBytes(m).QuestionCount(), a.name).Some? || PlainLabels(a.name.LabelContents())
    requires nb == NameBytes(m, Hdr.FromBytes(m).QuestionCount(), a.name) && j == aend + |nb|
    requires e == nb + A.FieldBytes(a.kind, a.qclass, a.ttl, a.rdata) && aend' == aend + |e|
    requires InsertedAt(m, m', aend, e)
    requires Hdr.FromBytes(m').QuestionCount() == Hdr.FromBytes(m).QuestionCount()
    requires Hdr.FromBytes(m').AnswerCount() == Hdr.FromBytes(m).AnswerCount() + 1
    ensures Sections(m', qend, aend')
  {
    InsertedBytes(m, m', aend, e, aend');
    AgreeShorter(m, m', aend, qend, HEADER_SIZE);
    QuestionSectionKept(m, qend, m');
    AnswerRunAdded(m, qend, aend, a, e, m', aend', nb, j);
    SectionsSnoc(m', qend, aend, aend', Hdr.FromBytes(m).AnswerCount());
  }

  /** In the grown message cut at the new answer's end, the old answers
      still run from `qend` to `aend`, and the new one from `aend` to
      `aend'`, none of them reading the header. */
  lemma AnswerRunAdded(m: seq<u8>, qend: nat, aend: nat, a: A.Answer, e: seq<u8>, m': seq<u8>, aend': nat, nb: seq<u8>, j: nat)
    requires |m| <= 0x4000 && Sections(m, qend, aend) && |a.rdata| < 0x1_0000
    requires NamesReadable(m, HEADER_SIZE, Hdr.FromBytes(m).QuestionCount()) && Readable(a.name.buf, a.name.start)
    requires PointerTarget(m, HEADER_SIZE, Hdr.FromBytes(m).QuestionCount(), a.name).Some? || PlainLabels(a.name.LabelContents())
    requires nb == NameBytes(m, Hdr.FromBytes(m).QuestionCount(), a.name) && j == aend + |nb|
    requires e == nb + A.FieldBytes(a.kind, a.qclass, a.ttl, a.rdata) && aend' == aend + |e|
    requires InsertedAt(m, m', aend, e)
    ensures var answers := Hdr.FromBytes(m).AnswerCount();
      && AnswersAbove(m'[..aend'], qend, answers, HEADER_SIZE) && A.Skip(m'[..aend'], qend, answers) == Some(aend)
      && A.End(m'[..aend'], aend) == Some(aend') && DecodesAbove(m'[..aend'], aend, HEADER_SIZE)
  {
    var p := m'[..aend'];
    InsertedBytes(m, m', aend, e, aend');
    AgreeShorter(m, p, aend, qend, HEADER_SIZE);
    SliceHalves(p, aend, j, aend', nb, A.FieldBytes(a.kind, a.qclass, a.ttl, a.rdata));
    AnswerWrittenAt(m, qend, a, p, aend, nb, j, aend');
    AnswersAgree(m[..aend], p, qend, Hdr.FromBytes(m).AnswerCount(), HEADER_SIZE);
  }

  /** A question section that ends at `qend` is still there in a message
      that keeps its bytes and its question count. */
  lemma QuestionSectionKept(m: seq<u8>, qend: nat, m': seq<u8>)
    requires QuestionSection(m, qend) && qend <= |m'| && AgreeFrom(m[..qend], m'[..qend], HEADER_SIZE)
    requires |m'| >= HEADER_SIZE && Hdr.FromBytes(m').QuestionCount() == Hdr.FromBytes(m).QuestionCount()
    ensures QuestionSection(m', qend)
  {
    QuestionsAgree(m[..qend], m'[..qend], HEADER_SIZE, Hdr.FromBytes(m).QuestionCount(), HEADER_SIZE);
  }

  /** An answer read right after answers that end at `aend`, ending at
      `aend'`, extends them once the header counts it. */
  lemma SectionsSnoc(m: seq<u8>, qend: nat, aend: nat, aend': nat, answers: nat)
    requires QuestionSection(m, qend) && qend <= aend < aend' <= |m| && Hdr.FromBytes(m).AnswerCount() == answers + 1
    requires AnswersAbove(m[..aend'], qend, answers, HEADER_SIZE) && A.Skip(m[..aend'], qend, answers) == Some(aend)
    requires A.End(m[..aend'], aend) == Some(aend') && DecodesAbove(m[..aend'], aend, HEADER_SIZE)
    ensures Sections(m, qend, aend')
  {
    AnswersAboveSnoc(m[..aend'], qend, answers, HEADER_SIZE, aend);
  }

  /** The `count` answers from `i` read one after another, and each name
      has the shape `add_name` writes past a question section that ends
      at `at`: spelled out, or a pointer to a name in that section. */
  predicate AnswersPointBelow(bytes: seq<u8>, i: nat, count: nat, at: nat)
    decreases count
  {
    count == 0 ||
      (&& A.End(bytes, i).Some? && PointsBelow(bytes, i, at, HEADER_SIZE)
       && AnswersPointBelow(bytes, A.End(bytes, i).value, count - 1, at))
  }

  /** No answer name of a message whose sections end at `qend` and `aend`
      reads anything in the answer section: each is spelled out or points
      into the question section, as `add_answer` writes them. */
  predicate AnswersPointBack(bytes: seq<u8>, qend: nat, aend: nat) {
    HEADER_SIZE <= qend <= aend <= |bytes| && AnswersPointBelow(bytes[..aend], qend, Hdr.FromBytes(bytes).AnswerCount(), qend)
  }

  /** Where each of `count` answers from `i` starts, followed by where the
      last one ends, as far as they read one after another. */
  function Starts(bytes: seq<u8>, i: nat, count: nat): (s: seq<nat>)
    ensures 1 <= |s| <= count + 1 && s[0] == i
    decreases count
  {
    if count == 0 || A.End(bytes, i).None? then [i]
    else [i] + Starts(bytes, A.End(bytes, i).value, count - 1)
  }

  /** The answer at `s[k]` ends at `s[k + 1]`, reads nothing in the header
      and its name has the shape `add_name` writes past `at`. */
  predicate LaidAt(bytes: seq<u8>, at: nat, s: seq<nat>, k: nat)
    requires k + 1 < |s|
  {
    A.End(bytes, s[k]) == Some(s[k + 1]) && DecodesAbove(bytes, s[k], HEADER_SIZE) && PointsBelow(bytes, s[k], at, HEADER_SIZE)
  }

  /** Answers of that shape start at each offset of `s` but the last, and
      each ends where the next starts. */
  predicate Laid(bytes: seq<u8>, at: nat, s: seq<nat>) {
    forall k: nat | k + 1 < |s| :: LaidAt(bytes, at, s, k)
  }

  /** `AnswersAbove` and `AnswersPointBelow` together lay out the answers at
      their `Starts`, and the last of those is where `Skip` ends. */
  lemma {:induction false} LaidOfAnswers(bytes: seq<u8>, i: nat, count: nat, at: nat)
    requires AnswersAbove(bytes, i, count, HEADER_SIZE) && AnswersPointBelow(bytes, i, count, at)
    ensures |Starts(bytes, i, count)| == count + 1 && Laid(bytes, at, Starts(bytes, i, count))
    ensures A.Skip(bytes, i, count) == Some(Starts(bytes, i, count)[count])
    decreases count
  {
    if count > 0 {
      var next := A.End(bytes, i).value;
      LaidOfAnswers(bytes, next, count - 1, at);
      A.SkipCons(bytes, i, count, count - 1);
      var s, r := Starts(bytes, i, count), Starts(bytes, next, count - 1);
      assert s == [i] + r;
      forall k: nat | k + 1 < |s| ensures LaidAt(bytes, at, s, k) {
        if k > 0 {
          assert LaidAt(bytes, at, r, k - 1);
        }
      }
    }
  }

  /** And answers laid out at `s` are `AnswersAbove` and
      `AnswersPointBelow` together from `s[0]`. */
  lemma {:induction false} AnswersOfLaid(bytes: seq<u8>, at: nat, s: seq<nat>, i: nat, count: nat)
    requires |s| == count + 1 && s[0] == i && Laid(bytes, at, s)
    ensures AnswersAbove(bytes, i, count, HEADER_SIZE) && AnswersPointBelow(bytes, i, count, at)
    decreases count
  {
    if count > 0 {
      var r := s[1..];
      forall k: nat | k + 1 < |r| ensures LaidAt(bytes, at, r, k) {
        assert LaidAt(bytes, at, s, k + 1);
      }
      AnswersOfLaid(bytes, at, r, s[1], count - 1);
      assert LaidAt(bytes, at, s, 0);
    }
  }

  /** ... and `Skip` over them ends at the last offset of `s`. */
  lemma {:induction false} SkipOfLaid(bytes: seq<u8>, at: nat, s: seq<nat>, i: nat, count: nat, last: nat)
    requires |s| == count + 1 && s[0] == i && s[count] == last && Laid(bytes, at, s)
    ensures A.Skip(bytes, i, count) == Some(last)
    decreases count
  {
    if count > 0 {
      var r := s[1..];
      forall k: nat | k + 1 < |r| ensures LaidAt(bytes, at, r, k) {
        assert LaidAt(bytes, at, s, k + 1);
      }
      SkipOfLaid(bytes, at, r, s[1], count - 1, last);
      assert LaidAt(bytes, at, s, 0);
      A.SkipCons(bytes, i, count, count - 1);
    }
  }

  /** Every offset of `s` moved up by `d`. */
  function Plus(s: seq<nat>, d: nat): (r: seq<nat>)
    ensures |r| == |s| && forall k :: 0 <= k < |s| ==> r[k] == s[k] + d
  {
    if s == [] then [] else [s[0] + d] + Plus(s[1..], d)
  }

  /** The answer at `j` in `bytes` reads back from `j + d` in `bytes'` with
      the same kind, class, TTL and data, its name read from its new place. */
  predicate ReadsMoved(bytes: seq<u8>, j: nat, bytes': seq<u8>, d: nat) {
    A.Read(bytes, j).0.Some? && A.Read(bytes', j + d).0 == Some(A.Read(bytes, j).0.value.(name := Name(bytes', j + d)))
  }

  /** Each answer of the shape `add_name` writes past `at`, once `d` bytes
      were inserted at `at`, ends `d` places further up, keeps that shape
      past `at + d` and reads back moved. */
  lemma AnswersShiftEach(bytes: seq<u8>, bytes': seq<u8>, at: nat, d: nat)
    requires Shifted(bytes, bytes', at, d, HEADER_SIZE)
    ensures forall j: nat | A.End(bytes, j).Some? && DecodesAbove(bytes, j, HEADER_SIZE) && PointsBelow(bytes, j, at, HEADER_SIZE) ::
              && A.End(bytes', j + d) == Some(A.End(bytes, j).value + d)
              && DecodesAbove(bytes', j + d, HEADER_SIZE) && PointsBelow(bytes', j + d, at + d, HEADER_SIZE)
    ensures forall j: nat | A.End(bytes, j).Some? && DecodesAbove(bytes, j, HEADER_SIZE) && PointsBelow(bytes, j, at, HEADER_SIZE) ::
              ReadsMoved(bytes, j, bytes', d)
  {
    forall j: nat | A.End(bytes, j).Some? && DecodesAbove(bytes, j, HEADER_SIZE) && PointsBelow(bytes, j, at, HEADER_SIZE)
      ensures A.End(bytes', j + d) == Some(A.End(bytes, j).value + d)
      ensures DecodesAbove(bytes', j + d, HEADER_SIZE) && PointsBelow(bytes', j + d, at + d, HEADER_SIZE)
      ensures ReadsMoved(bytes, j, bytes', d)
    {
      AnswerShift(bytes, bytes', at, d, j);
    }
  }

  /** Answers laid out at `s` stay laid out at `s` moved up by `d`. */
  lemma LaidShift(bytes: seq<u8>, bytes': seq<u8>, at: nat, d: nat, s: seq<nat>)
    requires forall j: nat | A.End(bytes, j).Some? && DecodesAbove(bytes, j, HEADER_SIZE) && PointsBelow(bytes, j, at, HEADER_SIZE) ::
              && A.End(bytes', j + d) == Some(A.End(bytes, j).value + d)
              && DecodesAbove(bytes', j + d, HEADER_SIZE) && PointsBelow(bytes', j + d, at + d, HEADER_SIZE)
    requires Laid(bytes, at, s)
    ensures Laid(bytes', at + d, Plus(s, d))
  {
    var s', at' := Plus(s, d), at + d;
    forall k: nat | k + 1 < |s'| ensures LaidAt(bytes', at', s', k) {
      assert LaidAt(bytes, at, s, k);
    }
  }

  /** The `count` answers from `i` in `bytes` read one after another, and
      each reads back from `d` places up in `bytes'` with the same kind,
      class, TTL and data as before and its name read from its new place. */
  predicate AnswersMoved(bytes: seq<u8>, i: nat, count: nat, bytes': seq<u8>, d: nat) {
    && |Starts(bytes, i, count)| == count + 1
    && forall k | 0 <= k < count :: ReadsMoved(bytes, Starts(bytes, i, count)[k], bytes', d)
  }

  /** Answers laid out at their `Starts` that each read back moved are
      `AnswersMoved`. */
  lemma MovedOfLaid(bytes: seq<u8>, bytes': seq<u8>, at: nat, d: nat, i: nat, count: nat)
    requires forall j: nat | A.End(bytes, j).Some? && DecodesAbove(bytes, j, HEADER_SIZE) && PointsBelow(bytes, j, at, HEADER_SIZE) ::
              ReadsMoved(bytes, j, bytes', d)
    requires |Starts(bytes, i, count)| == count + 1 && Laid(bytes, at, Starts(bytes, i, count))
    ensures AnswersMoved(bytes, i, count, bytes', d)
  {
    var s := Starts(bytes, i, count);
    forall k | 0 <= k < count ensures ReadsMoved(bytes, s[k], bytes', d) {
      assert LaidAt(bytes, at, s, k);
    }
  }

  /** Answers whose names have the shape `add_name` writes past `at`,
      ending at `end`, are laid out at their old starts moved up by `d`
      once `d` bytes were inserted at `at`. */
  lemma LaidMoved(bytes: seq<u8>, bytes': seq<u8>, at: nat, d: nat, i: nat, count: nat, end: nat) returns (s': seq<nat>)
    requires Shifted(bytes, bytes', at, d, HEADER_SIZE)
    requires AnswersAbove(bytes, i, count, HEADER_SIZE) && AnswersPointBelow(bytes, i, count, at)
    requires A.Skip(bytes, i, count) == Some(end)
    ensures |s'| == count + 1 && s'[0] == i + d && s'[count] == end + d && Laid(bytes', at + d, s')
  {
    var s := Starts(bytes, i, count);
    LaidOfAnswers(bytes, i, count, at);
    AnswersShiftEach(bytes, bytes', at, d);
    LaidShift(bytes, bytes', at, d, s);
    s' := Plus(s, d);
  }

  /** Those answers each read back the same fields from `d` places up. */
  lemma MovedOfShifted(bytes: seq<u8>, bytes': seq<u8>, at: nat, d: nat, i: nat, count: nat)
    requires Shifted(bytes, bytes', at, d, HEADER_SIZE)
    requires AnswersAbove(bytes, i, count, HEADER_SIZE) && AnswersPointBelow(bytes, i, count, at)
    ensures AnswersMoved(bytes, i, count, bytes', d)
  {
    LaidOfAnswers(bytes, i, count, at);
    AnswersShiftEach(bytes, bytes', at, d);
    MovedOfLaid(bytes, bytes', at, d, i, count);
  }

  /** Answers laid out at `s` run from `s[0]` to the last entry of `s`. */
  lemma RunOfLaid(bytes: seq<u8>, at: nat, s: seq<nat>, i: nat, count: nat, end: nat)
    requires |s| == count + 1 && s[0] == i && s[count] == end && Laid(bytes, at, s)
    ensures AnswerRun(bytes, i, count, at, end)
  {
    AnswersOfLaid(bytes, at, s, i, count);
    SkipOfLaid(bytes, at, s, i, count, end);
  }

  /** Answers whose names have the shape `add_name` writes past `at`, from
      `i` to `end`, still run one after another once `d` bytes were
      inserted at `at`: from `i + d` to `end + d`, reading nothing in the
      header and keeping that shape past `at + d`. */
  lemma AnswersShiftRun(bytes: seq<u8>, bytes': seq<u8>, at: nat, d: nat, i: nat, count: nat, end: nat)
    requires Shifted(bytes, bytes', at, d, HEADER_SIZE)
    requires AnswersAbove(bytes, i, count, HEADER_SIZE) && AnswersPointBelow(bytes, i, count, at)
    requires A.Skip(bytes, i, count) == Some(end)
    ensures AnswerRun(bytes', i + d, count, at + d, end + d)
  {
    AnswersShiftRunAt(bytes, bytes', at, d, i, count, end, at + d, i + d, end + d);
  }

  /** The same, with the new places named. */
  lemma AnswersShiftRunAt(bytes: seq<u8>, bytes': seq<u8>, at: nat, d: nat, i: nat, count: nat, end: nat, at': nat, i': nat, end': nat)
    requires Shifted(bytes, bytes', at, d, HEADER_SIZE)
    requires AnswersAbove(bytes, i, count, HEADER_SIZE) && AnswersPointBelow(bytes, i, count, at)
    requires A.Skip(bytes, i, count) == Some(end)
    requires at' == at + d && i' == i + d && end' == end + d
    ensures AnswerRun(bytes', i', count, at', end')
  {
    var s' := LaidMoved(bytes, bytes', at, d, i, count, end);
    RunOfLaid(bytes', at', s', i', count, end');
  }

  /** The `count` answers from `i` read one after another up to `end`,
      none reading the header and each spelled out or pointing below `at`. */
  predicate AnswerRun(bytes: seq<u8>, i: nat, count: nat, at: nat, end: nat) {
    && AnswersAbove(bytes, i, count, HEADER_SIZE) && AnswersPointBelow(bytes, i, count, at)
    && A.Skip(bytes, i, count) == Some(end)
  }

  /** Answers whose names have the shape `add_name` writes past `at`, from
      `i` to `end`, still read one after another once `d` bytes were
      inserted at `at`: they run from `i + d` to `end + d`, keep reading
      nothing in the header, keep that shape past `at + d`, and each reads
      back the same fields with its name read from its new place. */
  lemma AnswersShift(bytes: seq<u8>, bytes': seq<u8>, at: nat, d: nat, i: nat, count: nat, end: nat)
    requires Shifted(bytes, bytes', at, d, HEADER_SIZE) && AnswerRun(bytes, i, count, at, end)
    ensures AnswerRun(bytes', i + d, count, at + d, end + d)
    ensures AnswersMoved(bytes, i, count, bytes', d)
  {
    AnswersShiftRun(bytes, bytes', at, d, i, count, end);
    MovedOfShifted(bytes, bytes', at, d, i, count);
  }

  /** One answer of the shape `add_name` writes past `at`, once `d` bytes
      were inserted at `at`: it ends `d` places further up, reads back as
      it was, still reads nothing in the header and keeps that shape past
      `at + d`. */
  lemma AnswerShift(bytes: seq<u8>, bytes': seq<u8>, at: nat, d: nat, i: nat)
    requires Shifted(bytes, bytes', at, d, HEADER_SIZE)
    requires A.End(bytes, i).Some? && DecodesAbove(bytes, i, HEADER_SIZE) && PointsBelow(bytes, i, at, HEADER_SIZE)
    ensures A.End(bytes', i + d) == Some(A.End(bytes, i).value + d)
    ensures DecodesAbove(bytes', i + d, HEADER_SIZE) && PointsBelow(bytes', i + d, at + d, HEADER_SIZE)
    ensures A.Read(bytes, i).0.Some? && A.Read(bytes, i).1 == A.End(bytes, i).value
    ensures A.Read(bytes', i + d).0 == Some(A.Read(bytes, i).0.value.(name := Name(bytes', i + d)))
  {
    A.ReadMoved(bytes, bytes', at, d, HEADER_SIZE, i);
    assert DecodesAbove(bytes', i + d, HEADER_SIZE) by {
      NameShift(bytes, bytes', at, d, HEADER_SIZE, i);
    }
    PointsBelowShift(bytes, bytes', at, d, HEADER_SIZE, i);
    A.ReadEnd(bytes, i);
  }

  /** One more answer of that shape after them keeps `AnswersPointBelow`. */
  lemma {:induction false} AnswersPointBelowSnoc(bytes: seq<u8>, i: nat, count: nat, at: nat, last: nat)
    requires AnswersPointBelow(bytes, i, count, at) && A.Skip(bytes, i, count) == Some(last)
    requires A.End(bytes, last).Some? && PointsBelow(bytes, last, at, HEADER_SIZE)
    ensures AnswersPointBelow(bytes, i, count + 1, at)
    decreases count
  {
    if count > 0 {
      AnswersPointBelowSnoc(bytes, A.End(bytes, i).value, count - 1, at, last);
    }
  }

  /** Past the header, a message with `e` inserted at `at` holds the old
      bytes before `at` in place and those from `at` on moved up by `|e|`,
      in any part of it that ends at or past `at`. */
  lemma InsertedShifted(m: seq<u8>, m': seq<u8>, at: nat, e: seq<u8>, n: nat)
    requires InsertedAt(m, m', at, e) && at <= n <= |m|
    ensures Shifted(m[..n], m'[..n + |e|], at, |e|, HEADER_SIZE)
  {
    var w := m[..at] + e + m[at..];
    forall k | HEADER_SIZE <= k < |m'|
      ensures m'[k] == w[k]
    {
      assert m'[k] == m'[HEADER_SIZE..][k - HEADER_SIZE];
    }
    var b, b' := m[..n], m'[..n + |e|];
    forall k | at <= k < n
      ensures Moved(b, b', k, |e|)
    {
      assert w[k + |e|] == m[at..][k - at];
    }
  }

  /** The same for the whole message. */
  lemma InsertedShiftedAll(m: seq<u8>, m': seq<u8>, at: nat, e: seq<u8>, d: nat)
    requires InsertedAt(m, m', at, e) && d == |e|
    ensures Shifted(m, m', at, d, HEADER_SIZE)
  {
    InsertedShifted(m, m', at, e, |m|);
    assert m[..|m|] == m && m'[..|m| + |e|] == m';
  }

  /** ... and the bytes before `at` stay where they are. */
  lemma InsertedKept(m: seq<u8>, m': seq<u8>, at: nat, e: seq<u8>, qend: nat)
    requires InsertedAt(m, m', at, e) && HEADER_SIZE <= qend <= at
    ensures Shifted(m[..at], m'[..at + |e|], qend, 0, HEADER_SIZE)
  {
    InsertedBytes(m, m', at, e, at + |e|);
    var b, b' := m[..at], m'[..at + |e|];
    forall k | qend <= k < at
      ensures Moved(b, b', k, 0)
    {
    }
  }

  /** The name `add_name` writes at `at`, past a question section of `m`
      that ends at `qend`, is spelled out or points into that section, in
      any buffer that keeps the section. */
  lemma NameWrittenPointsBelow(m: seq<u8>, qend: nat, buf: seq<u8>, at: nat, name: Name, nb: seq<u8>, j: nat)
    requires |m| <= 0x4000 && QuestionSection(m, qend) && qend <= at
    requires NamesReadable(m, HEADER_SIZE, Hdr.FromBytes(m).QuestionCount()) && Readable(name.buf, name.start)
    requires PointerTarget(m, HEADER_SIZE, Hdr.FromBytes(m).QuestionCount(), name).Some? || PlainLabels(name.LabelContents())
    requires nb == NameBytes(m, Hdr.FromBytes(m).QuestionCount(), name)
    requires j == at + |nb| && j <= |buf| && buf[at..j] == nb
    requires AgreeFrom(m[..qend], buf[..qend], HEADER_SIZE)
    ensures PointsBelow(buf, at, qend, HEADER_SIZE)
  {
    var t := PointerTarget(m, HEADER_SIZE, Hdr.FromBytes(m).QuestionCount(), name);
    LabelsByteSized(name);
    if t.Some? {
      assert nb == PointerBytes(t.value);
      TargetKept(m, qend, buf[..qend], name, t.value);
      ReadPointerBytes(buf, at, t.value, j);
    } else {
      assert nb == Encode(name.LabelContents());
      LiteralPointsBelow(buf, at, name.LabelContents(), qend, HEADER_SIZE);
    }
  }

  /** `add_question` on a message whose sections end at `qend` and `aend`
      and whose answer names read nothing in the answer section: once the
      question's `|e|` bytes are in, the answers lie `|e|` places further
      up, ending at `aend + |e|`, and read back there as they were, with the
      same kind, class, TTL and data; their names still read nothing in
      the answer section. */
  lemma QuestionKeepsAnswers(m: seq<u8>, qend: nat, aend: nat, d: nat, m': seq<u8>)
    requires Sections(m, qend, aend) && AnswersPointBack(m, qend, aend)
    requires QuestionSection(m', qend + d) && aend + d <= |m'|
    requires Shifted(m[..aend], m'[..aend + d], qend, d, HEADER_SIZE)
    requires Hdr.FromBytes(m').AnswerCount() == Hdr.FromBytes(m).AnswerCount()
    ensures Sections(m', qend + d, aend + d) && AnswersPointBack(m', qend + d, aend + d)
    ensures AnswersMoved(m[..aend], qend, Hdr.FromBytes(m).AnswerCount(), m'[..aend + d], d)
  {
    var count := Hdr.FromBytes(m).AnswerCount();
    RunOfSections(m, qend, aend, count);
    RunShiftSections(m[..aend], qend, aend, d, m', count);
  }

  /** Answers that run from `qend` to `aend` in `b` and point below `qend`,
      moved `d` places up past a question section that ends at `qend + d`,
      make the sections of `m'` end at `qend + d` and `aend + d`. */
  lemma RunShiftSections(b: seq<u8>, qend: nat, aend: nat, d: nat, m': seq<u8>, count: nat)
    requires QuestionSection(m', qend + d) && qend <= aend && aend + d <= |m'| && count == Hdr.FromBytes(m').AnswerCount()
    requires AnswerRun(b, qend, count, qend, aend) && Shifted(b, m'[..aend + d], qend, d, HEADER_SIZE)
    ensures Sections(m', qend + d, aend + d) && AnswersPointBack(m', qend + d, aend + d)
    ensures AnswersMoved(b, qend, count, m'[..aend + d], d)
  {
    AnswersShift(b, m'[..aend + d], qend, d, qend, count, aend);
  }

  /** The answers of a message whose sections end at `qend` and `aend` and
      whose answer names read nothing in the answer section run from
      `qend` to `aend`. */
  lemma RunOfSections(bytes: seq<u8>, qend: nat, aend: nat, count: nat)
    requires Sections(bytes, qend, aend) && AnswersPointBack(bytes, qend, aend)
    requires count == Hdr.FromBytes(bytes).AnswerCount()
    ensures AnswerRun(bytes[..aend], qend, count, qend, aend)
  {
  }

  /** Answers before `qend` is past the question section, in a buffer
      whose bytes from `qend` on stay in place, stay where they are and
      read the same way. */
  lemma AnswersKept(b: seq<u8>, b': seq<u8>, qend: nat, aend: nat, answers: nat)
    requires Shifted(b, b', qend, 0, HEADER_SIZE) && AnswerRun(b, qend, answers, qend, aend)
    ensures AnswerRun(b', qend, answers, qend, aend)
  {
    AnswersShiftRunAt(b, b', qend, 0, qend, answers, aend, qend, qend, aend);
  }

  /** The answer `add_answer` writes at `aend` ends at `aend'` and its name
      is spelled out or points into the question section. */
  lemma NewAnswerPointsBack(m: seq<u8>, qend: nat, aend: nat, a: A.Answer, e: seq<u8>, m': seq<u8>, aend': nat)
    requires |m| <= 0x4000 && Sections(m, qend, aend) && |a.rdata| < 0x1_0000
    requires NamesReadable(m, HEADER_SIZE, Hdr.FromBytes(m).QuestionCount()) && Readable(a.name.buf, a.name.start)
    requires PointerTarget(m, HEADER_SIZE, Hdr.FromBytes(m).QuestionCount(), a.name).Some? || PlainLabels(a.name.LabelContents())
    requires e == AnswerBytes(m, Hdr.FromBytes(m).QuestionCount(), a) && aend' == aend + |e|
    requires InsertedAt(m, m', aend, e)
    ensures A.End(m'[..aend'], aend) == Some(aend') && PointsBelow(m'[..aend'], aend, qend, HEADER_SIZE)
  {
    var count := Hdr.FromBytes(m).QuestionCount();
    var p := m'[..aend'];
    var nb := NameBytes(m, count, a.name);
    var j := aend + |nb|;
    AnswerBytesParts(m, count, a);
    InsertedBytes(m, m', aend, e, aend');
    AgreeShorter(m, p, aend, qend, HEADER_SIZE);
    SliceHalves(p, aend, j, aend', nb, A.FieldBytes(a.kind, a.qclass, a.ttl, a.rdata));
    NameWrittenPointsBelow(m, qend, p, aend, a.name, nb, j);
    AnswerRunAdded(m, qend, aend, a, e, m', aend', nb, j);
  }

  /** `add_answer` on a message whose sections end at `qend` and `aend`
      and whose answer names read nothing in the answer section keeps
      that so, with the answers now ending at `aend'`. */
  lemma AnswerKeepsPointBack(m: seq<u8>, qend: nat, aend: nat, a: A.Answer, e: seq<u8>, m': seq<u8>, aend': nat)
    requires |m| <= 0x4000 && Sections(m, qend, aend) && AnswersPointBack(m, qend, aend) && |a.rdata| < 0x1_0000
    requires NamesReadable(m, HEADER_SIZE, Hdr.FromBytes(m).QuestionCount()) && Readable(a.name.buf, a.name.start)
    requires PointerTarget(m, HEADER_SIZE, Hdr.FromBytes(m).QuestionCount(), a.name).Some? || PlainLabels(a.name.LabelContents())
    requires e == AnswerBytes(m, Hdr.FromBytes(m).QuestionCount(), a) && aend' == aend + |e|
    requires InsertedAt(m, m', aend, e)
    requires Hdr.FromBytes(m').QuestionCount() == Hdr.FromBytes(m).QuestionCount()
    requires Hdr.FromBytes(m').AnswerCount() == Hdr.FromBytes(m).AnswerCount() + 1
    ensures AnswersPointBack(m', qend, aend')
  {
    RunOfSections(m, qend, aend, Hdr.FromBytes(m).AnswerCount());
    InsertedKept(m, m', aend, e, qend);
    AnswersKept(m[..aend], m'[..aend'], qend, aend, Hdr.FromBytes(m).AnswerCount());
    NewAnswerPointsBack(m, qend, aend, a, e, m', aend');
    AnswersPointBelowSnoc(m'[..aend'], qend, Hdr.FromBytes(m).AnswerCount(), qend, aend);
  }

  /** The message `m` with the bytes `e` inserted at `at`, past the header,
      under the header `h`. */
  function Rewritten(m: seq<u8>, h: Hdr.Header, at: nat, e: seq<u8>): (r: seq<u8>)
    requires HEADER_SIZE <= at <= |m|
    ensures |r| == |m| + |e| && r[..HEADER_SIZE] == h.ToBytes()
  {
    h.ToBytes() + (m[..at] + e + m[at..])[HEADER_SIZE..]
  }

  /** A rewritten message reads its new header and holds the inserted bytes. */
  lemma RewrittenParts(m: seq<u8>, h: Hdr.Header, at: nat, e: seq<u8>)
    requires HEADER_SIZE <= at <= |m|
    ensures Hdr.FromBytes(Rewritten(m, h, at, e)) == h && InsertedAt(m, Rewritten(m, h, at, e), at, e)
  {
    var mid := m[..at] + e + m[at..];
    HeadedBy(h, Rewritten(m, h, at, e), mid[HEADER_SIZE..]);
  }

  /** The message `add_question` makes of `m`: the header counting one
      more question, then the question's bytes inserted where the
      questions of `m` end. */
  function WithQuestion(m: seq<u8>, q: Q.Question): seq<u8>
    requires HEADER_SIZE <= |m| <= 0x4000 && Hdr.FromBytes(m).QuestionCount() < 0xFFFF
    requires Q.Skip(m, HEADER_SIZE, Hdr.FromBytes(m).QuestionCount()).Some?
    requires NamesReadable(m, HEADER_SIZE, Hdr.FromBytes(m).QuestionCount()) && Readable(q.name.buf, q.name.start)
  {
    var h := Hdr.FromBytes(m);
    var end := Q.Skip(m, HEADER_SIZE, h.QuestionCount()).value;
    assert HEADER_SIZE <= end <= |m| by { if h.QuestionCount() == 0 { assert end == HEADER_SIZE; } }
    Rewritten(m, h.SetQuestionCount(h.QuestionCount() + 1), end, QuestionBytes(m, h.QuestionCount(), q))
  }

  /** The message `add_answer` makes of `m`: the header counting one more
      answer, then the answer's bytes inserted where the answers of `m`
      end. */
  function WithAnswer(m: seq<u8>, a: A.Answer): seq<u8>
    requires HEADER_SIZE <= |m| <= 0x4000 && Hdr.FromBytes(m).AnswerCount() < 0xFFFF
    requires Q.Skip(m, HEADER_SIZE, Hdr.FromBytes(m).QuestionCount()).Some?
    requires A.Skip(m, Q.Skip(m, HEADER_SIZE, Hdr.FromBytes(m).QuestionCount()).value, Hdr.FromBytes(m).AnswerCount()).Some?
    requires NamesReadable(m, HEADER_SIZE, Hdr.FromBytes(m).QuestionCount()) && Readable(a.name.buf, a.name.start)
  {
    var h := Hdr.FromBytes(m);
    var qend := Q.Skip(m, HEADER_SIZE, h.QuestionCount()).value;
    var end := A.Skip(m, qend, h.AnswerCount()).value;
    assert HEADER_SIZE <= qend <= |m| by { if h.QuestionCount() == 0 { assert qend == HEADER_SIZE; } }
    assert end <= |m| by { if h.AnswerCount() == 0 { assert end == qend; } }
    Rewritten(m, h.SetAnswerCount(h.AnswerCount() + 1), end, AnswerBytes(m, h.QuestionCount(), a))
  }

  /** `WithQuestion` spelled out from its parts. */
  lemma WithQuestionIs(m: seq<u8>, q: Q.Question, h: Hdr.Header, end: nat, e: seq<u8>, mid: seq<u8>, m': seq<u8>)
    requires HEADER_SIZE <= |m| <= 0x4000 && Hdr.FromBytes(m).QuestionCount() < 0xFFFF
    requires Q.Skip(m, HEADER_SIZE, Hdr.FromBytes(m).QuestionCount()) == Some(end)
    requires NamesReadable(m, HEADER_SIZE, Hdr.FromBytes(m).QuestionCount()) && Readable(q.name.buf, q.name.start)
    requires h == Hdr.FromBytes(m).SetQuestionCount(Hdr.FromBytes(m).QuestionCount() + 1)
    requires e == QuestionBytes(m, Hdr.FromBytes(m).QuestionCount(), q) && end <= |m|
    requires mid == m[..end] + e + m[end..] && m' == h.ToBytes() + mid[HEADER_SIZE..]
    ensures m' == WithQuestion(m, q)
  {
  }

  /** `WithAnswer` spelled out from its parts. */
  lemma WithAnswerIs(m: seq<u8>, a: A.Answer, h: Hdr.Header, qend: nat, end: nat, e: seq<u8>, mid: seq<u8>, m': seq<u8>)
    requires HEADER_SIZE <= |m| <= 0x4000 && Hdr.FromBytes(m).AnswerCount() < 0xFFFF
    requires Q.Skip(m, HEADER_SIZE, Hdr.FromBytes(m).QuestionCount()) == Some(qend)
    requires A.Skip(m, qend, Hdr.FromBytes(m).AnswerCount()) == Some(end)
    requires NamesReadable(m, HEADER_SIZE, Hdr.FromBytes(m).QuestionCount()) && Readable(a.name.buf, a.name.start)
    requires h == Hdr.FromBytes(m).SetAnswerCount(Hdr.FromBytes(m).AnswerCount() + 1)
    requires e == AnswerBytes(m, Hdr.FromBytes(m).QuestionCount(), a) && end <= |m|
    requires mid == m[..end] + e + m[end..] && m' == h.ToBytes() + mid[HEADER_SIZE..]
    ensures m' == WithAnswer(m, a)
  {
  }

  /** The steps of `add_question` put together: inserting the question's
      bytes where the questions of `m` end and then rewriting the header to
      count one more question leaves `WithQuestion(m, q)`. The buffer `s0`
      holds `m` in its first `l0` bytes and the header in its first 12. */
  lemma QuestionComposed(m: seq<u8>, q: Q.Question, hm: Hdr.Header, end: nat, mid: seq<u8>, m': seq<u8>)
    requires HEADER_SIZE <= end <= |m| <= 0x4000
    requires hm.QuestionCount() == Hdr.FromBytes(m).QuestionCount() < 0xFFFF
    requires hm.SetQuestionCount(hm.QuestionCount() + 1).ToBytes()
          == Hdr.FromBytes(m).SetQuestionCount(Hdr.FromBytes(m).QuestionCount() + 1).ToBytes()
    requires Q.Skip(m, HEADER_SIZE, hm.QuestionCount()) == Some(end)
    requires NamesReadable(m, HEADER_SIZE, hm.QuestionCount()) && Readable(q.name.buf, q.name.start)
    requires mid == m[..end] + QuestionBytes(m, hm.QuestionCount(), q) + m[end..]
    requires m' == hm.SetQuestionCount(hm.QuestionCount() + 1).ToBytes() + mid[HEADER_SIZE..]
    ensures m' == WithQuestion(m, q)
  {
    var h := Hdr.FromBytes(m).SetQuestionCount(Hdr.FromBytes(m).QuestionCount() + 1);
    var e := QuestionBytes(m, hm.QuestionCount(), q);
    WithQuestionIs(m, q, h, end, e, mid, m');
  }

  /** The steps of `add_answer` put together, as `QuestionComposed` for
      questions. */
  lemma AnswerComposed(m: seq<u8>, a: A.Answer, hm: Hdr.Header, qend: nat, end: nat, mid: seq<u8>, m': seq<u8>)
    requires HEADER_SIZE <= end <= |m| <= 0x4000
    requires hm.QuestionCount() == Hdr.FromBytes(m).QuestionCount()
    requires hm.AnswerCount() == Hdr.FromBytes(m).AnswerCount() < 0xFFFF
    requires hm.SetAnswerCount(hm.AnswerCount() + 1).ToBytes()
          == Hdr.FromBytes(m).SetAnswerCount(Hdr.FromBytes(m).AnswerCount() + 1).ToBytes()
    requires Q.Skip(m, HEADER_SIZE, hm.QuestionCount()) == Some(qend) && A.Skip(m, qend, hm.AnswerCount()) == Some(end)
    requires NamesReadable(m, HEADER_SIZE, hm.QuestionCount()) && Readable(a.name.buf, a.name.start)
    requires mid == m[..end] + AnswerBytes(m, hm.QuestionCount(), a) + m[end..]
    requires m' == hm.SetAnswerCount(hm.AnswerCount() + 1).ToBytes() + mid[HEADER_SIZE..]
    ensures m' == WithAnswer(m, a)
  {
    var h := Hdr.FromBytes(m).SetAnswerCount(Hdr.FromBytes(m).AnswerCount() + 1);
    var e := AnswerBytes(m, hm.QuestionCount(), a);
    WithAnswerIs(m, a, h, qend, end, e, mid, m');
  }

  /** Equal headers count alike. */
  lemma SameCounts(h: Hdr.Header, h': Hdr.Header)
    requires h == h'
    ensures h.QuestionCount() == h'.QuestionCount() && h.AnswerCount() == h'.AnswerCount()
  {
  }

  /** A prefix of a buffer that holds the header has that buffer's header. */
  lemma HeaderOfPrefix(m: seq<u8>, s0: seq<u8>, l0: nat, h0: Hdr.Header, h: Hdr.Header)
    requires HEADER_SIZE <= l0 <= |s0| && m == s0[..l0] && h0 == Hdr.FromBytes(s0) && h == h0
    ensures h.QuestionCount() == Hdr.FromBytes(m).QuestionCount()
    ensures h.AnswerCount() == Hdr.FromBytes(m).AnswerCount()
    ensures h.QuestionCount() < 0xFFFF ==>
      h.SetQuestionCount(h.QuestionCount() + 1).ToBytes()
      == Hdr.FromBytes(m).SetQuestionCount(Hdr.FromBytes(m).QuestionCount() + 1).ToBytes()
    ensures h.AnswerCount() < 0xFFFF ==>
      h.SetAnswerCount(h.AnswerCount() + 1).ToBytes()
      == Hdr.FromBytes(m).SetAnswerCount(Hdr.FromBytes(m).AnswerCount() + 1).ToBytes()
  {
    Hdr.FromBytesPrefix(m, s0);
  }

  /** A message whose first 12 bytes are a header's reads that header. */
  lemma HeadedBy(h: Hdr.Header, m: seq<u8>, rest: seq<u8>)
    requires m == h.ToBytes() + rest
    ensures Hdr.FromBytes(m) == h
  {
    Hdr.FromBytesPrefix(m, h.ToBytes());
    Hdr.HeaderBytesRoundTrip(h);
  }

  /** `add_question` on a message whose question section ends at `end`
      makes `m'`: its header counts one more question, and its question
      section ends at `end'`, just past the new question, which reads back
      from `end` as `QuestionAdded` says. The name must have been found
      among the questions or have labels of 1 to 63 bytes. */
  lemma WithQuestionReadsBack(m: seq<u8>, q: Q.Question, end: nat, m': seq<u8>, end': nat)
    requires HEADER_SIZE <= |m| <= 0x4000 && Hdr.FromBytes(m).QuestionCount() < 0xFFFF
    requires Q.Skip(m, HEADER_SIZE, Hdr.FromBytes(m).QuestionCount()) == Some(end) && QuestionSection(m, end)
    requires NamesReadable(m, HEADER_SIZE, Hdr.FromBytes(m).QuestionCount()) && Readable(q.name.buf, q.name.start)
    requires PointerTarget(m, HEADER_SIZE, Hdr.FromBytes(m).QuestionCount(), q.name).Some? || PlainLabels(q.name.LabelContents())
    requires m' == WithQuestion(m, q) && end' == end + |QuestionBytes(m, Hdr.FromBytes(m).QuestionCount(), q)|
    ensures Hdr.FromBytes(m') == Hdr.FromBytes(m).SetQuestionCount(Hdr.FromBytes(m).QuestionCount() + 1)
    ensures QuestionSection(m', end') && Readable(m', end)
    ensures Q.Read(m', end) == (Some(Q.Question(Name(m', end), QueryKinds.AfterRoundTrip(q.kind), q.qclass)), end')
    ensures EqualLabels(Name(m', end).LabelContents(), q.name.LabelContents())
    ensures PointerTarget(m, HEADER_SIZE, Hdr.FromBytes(m).QuestionCount(), q.name).None? ==>
      Name(m', end).LabelContents() == q.name.LabelContents()
    ensures AnswersKeptMoved(m, end, end' - end, m')
  {
    var e := QuestionBytes(m, Hdr.FromBytes(m).QuestionCount(), q);
    WithQuestionInserted(m, q, end, e, m');
    QuestionAdded(m, end, q, e, m', end');
    WithQuestionShifted(m, q, end, m', end');
    ShiftKeepsAllAnswers(m, end, end' - end, m', end');
  }

  /** `WithQuestion` moves the bytes of `m` past its questions up by the
      question's length, ends its question section at `end'` and counts
      the same answers. */
  lemma WithQuestionShifted(m: seq<u8>, q: Q.Question, end: nat, m': seq<u8>, end': nat)
    requires HEADER_SIZE <= |m| <= 0x4000 && Hdr.FromBytes(m).QuestionCount() < 0xFFFF
    requires Q.Skip(m, HEADER_SIZE, Hdr.FromBytes(m).QuestionCount()) == Some(end) && QuestionSection(m, end)
    requires NamesReadable(m, HEADER_SIZE, Hdr.FromBytes(m).QuestionCount()) && Readable(q.name.buf, q.name.start)
    requires PointerTarget(m, HEADER_SIZE, Hdr.FromBytes(m).QuestionCount(), q.name).Some? || PlainLabels(q.name.LabelContents())
    requires m' == WithQuestion(m, q) && end' == end + |QuestionBytes(m, Hdr.FromBytes(m).QuestionCount(), q)|
    ensures HEADER_SIZE <= end <= end' && Shifted(m, m', end, end' - end, HEADER_SIZE) && QuestionSection(m', end')
    ensures Hdr.FromBytes(m').AnswerCount() == Hdr.FromBytes(m).AnswerCount()
  {
    var e := QuestionBytes(m, Hdr.FromBytes(m).QuestionCount(), q);
    WithQuestionInserted(m, q, end, e, m');
    QuestionAdded(m, end, q, e, m', end');
    InsertedShiftedAll(m, m', end, e, end' - end);
  }

  /** Every answer section of `m` after a question section ending at
      `end`, whose names read nothing in it, lies `d` places further up
      in `m'`, after a question section ending at `end + d`:
      its answers read back there with the same kind, class, TTL and
      data, and their names still read nothing in the answer section. */
  ghost predicate AnswersKeptMoved(m: seq<u8>, end: nat, d: nat, m': seq<u8>) {
    forall aend: nat :: Sections(m, end, aend) && AnswersPointBack(m, end, aend) ==>
      && Sections(m', end + d, aend + d) && AnswersPointBack(m', end + d, aend + d)
      && AnswersMoved(m[..aend], end, Hdr.FromBytes(m).AnswerCount(), m'[..aend + d], d)
  }

  /** A question section of `m'` that ends at `qend' == qend + d`, with
      the rest of `m` moved up by `d`, keeps every answer section of `m`
      whose names read nothing in it. */
  lemma ShiftKeepsAllAnswers(m: seq<u8>, qend: nat, d: nat, m': seq<u8>, qend': nat)
    requires HEADER_SIZE <= qend && Shifted(m, m', qend, d, HEADER_SIZE) && qend' == qend + d && QuestionSection(m', qend')
    requires Hdr.FromBytes(m').AnswerCount() == Hdr.FromBytes(m).AnswerCount()
    ensures AnswersKeptMoved(m, qend, d, m')
  {
    assert QuestionSection(m', qend + d);
    forall aend: nat
      ensures Sections(m, qend, aend) && AnswersPointBack(m, qend, aend) ==>
        && Sections(m', qend + d, aend + d) && AnswersPointBack(m', qend + d, aend + d)
        && AnswersMoved(m[..aend], qend, Hdr.FromBytes(m).AnswerCount(), m'[..aend + d], d)
    {
      ShiftKeepsAnswers(m, qend, aend, d, m');
    }
  }

  /** ... one answer section at a time. */
  lemma ShiftKeepsAnswers(m: seq<u8>, qend: nat, aend: nat, d: nat, m': seq<u8>)
    requires HEADER_SIZE <= qend && Shifted(m, m', qend, d, HEADER_SIZE) && QuestionSection(m', qend + d)
    requires Hdr.FromBytes(m').AnswerCount() == Hdr.FromBytes(m).AnswerCount()
    ensures Sections(m, qend, aend) && AnswersPointBack(m, qend, aend) ==>
      && Sections(m', qend + d, aend + d) && AnswersPointBack(m', qend + d, aend + d)
      && AnswersMoved(m[..aend], qend, Hdr.FromBytes(m).AnswerCount(), m'[..aend + d], d)
  {
    if Sections(m, qend, aend) && AnswersPointBack(m, qend, aend) {
      ShiftedPrefix(m, m', qend, d, HEADER_SIZE, aend);
      QuestionKeepsAnswers(m, qend, aend, d, m');
    }
  }

  /** `WithQuestion` is `m` with the question's bytes inserted where its
      questions end, under a header that counts one more question. */
  lemma WithQuestionInserted(m: seq<u8>, q: Q.Question, end: nat, e: seq<u8>, m': seq<u8>)
    requires HEADER_SIZE <= |m| <= 0x4000 && Hdr.FromBytes(m).QuestionCount() < 0xFFFF
    requires Q.Skip(m, HEADER_SIZE, Hdr.FromBytes(m).QuestionCount()) == Some(end)
    requires NamesReadable(m, HEADER_SIZE, Hdr.FromBytes(m).QuestionCount()) && Readable(q.name.buf, q.name.start)
    requires e == QuestionBytes(m, Hdr.FromBytes(m).QuestionCount(), q) && m' == WithQuestion(m, q)
    ensures Hdr.FromBytes(m') == Hdr.FromBytes(m).SetQuestionCount(Hdr.FromBytes(m).QuestionCount() + 1)
    ensures Hdr.FromBytes(m').QuestionCount() == Hdr.FromBytes(m).QuestionCount() + 1
    ensures HEADER_SIZE <= end <= |m| && InsertedAt(m, m', end, e)
  {
    var h' := WithQuestionRewritten(m, q, end, e, m');
    RewrittenParts(m, h', end, e);
  }

  /** `WithQuestion` as a `Rewritten` message. */
  lemma WithQuestionRewritten(m: seq<u8>, q: Q.Question, end: nat, e: seq<u8>, m': seq<u8>) returns (h': Hdr.Header)
    requires HEADER_SIZE <= |m| <= 0x4000 && Hdr.FromBytes(m).QuestionCount() < 0xFFFF
    requires Q.Skip(m, HEADER_SIZE, Hdr.FromBytes(m).QuestionCount()) == Some(end)
    requires NamesReadable(m, HEADER_SIZE, Hdr.FromBytes(m).QuestionCount()) && Readable(q.name.buf, q.name.start)
    requires e == QuestionBytes(m, Hdr.FromBytes(m).QuestionCount(), q) && m' == WithQuestion(m, q)
    ensures h' == Hdr.FromBytes(m).SetQuestionCount(Hdr.FromBytes(m).QuestionCount() + 1)
    ensures HEADER_SIZE <= end <= |m| && m' == Rewritten(m, h', end, e)
  {
    h' := Hdr.FromBytes(m).SetQuestionCount(Hdr.FromBytes(m).QuestionCount() + 1);
    assert HEADER_SIZE <= end <= |m| by { if Hdr.FromBytes(m).QuestionCount() == 0 { assert end == HEADER_SIZE; } }
  }


  /** `add_answer` on a message whose sections end at `qend` and `aend`
      makes `m'`: its header counts one more answer, its questions are
      kept, and its answers end at `aend'`, just past the new answer, which
      reads back from `aend` as `AnswerAdded` says. The data length must
      fit in 16 bits, and the name must have been found among the
      questions or have labels of 1 to 63 bytes. */
  lemma WithAnswerReadsBack(m: seq<u8>, a: A.Answer, qend: nat, aend: nat, m': seq<u8>, aend': nat)
    requires HEADER_SIZE <= |m| <= 0x4000 && Hdr.FromBytes(m).AnswerCount() < 0xFFFF
    requires Q.Skip(m, HEADER_SIZE, Hdr.FromBytes(m).QuestionCount()) == Some(qend)
    requires A.Skip(m, qend, Hdr.FromBytes(m).AnswerCount()) == Some(aend) && Sections(m, qend, aend)
    requires NamesReadable(m, HEADER_SIZE, Hdr.FromBytes(m).QuestionCount()) && Readable(a.name.buf, a.name.start)
    requires |a.rdata| < 0x1_0000
    requires PointerTarget(m, HEADER_SIZE, Hdr.FromBytes(m).QuestionCount(), a.name).Some? || PlainLabels(a.name.LabelContents())
    requires m' == WithAnswer(m, a) && aend' == aend + |AnswerBytes(m, Hdr.FromBytes(m).QuestionCount(), a)|
    ensures Hdr.FromBytes(m') == Hdr.FromBytes(m).SetAnswerCount(Hdr.FromBytes(m).AnswerCount() + 1)
    ensures Sections(m', qend, aend') && Readable(m', aend)
    ensures A.Read(m', aend) == (Some(A.Answer(Name(m', aend), QueryKinds.AfterRoundTrip(a.kind), a.qclass, a.ttl, a.rdata)), aend')
    ensures EqualLabels(Name(m', aend).LabelContents(), a.name.LabelContents())
    ensures PointerTarget(m, HEADER_SIZE, Hdr.FromBytes(m).QuestionCount(), a.name).None? ==>
      Name(m', aend).LabelContents() == a.name.LabelContents()
    ensures AnswersPointBack(m, qend, aend) ==> AnswersPointBack(m', qend, aend')
  {
    var e := AnswerBytes(m, Hdr.FromBytes(m).QuestionCount(), a);
    WithAnswerInserted(m, a, qend, aend, e, m');
    AnswerAdded(m, qend, aend, a, e, m', aend');
    if AnswersPointBack(m, qend, aend) {
      AnswerKeepsPointBack(m, qend, aend, a, e, m', aend');
    }
  }

  /** `WithAnswer` is `m` with the answer's bytes inserted where its
      answers end, under a header that counts one more answer and as many
      questions. */
  lemma WithAnswerInserted(m: seq<u8>, a: A.Answer, qend: nat, aend: nat, e: seq<u8>, m': seq<u8>)
    requires HEADER_SIZE <= |m| <= 0x4000 && Hdr.FromBytes(m).AnswerCount() < 0xFFFF
    requires Q.Skip(m, HEADER_SIZE, Hdr.FromBytes(m).QuestionCount()) == Some(qend)
    requires A.Skip(m, qend, Hdr.FromBytes(m).AnswerCount()) == Some(aend)
    requires NamesReadable(m, HEADER_SIZE, Hdr.FromBytes(m).QuestionCount()) && Readable(a.name.buf, a.name.start)
    requires e == AnswerBytes(m, Hdr.FromBytes(m).QuestionCount(), a) && m' == WithAnswer(m, a)
    ensures Hdr.FromBytes(m') == Hdr.FromBytes(m).SetAnswerCount(Hdr.FromBytes(m).AnswerCount() + 1)
    ensures Hdr.FromBytes(m').QuestionCount() == Hdr.FromBytes(m).QuestionCount()
    ensures Hdr.FromBytes(m').AnswerCount() == Hdr.FromBytes(m).AnswerCount() + 1
    ensures HEADER_SIZE <= aend <= |m| && InsertedAt(m, m', aend, e)
  {
    var h' := WithAnswerRewritten(m, a, qend, aend, e, m');
    RewrittenParts(m, h', aend, e);
  }

  /** `WithAnswer` as a `Rewritten` message. */
  lemma WithAnswerRewritten(m: seq<u8>, a: A.Answer, qend: nat, aend: nat, e: seq<u8>, m': seq<u8>) returns (h': Hdr.Header)
    requires HEADER_SIZE <= |m| <= 0x4000 && Hdr.FromBytes(m).AnswerCount() < 0xFFFF
    requires Q.Skip(m, HEADER_SIZE, Hdr.FromBytes(m).QuestionCount()) == Some(qend)
    requires A.Skip(m, qend, Hdr.FromBytes(m).AnswerCount()) == Some(aend)
    requires NamesReadable(m, HEADER_SIZE, Hdr.FromBytes(m).QuestionCount()) && Readable(a.name.buf, a.name.start)
    requires e == AnswerBytes(m, Hdr.FromBytes(m).QuestionCount(), a) && m' == WithAnswer(m, a)
    ensures h' == Hdr.FromBytes(m).SetAnswerCount(Hdr.FromBytes(m).AnswerCount() + 1)
    ensures HEADER_SIZE <= aend <= |m| && m' == Rewritten(m, h', aend, e)
  {
    h' := Hdr.FromBytes(m).SetAnswerCount(Hdr.FromBytes(m).AnswerCount() + 1);
    assert HEADER_SIZE <= qend <= |m| by { if Hdr.FromBytes(m).QuestionCount() == 0 { assert qend == HEADER_SIZE; } }
    assert aend <= |m| by { if Hdr.FromBytes(m).AnswerCount() == 0 { assert aend == qend; } }
  }


  /** `Message`: a buffer borrowed from the caller and the length of the
      message in it. */
  class Message {
    const buf: array<u8>
    var len: nat

    /** The message holds at least a header and fits in its buffer. */
    predicate Valid()
      reads this
    {
      HEADER_SIZE <= len <= buf.Length
    }

    constructor (buf: array<u8>, len: nat)
      requires HEADER_SIZE <= len <= buf.Length
      ensures this.buf == buf && this.len == len && Valid()
    {
      this.buf := buf;
      this.len := len;
    }

    /** `as_bytes`: the message, the first `len` bytes of the buffer. */
    function AsBytes(): (r: seq<u8>)
      reads this, buf
      requires Valid()
      ensures |r| == len && r <= buf[..]
    {
      buf[..len]
    }

    /** `header`: the first 12 bytes read as a header. */
    function Header(): (h: Hdr.Header)
      reads this, buf
      requires Valid()
      ensures h.ToBytes() == buf[..HEADER_SIZE]
    {
      Hdr.FromBytes(buf[..])
    }

    /** Storing a header through `header_mut`: the first 12 bytes become
        the header's and nothing else changes. */
    method WriteHeader(h: Hdr.Header)
      requires Valid()
      modifies buf
      ensures buf[..] == h.ToBytes() + old(buf[HEADER_SIZE..])
      ensures Header() == h
    {
      var b := h.ToBytes();
      forall k | 0 <= k < HEADER_SIZE {
        buf[k] := b[k];
      }
      assert buf[..] == b + old(buf[HEADER_SIZE..]);
      assert buf[..][..HEADER_SIZE] == b;
      Hdr.HeaderBytesRoundTrip(h);
    }

    /** `Message::builder`: zeroes the header bytes and starts a builder
        whose message is just the header. */
    static method Builder(buf: array<u8>) returns (b: MessageBuilder)
      requires buf.Length >= HEADER_SIZE
      modifies buf
      ensures fresh(b) && b.buf == buf && b.len == HEADER_SIZE
      ensures buf[..] == seq(HEADER_SIZE, _ => 0) + old(buf[HEADER_SIZE..])
      ensures Hdr.FromBytes(buf[..]) == Hdr.NewHeaderBuilder().Build()
    {
      for k := 0 to HEADER_SIZE
        invariant forall m :: 0 <= m < k ==> buf[m] == 0
        invariant forall m :: k <= m < buf.Length ==> buf[m] == old(buf[m])
      {
        buf[k] := 0;
      }
      assert buf[..] == seq(HEADER_SIZE, _ => 0) + old(buf[HEADER_SIZE..]);
      Hdr.ZeroBytesHeader(buf[..]);
      b := new MessageBuilder(buf, HEADER_SIZE);
    }

    /** `Message::parse`: refuses a buffer outside 12..512 bytes, reads the
        questions the header counts from the whole buffer, and settles the
        length just past the last one; a question that does not decode
        refuses the buffer. The answers are not looked at. */
    static method Parse(buffer: array<u8>) returns (r: Option<Message>)
      ensures r.None? <==> ParsedLen(buffer[..]).None?
      ensures r.Some? ==> && fresh(r.value) && r.value.buf == buffer && r.value.Valid()
                          && ParsedLen(buffer[..]) == Some(r.value.len)
    {
      if buffer.Length < HEADER_SIZE || buffer.Length > HEADER_SIZE + MAX_MESSAGE_SIZE {
        return None;
      }
      var frame := new Message(buffer, buffer.Length);
      var bytes := buffer[..];
      var i := HEADER_SIZE;
      var count := frame.Header().QuestionCount();
      ghost var left := count;
      for k := 0 to count
        invariant HEADER_SIZE <= i <= |bytes|
        invariant left + k == count && Q.Skip(bytes, i, left) == Q.Skip(bytes, HEADER_SIZE, count)
      {
        ghost var rest := left - 1;
        Q.SkipCons(bytes, i, left, rest);
        var ok;
        ok, i := Q.ReadOver(bytes, i);
        if !ok {
          return None;
        }
        left := rest;
      }
      frame.len := i;
      return Some(frame);
    }

    /** `questions_end`: the offset just past the questions the header
        counts; the source asserts each of them decodes. */
    method QuestionsEnd() returns (i: nat)
      requires Valid() && Q.Skip(AsBytes(), HEADER_SIZE, Header().QuestionCount()).Some?
      ensures Q.Skip(AsBytes(), HEADER_SIZE, Header().QuestionCount()) == Some(i)
      ensures HEADER_SIZE <= i <= len
    {
      i := Q.SkipOver(AsBytes(), HEADER_SIZE, Header().QuestionCount());
    }

    /** `answers_end`: the offset just past the answers the header counts,
        which follow the questions; the source asserts each decodes. */
    method AnswersEnd() returns (i: nat)
      requires Valid() && Q.Skip(AsBytes(), HEADER_SIZE, Header().QuestionCount()).Some?
      requires A.Skip(AsBytes(), Q.Skip(AsBytes(), HEADER_SIZE, Header().QuestionCount()).value, Header().AnswerCount()).Some?
      ensures A.Skip(AsBytes(), Q.Skip(AsBytes(), HEADER_SIZE, Header().QuestionCount()).value, Header().AnswerCount()) == Some(i)
      ensures HEADER_SIZE <= i <= len
    {
      var start := QuestionsEnd();
      i := A.SkipOver(AsBytes(), start, Header().AnswerCount());
    }

    /** `questions`: an iterator over the message's questions, starting
        right after the header. */
    method Questions() returns (q: Q.Questions)
      requires Valid()
      ensures fresh(q) && q.Valid()
      ensures q.questionCount == Header().QuestionCount() && q.buf == AsBytes()
      ensures q.currentQuestion == 0 && q.bufI == q.start == HEADER_SIZE
    {
      q := new Q.Questions(Header().QuestionCount(), AsBytes(), HEADER_SIZE);
    }

    /** `answers`: an iterator over the message's answers, starting right
        after the questions. */
    method Answers() returns (a: A.Answers)
      requires Valid() && Q.Skip(AsBytes(), HEADER_SIZE, Header().QuestionCount()).Some?
      ensures fresh(a) && a.Valid()
      ensures a.answerCount == Header().AnswerCount() && a.buf == AsBytes()
      ensures a.currentAnswer == 0
      ensures Some(a.bufI) == Q.Skip(AsBytes(), HEADER_SIZE, Header().QuestionCount()) && a.start == a.bufI
    {
      var end := QuestionsEnd();
      a := new A.Answers(Header().AnswerCount(), AsBytes(), end);
    }

    /** `insert`: moves the message from `i` on up by `|bytes|`, last byte
        first, copies `bytes` in at `i`, grows the message and moves the
        cursor past them. The buffer must have room. */
    method Insert(i: nat, bytes: seq<u8>) returns (i': nat)
      requires Valid() && i <= len && len + |bytes| <= buf.Length
      modifies this, buf
      ensures Valid() && len == old(len) + |bytes| && i' == i + |bytes|
      ensures buf[..] == Splice(old(buf[..]), old(len), i, bytes)
    {
      ghost var s := buf[..];
      var n := |bytes|;
      var l := len;
      var j := l;
      while j > i
        invariant i <= j <= l && |s| == buf.Length
        invariant forall k :: 0 <= k < j + n ==> buf[k] == s[k]
        invariant forall k :: j + n <= k < l + n ==> buf[k] == s[k - n]
        invariant forall k :: l + n <= k < buf.Length ==> buf[k] == s[k]
      {
        j := j - 1;
        buf[j + n] := buf[j];
      }
      forall k | 0 <= k < n {
        buf[i + k] := bytes[k];
      }
      SpliceAt(s, l, i, bytes);
      assert buf[..] == Splice(s, l, i, bytes);
      len := l + n;
      i' := i + n;
    }
    /** `add_question`: writes the question's name, kind and class right
        after the questions and counts one more question in the header. */
    method AddQuestion(question: Q.Question)
      requires Valid() && len <= 0x4000 && Header().QuestionCount() < 0xFFFF
      requires Q.Skip(AsBytes(), HEADER_SIZE, Header().QuestionCount()).Some?
      requires NamesReadable(AsBytes(), HEADER_SIZE, Header().QuestionCount())
      requires Readable(question.name.buf, question.name.start)
      requires len + |QuestionBytes(AsBytes(), Header().QuestionCount(), question)| <= buf.Length
      modifies this, buf
      ensures Valid()
      ensures Header() == old(Header()).SetQuestionCount(old(Header().QuestionCount()) + 1)
      ensures AsBytes() == WithQuestion(old(AsBytes()), question)
      ensures buf[len..] == old(buf[..])[len..]
    {
      ghost var m, s0, l0, h0 := AsBytes(), buf[..], len, Header();
      var end := QuestionsEnd();
      InsertQuestion(end, question);
      ghost var mid, hm, tail := AsBytes(), Header(), buf[len..];
      SameCounts(hm, h0);
      CountQuestion(h0);
      assert buf[len..] == tail;
      HeaderOfPrefix(m, s0, l0, h0, hm);
      QuestionComposed(m, question, hm, end, mid, AsBytes());
    }

    /** The inserts of `add_question` at `i`: the name, the kind and the class. */
    method InsertQuestion(i: nat, question: Q.Question)
      requires Valid() && HEADER_SIZE <= i <= len && len <= 0x4000
      requires NamesReadable(AsBytes(), HEADER_SIZE, Header().QuestionCount())
      requires Readable(question.name.buf, question.name.start)
      requires len + |QuestionBytes(AsBytes(), Header().QuestionCount(), question)| <= buf.Length
      modifies this, buf
      ensures var e := QuestionBytes(old(AsBytes()), old(Header().QuestionCount()), question);
        && Valid() && len == old(len) + |e| && buf[..] == Splice(old(buf[..]), old(len), i, e)
      ensures var e := QuestionBytes(old(AsBytes()), old(Header().QuestionCount()), question);
        AsBytes() == old(AsBytes())[..i] + e + old(AsBytes())[i..] && buf[len..] == old(buf[..])[len..]
      ensures Header() == old(Header())
    {
      ghost var s0, l0, bytes, count := buf[..], len, AsBytes(), Header().QuestionCount();
      ghost var nb := NameBytes(bytes, count, question.name);
      ghost var fb := question.kind.ToBeBytes() + question.qclass.ToBeBytes();
      ghost var e := QuestionBytes(bytes, count, question);
      assert e == nb + fb;
      var j := AddName(i, question.name);
      ghost var l1 := len;
      ghost var c1 := j;
      j := AddKindAndClass(j, question.kind, question.qclass);
      SpliceTwice(s0, l0, i, nb, fb, l1, c1);
      assert buf[..] == Splice(s0, l0, i, e);
      SpliceKeepsHeader(s0, l0, i, e);
      SpliceParts(s0, l0, i, e);
    }

    /** A kind and a class, inserted in turn, as `add_question` and
        `add_answer` both do. */
    method AddKindAndClass(i: nat, kind: QueryKinds.QueryKind, qclass: QueryClasses.QueryClass) returns (i': nat)
      requires Valid() && i <= len && len + 4 <= buf.Length
      modifies this, buf
      ensures Valid() && len == old(len) + 4 && i' == i + 4
      ensures buf[..] == Splice(old(buf[..]), old(len), i, kind.ToBeBytes() + qclass.ToBeBytes())
    {
      ghost var s0, l0 := buf[..], len;
      i' := AddKind(i, kind);
      ghost var l1, c1 := len, i';
      i' := AddClass(i', qclass);
      SpliceTwice(s0, l0, i, kind.ToBeBytes(), qclass.ToBeBytes(), l1, c1);
    }

    /** A TTL and a length-prefixed data field, inserted in turn, as
        `add_answer` does after the class. */
    method AddTtlAndRdata(i: nat, ttl: u32, data: seq<u8>) returns (i': nat)
      requires Valid() && i <= len && len + 6 + |data| <= buf.Length
      modifies this, buf
      ensures Valid() && len == old(len) + 6 + |data| && i' == i + 6 + |data|
      ensures buf[..] == Splice(old(buf[..]), old(len), i, U32ToBe(ttl) + (U16ToBe(|data| % 0x1_0000) + data))
    {
      ghost var s0, l0 := buf[..], len;
      i' := AddTtl(i, ttl);
      ghost var l1, c1 := len, i';
      i' := AddRdata(i', data);
      SpliceTwice(s0, l0, i, U32ToBe(ttl), U16ToBe(|data| % 0x1_0000) + data, l1, c1);
    }

    /** The last two lines of `add_question`: the header's question count
        goes up by one and nothing after the header changes. */
    method CountQuestion(ghost h0: Hdr.Header)
      requires Valid() && Header().QuestionCount() < 0xFFFF && Header() == h0
      modifies buf
      ensures buf[HEADER_SIZE..] == old(buf[HEADER_SIZE..])
      ensures Header() == old(Header()).SetQuestionCount(old(Header().QuestionCount()) + 1)
      ensures Header() == h0.SetQuestionCount(h0.QuestionCount() + 1)
      ensures AsBytes() == old(Header()).SetQuestionCount(old(Header().QuestionCount()) + 1).ToBytes() + old(AsBytes())[HEADER_SIZE..]
      ensures buf[len..] == old(buf[len..])
    {
      var header := Header();
      WriteHeader(header.SetQuestionCount(header.QuestionCount() + 1));
      assert buf[..len] == buf[..][..HEADER_SIZE] + buf[..][HEADER_SIZE..len];
    }

    /** `add_answer`: writes the answer's name, kind, class, TTL and data
        right after the answers and counts one more answer in the header.
        A pointer for the name is looked for among the questions only. */
    method AddAnswer(answer: A.Answer)
      requires Valid() && len <= 0x4000 && Header().AnswerCount() < 0xFFFF
      requires Q.Skip(AsBytes(), HEADER_SIZE, Header().QuestionCount()).Some?
      requires A.Skip(AsBytes(), Q.Skip(AsBytes(), HEADER_SIZE, Header().QuestionCount()).value, Header().AnswerCount()).Some?
      requires NamesReadable(AsBytes(), HEADER_SIZE, Header().QuestionCount())
      requires Readable(answer.name.buf, answer.name.start)
      requires len + |AnswerBytes(AsBytes(), Header().QuestionCount(), answer)| <= buf.Length
      modifies this, buf
      ensures Valid()
      ensures Header() == old(Header()).SetAnswerCount(old(Header().AnswerCount()) + 1)
      ensures AsBytes() == WithAnswer(old(AsBytes()), answer)
      ensures buf[len..] == old(buf[..])[len..]
    {
      ghost var m, s0, l0, h0 := AsBytes(), buf[..], len, Header();
      ghost var qend := Q.Skip(m, HEADER_SIZE, h0.QuestionCount()).value;
      HeaderOfPrefix(m, s0, l0, h0, h0);
      var end := AnswersEnd();
      assert A.Skip(m, qend, h0.AnswerCount()) == Some(end);
      assert AsBytes() == m && Header().QuestionCount() == h0.QuestionCount();
      InsertAnswer(end, answer);
      ghost var mid, tail := AsBytes(), buf[len..];
      assert mid == m[..end] + AnswerBytes(m, h0.QuestionCount(), answer) + m[end..];
      CountAnswer(h0);
      assert buf[len..] == tail;
      AnswerComposed(m, answer, h0, qend, end, mid, AsBytes());
      assert old(Header().AnswerCount()) + 1 == h0.AnswerCount() + 1;
      assert Z8: old(Header()).SetAnswerCount(h0.AnswerCount() + 1) == old(Header()).SetAnswerCount(old(Header().AnswerCount()) + 1);
    }

    /** The inserts of `add_answer` at `i`: the name, then the other fields. */
    method InsertAnswer(i: nat, answer: A.Answer)
      requires Valid() && HEADER_SIZE <= i <= len && len <= 0x4000
      requires NamesReadable(AsBytes(), HEADER_SIZE, Header().QuestionCount())
      requires Readable(answer.name.buf, answer.name.start)
      requires len + |AnswerBytes(AsBytes(), Header().QuestionCount(), answer)| <= buf.Length
      modifies this, buf
      ensures var e := AnswerBytes(old(AsBytes()), old(Header().QuestionCount()), answer);
        && Valid() && len == old(len) + |e| && buf[..] == Splice(old(buf[..]), old(len), i, e)
      ensures var e := AnswerBytes(old(AsBytes()), old(Header().QuestionCount()), answer);
        AsBytes() == old(AsBytes())[..i] + e + old(AsBytes())[i..] && buf[len..] == old(buf[..])[len..]
      ensures Header() == old(Header())
    {
      ghost var s0, l0, bytes, count := buf[..], len, AsBytes(), Header().QuestionCount();
      ghost var nb := NameBytes(bytes, count, answer.name);
      ghost var fb := A.FieldBytes(answer.kind, answer.qclass, answer.ttl, answer.rdata);
      ghost var e := AnswerBytes(bytes, count, answer);
      assert e == nb + fb;
      var j := AddName(i, answer.name);
      ghost var l1 := len;
      ghost var c1 := j;
      j := AddFields(j, answer);
      SpliceTwice(s0, l0, i, nb, fb, l1, c1);
      assert buf[..] == Splice(s0, l0, i, e);
      SpliceKeepsHeader(s0, l0, i, e);
      SpliceParts(s0, l0, i, e);
    }

    /** The last two lines of `add_answer`: the header's answer count goes
        up by one and nothing after the header changes. */
    method CountAnswer(ghost h0: Hdr.Header)
      requires Valid() && Header().AnswerCount() < 0xFFFF && Header() == h0
      modifies buf
      ensures buf[HEADER_SIZE..] == old(buf[HEADER_SIZE..])
      ensures Header() == old(Header()).SetAnswerCount(old(Header().AnswerCount()) + 1)
      ensures Header() == h0.SetAnswerCount(h0.AnswerCount() + 1)
      ensures AsBytes() == h0.SetAnswerCount(h0.AnswerCount() + 1).ToBytes() + old(AsBytes())[HEADER_SIZE..]
      ensures AsBytes() == old(Header()).SetAnswerCount(old(Header().AnswerCount()) + 1).ToBytes() + old(AsBytes())[HEADER_SIZE..]
      ensures buf[len..] == old(buf[len..])
    {
      var header := Header();
      WriteHeader(header.SetAnswerCount(header.AnswerCount() + 1));
      assert buf[..len] == buf[..][..HEADER_SIZE] + buf[..][HEADER_SIZE..len];
    }

    /** The kind, class, TTL and data of `add_answer`, inserted in turn. */
    method AddFields(i: nat, answer: A.Answer) returns (i': nat)
      requires Valid() && i <= len
      requires len + |A.FieldBytes(answer.kind, answer.qclass, answer.ttl, answer.rdata)| <= buf.Length
      modifies this, buf
      ensures var e := A.FieldBytes(answer.kind, answer.qclass, answer.ttl, answer.rdata);
        && Valid() && len == old(len) + |e| && i' == i + |e|
        && buf[..] == Splice(old(buf[..]), old(len), i, e)
    {
      ghost var s0, l0 := buf[..], len;
      ghost var kc := answer.kind.ToBeBytes() + answer.qclass.ToBeBytes();
      ghost var tr := U32ToBe(answer.ttl) + (U16ToBe(|answer.rdata| % 0x1_0000) + answer.rdata);
      A.FieldBytesParts(answer.kind, answer.qclass, answer.ttl, answer.rdata);
      i' := AddKindAndClass(i, answer.kind, answer.qclass);
      ghost var l1, c1 := len, i';
      i' := AddTtlAndRdata(i', answer.ttl, answer.rdata);
      SpliceTwice(s0, l0, i, kc, tr, l1, c1);
    }

    /** `add_name`: at the first question whose name `create_pointer`
        matches, inserts that pointer; otherwise inserts each label of
        `name` (its raw length byte, then its bytes) and a closing zero.
        Pointers need the message to fit in 14-bit offsets. */
    method AddName(i: nat, name: Name) returns (i': nat)
      requires Valid() && i <= len && len <= 0x4000
      requires NamesReadable(AsBytes(), HEADER_SIZE, Header().QuestionCount()) && Readable(name.buf, name.start)
      requires len + |NameBytes(AsBytes(), Header().QuestionCount(), name)| <= buf.Length
      modifies this, buf
      ensures Valid()
      ensures var e := NameBytes(old(AsBytes()), old(Header().QuestionCount()), name);
        && buf[..] == Splice(old(buf[..]), old(len), i, e)
        && len == old(len) + |e| && i' == i + |e|
    {
      var pointer := PointerFor(name);
      if pointer.Some? {
        i' := Insert(i, pointer.value);
        return;
      }
      LabelsByteSized(name);
      ghost var s0, l0, written := buf[..], len, EncodeLabels(name.LabelContents());
      i' := InsertLabels(i, name);
      ghost var n1, c1 := len, i';
      i' := Insert(i', [0]);
      SpliceTwice(s0, l0, i, written, [0], n1, c1);
    }

    /** The first loop of `add_name`: walks the questions with their
        iterator and stops at the first whose name `create_pointer`
        matches, with that pointer. */
    method PointerFor(name: Name) returns (pointer: Option<seq<u8>>)
      requires Valid() && len <= 0x4000
      requires NamesReadable(AsBytes(), HEADER_SIZE, Header().QuestionCount()) && Readable(name.buf, name.start)
      ensures var t := PointerTarget(AsBytes(), HEADER_SIZE, Header().QuestionCount(), name);
        pointer == if t.Some? then Some(PointerBytes(t.value)) else None
    {
      ghost var bytes := AsBytes();
      ghost var count := Header().QuestionCount();
      ghost var target := PointerTarget(bytes, HEADER_SIZE, count, name);
      var questions := Questions();
      ghost var left, at := count, HEADER_SIZE;
      while true
        invariant fresh(questions)
        invariant questions.Valid() && questions.buf == bytes && questions.questionCount == count
        invariant questions.currentQuestion + left == count && questions.bufI == at
        invariant NamesReadable(bytes, at, left) && PointerTarget(bytes, at, left, name) == target
        decreases left
      {
        var question := questions.Next();
        Q.ReadEnd(bytes, at);
        if question.None? {
          return None;
        }
        ghost var next, rest := questions.bufI, left - 1;
        NamesReadableStep(bytes, at, left, next, rest);
        PointerTargetStep(bytes, at, left, name, next, rest);
        pointer := question.value.name.CreatePointer(name);
        if pointer.Some? {
          return;
        }
        left, at := rest, next;
      }
    }

    /** One round of the labels loop of `add_name`: inserts the label's
        raw length byte and then its bytes at the cursor. */
    method InsertLabel(i: nat, part: Label) returns (i': nat)
      requires Valid() && i <= len
      requires part.bufI < |part.buf| && part.bufI + 1 + part.Len() <= |part.buf|
      requires len + 1 + part.Len() <= buf.Length
      modifies this, buf
      ensures Valid() && len == old(len) + 1 + part.Len() && i' == i + 1 + part.Len()
      ensures buf[..] == Splice(old(buf[..]), old(len), i, [part.Len()] + part.AsBytes())
    {
      ghost var s, l := buf[..], len;
      var size := [part.Len()];
      i' := Insert(i, size);
      ghost var n1, c1 := len, i';
      i' := Insert(i', part.AsBytes());
      SpliceTwice(s, l, i, size, part.AsBytes(), n1, c1);
    }

    /** The second loop of `add_name`: inserts each label of `name`, its
        raw length byte and then its bytes, at the cursor, which ends up
        past them. */
    method InsertLabels(i: nat, name: Name) returns (i': nat)
      requires Valid() && i <= len && Readable(name.buf, name.start)
      requires ByteSized(name.LabelContents()) && len + |Encode(name.LabelContents())| <= buf.Length
      modifies this, buf
      ensures Valid()
      ensures var e := EncodeLabels(name.LabelContents());
        && buf[..] == Splice(old(buf[..]), old(len), i, e)
        && len == old(len) + |e| && i' == i + |e|
    {
      ghost var s0 := buf[..];
      ghost var l0 := len;
      ghost var ps := LabelsFrom(name.buf, name.start);
      ghost var all := name.LabelContents();
      ghost var k := 0;
      ghost var written: seq<u8> := [];
      var labels := new Labels(name.buf, name.start);
      i' := i;
      while true
        invariant fresh(labels)
        invariant labels.buf == name.buf && labels.Valid()
        invariant k <= |ps| && labels.Remaining() == ps[k..]
        invariant written == EncodeFirst(all, k)
        invariant Valid() && len == l0 + |written| && i' == i + |written|
        invariant buf[..] == Splice(s0, l0, i, written)
        decreases |ps| - k
      {
        var part := labels.Next();
        if part.None? {
          EncodeFirstAll(name.buf, name.start, k);
          return;
        }
        ghost var k1 := k + 1;
        ghost var rem := labels.Remaining();
        NextLabelBytes(name.buf, name.start, k, k1, part.value, rem);
        ghost var bytes := [part.value.Len()] + part.value.AsBytes();
        ghost var n1, c1 := len, i';
        i' := InsertLabel(i', part.value);
        assert labels.Remaining() == rem;
        SpliceTwice(s0, l0, i, written, bytes, n1, c1);
        written := written + bytes;
        k := k1;
      }
    }

    /** `add_kind`: inserts the kind's two code bytes at the cursor. */
    method AddKind(i: nat, kind: QueryKinds.QueryKind) returns (i': nat)
      requires Valid() && i <= len && len + 2 <= buf.Length
      modifies this, buf
      ensures Valid() && len == old(len) + 2 && i' == i + 2
      ensures buf[..] == Splice(old(buf[..]), old(len), i, kind.ToBeBytes())
    {
      i' := Insert(i, kind.ToBeBytes());
    }

    /** `add_class`: inserts the class's two code bytes at the cursor. */
    method AddClass(i: nat, qclass: QueryClasses.QueryClass) returns (i': nat)
      requires Valid() && i <= len && len + 2 <= buf.Length
      modifies this, buf
      ensures Valid() && len == old(len) + 2 && i' == i + 2
      ensures buf[..] == Splice(old(buf[..]), old(len), i, qclass.ToBeBytes())
    {
      i' := Insert(i, qclass.ToBeBytes());
    }

    /** `add_ttl`: inserts the TTL's four big-endian bytes at the cursor. */
    method AddTtl(i: nat, ttl: u32) returns (i': nat)
      requires Valid() && i <= len && len + 4 <= buf.Length
      modifies this, buf
      ensures Valid() && len == old(len) + 4 && i' == i + 4
      ensures buf[..] == Splice(old(buf[..]), old(len), i, U32ToBe(ttl))
    {
      i' := Insert(i, U32ToBe(ttl));
    }

    /** `add_rdata`: inserts the data's length, cut to 16 bits, big-endian,
        and then the data. */
    method AddRdata(i: nat, data: seq<u8>) returns (i': nat)
      requires Valid() && i <= len && len + 2 + |data| <= buf.Length
      modifies this, buf
      ensures Valid() && len == old(len) + 2 + |data| && i' == i + 2 + |data|
      ensures buf[..] == Splice(old(buf[..]), old(len), i, U16ToBe(|data| % 0x1_0000) + data)
    {
      ghost var s := buf[..];
      ghost var l := len;
      var size := U16ToBe(|data| % 0x1_0000);
      i' := Insert(i, size);
      ghost var n1, c1 := len, i';
      i' := Insert(i', data);
      SpliceTwice(s, l, i, size, data, n1, c1);
    }
  }

  /** `MessageBuilder`: a message under construction over the caller's
      buffer. */
  class MessageBuilder {
    const buf: array<u8>
    var len: nat

    constructor (buf: array<u8>, len: nat)
      ensures this.buf == buf && this.len == len
    {
      this.buf := buf;
      this.len := len;
    }

    /** `MessageBuilder::header`: stores the header in the first 12 bytes
        and makes the message just the header. */
    method Header(h: Hdr.Header)
      requires buf.Length >= HEADER_SIZE
      modifies this, buf
      ensures buf[..] == h.ToBytes() + old(buf[HEADER_SIZE..]) && len == HEADER_SIZE
      ensures Hdr.FromBytes(buf[..]) == h
    {
      var b := h.ToBytes();
      forall k | 0 <= k < HEADER_SIZE {
        buf[k] := b[k];
      }
      assert buf[..] == b + old(buf[HEADER_SIZE..]);
      assert buf[..][..HEADER_SIZE] == b;
      Hdr.HeaderBytesRoundTrip(h);
      len := HEADER_SIZE;
    }

    /** `build`: the message over the same buffer and length. */
    method Build() returns (m: Message)
      requires HEADER_SIZE <= len <= buf.Length
      ensures fresh(m) && m.buf == buf && m.len == len && m.Valid()
    {
      m := new Message(buf, len);
    }
  }
}
