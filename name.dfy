/** Domain names as views into a message buffer (section 4.1.4 of RFC
    1035): reading one label or compression pointer, validating a whole
    name with the pointer and length guards, iterating its labels, and the
    case-insensitive comparisons that drive compression. */
module Names {
  import opened Wire

  /** The two top bits that mark a compression pointer. */
  const PTR_MASK: u8 := 0xC0

  /** What one byte at a cursor starts: a pointer with its 14-bit target, or
      a label of the given length, where length 0 ends the name. */
  datatype LabelType = Pointer(target: u16) | Part(len: u8)

  /** `b & PTR_MASK == PTR_MASK`. Bytes with the prefixes 01 and 10 are not
      pointers and are read as lengths. */
  predicate IsPointerByte(b: u8) {
    b >= PTR_MASK
  }

  /** `b & LEN_MASK`: the low six bits of a length byte. */
  function LenBits(b: u8): (n: u8)
    ensures n < 64 && n <= b
  {
    b % 64
  }

  /** `LabelType::read`. It fails, leaving the cursor alone, when the cursor
      is past the end or a pointer's second byte is missing. A pointer moves
      the cursor over both bytes; a length moves it over the length byte and
      the label, whether or not those label bytes exist. */
  function ReadLabelType(buf: seq<u8>, i: nat): (r: (Option<LabelType>, nat))
    ensures r.0.None? <==> i >= |buf| || (IsPointerByte(buf[i]) && i + 1 >= |buf|)
    ensures r.0.None? ==> r.1 == i
    ensures r.0.Some? && r.0.value.Pointer? ==>
              && IsPointerByte(buf[i]) && r.1 == i + 2
              && r.0.value.target == LenBits(buf[i]) * 0x100 + buf[i + 1] < 0x4000
    ensures r.0.Some? && r.0.value.Part? ==>
              !IsPointerByte(buf[i]) && r.0.value.len == LenBits(buf[i]) && r.1 == i + 1 + r.0.value.len
  {
    if i < |buf| then
      var b := buf[i];
      if IsPointerByte(b) then
        if i + 1 < |buf| then (Some(Pointer(U16FromBe(LenBits(b), buf[i + 1]))), i + 2)
        else (None, i)
      else
        (Some(Part(LenBits(b))), i + 1 + LenBits(b))
    else
      (None, i)
  }

  /** The two bytes of a compression pointer to offset `t`:
      `[hi(t) | PTR_MASK, lo(t)]`, for an offset that fits in 14 bits. */
  function PointerBytes(t: nat): (b: seq<u8>)
    requires t < 0x4000
    ensures |b| == 2 && IsPointerByte(b[0])
  {
    [PTR_MASK + t / 0x100, t % 0x100]
  }

  /** A pointer written by `PointerBytes` reads back as a pointer to the same offset. */
  lemma ReadPointerBytes(buf: seq<u8>, k: nat, t: nat, k': nat)
    requires t < 0x4000 && k' == k + 2
    requires k' <= |buf| && buf[k..k'] == PointerBytes(t)
    ensures ReadLabelType(buf, k) == (Some(Pointer(t)), k')
  {
    assert buf[k] == buf[k..k'][0] && buf[k + 1] == buf[k..k'][1];
  }

  /** A name view: the buffer it lives in and the offset it starts at. */
  datatype Name = Name(buf: seq<u8>, start: nat)
  {
    /** The bytes of this name's labels, in order. */
    function LabelContents(): seq<seq<u8>>
      requires Readable(buf, start)
    {
      Contents(buf, LabelsFrom(buf, start))
    }

    /** `equal_from`: walks the labels from offset `i` of this name's buffer
        and the labels of `sub` side by side; true when both run out
        together and every pair matched ignoring ASCII case. */
    method EqualFrom(i: nat, sub: Name) returns (b: bool)
      requires Readable(buf, i) && Readable(sub.buf, sub.start)
      ensures b <==> EqualLabels(Contents(buf, LabelsFrom(buf, i)), sub.LabelContents())
    {
      var mine := new Labels(buf, i);
      var theirs := new Labels(sub.buf, sub.start);
      ghost var goal := EqualLabels(Contents(buf, LabelsFrom(buf, i)), sub.LabelContents());
      while true
        invariant mine != theirs
        invariant mine.buf == buf && theirs.buf == sub.buf
        invariant mine.Valid() && RawInBounds(buf, mine.Remaining())
        invariant theirs.Valid() && RawInBounds(sub.buf, theirs.Remaining())
        invariant goal <==> EqualLabels(Contents(buf, mine.Remaining()), Contents(sub.buf, theirs.Remaining()))
        decreases |mine.Remaining()|
      {
        ghost var xs := Contents(buf, mine.Remaining());
        ghost var ys := Contents(sub.buf, theirs.Remaining());
        var t := mine.Next();
        var o := theirs.Next();
        if t.Some? && o.Some? {
          EqualLabelsCons(xs, ys);
          assert Contents(buf, mine.Remaining()) == xs[1..];
          assert Contents(sub.buf, theirs.Remaining()) == ys[1..];
          if !EqIgnoreAsciiCase(t.value.AsBytes(), o.value.AsBytes()) {
            break;
          }
        } else if t.None? && o.None? {
          return true;
        } else {
          break;
        }
      }
      return false;
    }

    /** `create_pointer`: the compression pointer to the first label
        boundary of this name (its start, or the end of one of its labels)
        from which the rest of the name equals `sub`, or `None`. The
        terminator is never tried, so an empty `sub` finds nothing. */
    method CreatePointer(sub: Name) returns (r: Option<seq<u8>>)
      requires Readable(buf, start) && Readable(sub.buf, sub.start)
      requires |buf| <= 0x4000
      ensures r == (var t := PointerSearch(buf, start, sub); if t.None? then None else Some(PointerBytes(t.value)))
    {
      var labels := new Labels(buf, start);
      while true
        invariant labels.buf == buf && Readable(buf, labels.bufI)
        invariant PointerSearch(buf, labels.bufI, sub) == PointerSearch(buf, start, sub)
        decreases |labels.Remaining()|
      {
        var i := labels.bufI;
        ghost var rem := labels.Remaining();
        var l := labels.Next();
        if l.Some? {
          FirstLabelStep(buf, i);
          assert labels.Remaining() == rem[1..];
          var equal := EqualFrom(i, sub);
          if equal {
            StepLabels(buf, i);
            return Some(PointerBytes(i));
          }
          continue;
        }
        break;
      }
      return None;
    }

    /** `Name == str`: walks the labels, expecting a '.' before every label
        but the first and the label's bytes (ignoring ASCII case) at that
        point of `other`, and finally the end of `other`. */
    method EqStr(other: seq<u8>) returns (b: bool)
      requires Readable(buf, start)
      ensures b <==> EqIgnoreAsciiCase(Dotted(LabelContents()), other)
    {
      ghost var ps := LabelsFrom(buf, start);
      ghost var all := LabelContents();
      var otherI: nat := 0;
      ghost var k: nat := 0;
      var labels := new Labels(buf, start);
      while true
        invariant labels.buf == buf && labels.Valid()
        invariant k <= |ps| && labels.Remaining() == ps[k..]
        invariant MatchedPrefix(all, k, other, otherI)
        decreases |labels.Remaining()|
      {
        var l := labels.Next();
        if l.None? {
          assert |ps[k..]| == 0;
          MatchedAll(all, k, other, otherI);
          return otherI == |other|;
        }
        var part := l.value;
        ghost var k1 := k + 1;
        assert part == Label(buf, ps[k]);
        assert labels.Remaining() == ps[k1..];
        NextLabelMatch(buf, start, k, k1, part, other, otherI);
        var next := MatchLabel(other, otherI, part.AsBytes());
        if next.None? {
          return false;
        }
        otherI := next.value;
        k := k1;
      }
    }

    /** `split`: the first label and, when there is a second label, the
        name that starts at that second label's offset. The name must have
        a label (`unwrap` panics on the root name). */
    function Split(): (r: (Label, Option<Name>))
      requires Readable(buf, start) && LabelsFrom(buf, start) != []
      ensures r.0.buf == buf && r.0.bufI < |buf| && r.0.bufI + 1 + r.0.Len() <= |buf|
      ensures r.0.AsBytes() == LabelContents()[0]
      ensures r.1.None? <==> |LabelContents()| == 1
      ensures r.1.Some? ==> Readable(r.1.value.buf, r.1.value.start) && r.1.value.LabelContents() == LabelContents()[1..]
    {
      var ps := LabelsFrom(buf, start);
      if |ps| == 1 then
        (Label(buf, ps[0]), None)
      else
        FirstLabelStep(buf, start);
        FirstLabelStep(buf, AfterFirst(buf, start));
        assert ps[1..][0] == ps[1];
        (Label(buf, ps[0]), Some(Name(buf, ps[1])))
    }
  }

  /** What a walk over a name saw: the offsets of its non-empty labels'
      length bytes, the pointer targets it followed, and the value the
      caller's cursor receives (`next`). */
  datatype NameTrace = NameTrace(labels: seq<nat>, targets: seq<nat>, next: nat)

  /** The cursor `Name::read` advances: `ptr` once a pointer was followed, else `j`. */
  function Cursor(j: nat, ptr: Option<nat>): nat {
    if ptr.Some? then ptr.value else j
  }

  /** The loop of `Name::read`, one iteration per call, over its variables
      `j`, `maximum`, `ptr` and `len`. A pointer is followed only to a target
      strictly below `maximum`, which then becomes the target; a label is
      accepted only while the summed lengths stay within a `u8`. Each call
      either lowers `maximum` or moves the cursor forward inside the buffer,
      so the walk ends on every input. */
  function Walk(buf: seq<u8>, j: nat, maximum: nat, ptr: Option<nat>, len: nat): (r: Option<NameTrace>)
    decreases maximum, |buf| - Cursor(j, ptr)
  {
    var cur := Cursor(j, ptr);
    var read := ReadLabelType(buf, cur);
    var j' := if ptr.None? then read.1 else j;
    if read.0.None? then None
    else match read.0.value
      case Pointer(p) =>
        if p >= maximum then None
        else
          var rest := Walk(buf, j', p, Some(p), len);
          if rest.None? then None else Some(rest.value.(targets := [p] + rest.value.targets))
      case Part(n) =>
        if n == 0 then Some(NameTrace([], [], j'))
        else if len + n > 255 then None
        else
          var rest := Walk(buf, j', maximum, if ptr.None? then None else Some(read.1), len + n);
          if rest.None? then None else Some(rest.value.(labels := [cur] + rest.value.labels))
  }

  /** `Name::read` as a value: the name starting at `i` and the caller's new
      cursor, or `None` with the cursor untouched. */
  function NameRead(buf: seq<u8>, i: nat): (r: (Option<Name>, nat))
    ensures r.0.None? ==> r.1 == i
    ensures r.0.Some? ==> r.0.value == Name(buf, i) && i < r.1 <= |buf|
  {
    match Walk(buf, i, i, None, 0)
    case None => (None, i)
    case Some(t) =>
      WalkNext(buf, i, i, None, 0);
      (Some(Name(buf, i)), t.next)
  }

  /** The cursor a successful walk hands back: still `j` once a pointer was
      followed, otherwise strictly past `j` and within the buffer. */
  lemma {:induction false} WalkNext(buf: seq<u8>, j: nat, maximum: nat, ptr: Option<nat>, len: nat)
    requires Walk(buf, j, maximum, ptr, len).Some?
    ensures ptr.Some? ==> Walk(buf, j, maximum, ptr, len).value.next == j
    ensures ptr.None? ==> j < Walk(buf, j, maximum, ptr, len).value.next <= |buf|
    decreases maximum, |buf| - Cursor(j, ptr)
  {
    var cur := Cursor(j, ptr);
    var read := ReadLabelType(buf, cur);
    var advanced := read.1;
    var j' := if ptr.None? then advanced else j;
    match read.0.value
    case Pointer(p) =>
      WalkNext(buf, j', p, Some(p), len);
    case Part(n) =>
      if n != 0 {
        WalkNext(buf, j', maximum, if ptr.None? then None else Some(advanced), len + n);
      }
  }

  /** Only the success and the cursor of a walk: what `Name::read` reports. */
  function Outcome(w: Option<NameTrace>): Option<nat> {
    if w.None? then None else Some(w.value.next)
  }

  /** `Name::read`: the loop itself, proved to compute `NameRead`. */
  method ReadName(buf: seq<u8>, i: nat) returns (name: Option<Name>, i': nat)
    ensures (name, i') == NameRead(buf, i)
  {
    var j: nat := i;
    var maximum: nat := i;
    var ptr: Option<nat> := None;
    var len: nat := 0;
    while true
      invariant Outcome(Walk(buf, j, maximum, ptr, len)) == Outcome(Walk(buf, i, i, None, 0))
      decreases maximum, |buf| - Cursor(j, ptr)
    {
      var (lt, advanced) := ReadLabelType(buf, Cursor(j, ptr));
      if ptr.Some? {
        ptr := Some(advanced);
      } else {
        j := advanced;
      }
      match lt {
        case None =>
          break;
        case Some(Pointer(p)) =>
          if p >= maximum {
            break;
          }
          maximum := p;
          ptr := Some(p);
        case Some(Part(n)) =>
          if n == 0 {
            return Some(Name(buf, i)), j;
          }
          if len + n > 255 {
            break;
          }
          len := len + n;
      }
    }
    return None, i;
  }

  /** Each element is strictly below the one before it, and the first is below `bound`. */
  predicate DescendingBelow(ts: seq<nat>, bound: nat) {
    ts == [] || (ts[0] < bound && DescendingBelow(ts[1..], ts[0]))
  }

  /** Every pointer a successful walk follows targets an offset strictly
      below `maximum` (for a whole name, its start) and strictly below every
      target followed before it. */
  lemma {:induction false} WalkTargetsDecrease(buf: seq<u8>, j: nat, maximum: nat, ptr: Option<nat>, len: nat)
    requires Walk(buf, j, maximum, ptr, len).Some?
    ensures DescendingBelow(Walk(buf, j, maximum, ptr, len).value.targets, maximum)
    decreases maximum, |buf| - Cursor(j, ptr)
  {
    var cur := Cursor(j, ptr);
    var read := ReadLabelType(buf, cur);
    var advanced := read.1;
    var j' := if ptr.None? then advanced else j;
    match read.0.value
    case Pointer(p) =>
      WalkTargetsDecrease(buf, j', p, Some(p), len);
      var ts := Walk(buf, j, maximum, ptr, len).value.targets;
      assert ts[1..] == Walk(buf, j', p, Some(p), len).value.targets;
    case Part(n) =>
      if n != 0 {
        var ptr' := if ptr.None? then None else Some(advanced);
        WalkTargetsDecrease(buf, j', maximum, ptr', len + n);
        assert Walk(buf, j, maximum, ptr, len).value.targets == Walk(buf, j', maximum, ptr', len + n).value.targets;
      }
  }

  /** The summed length of the labels at the given offsets. */
  function SumLen(buf: seq<u8>, ps: seq<nat>): nat
    requires forall k :: 0 <= k < |ps| ==> ps[k] < |buf|
  {
    if ps == [] then 0 else LenBits(buf[ps[0]]) + SumLen(buf, ps[1..])
  }

  /** Every label of a successful walk has length 1 to 63 with its bytes
      inside the buffer, and the lengths add up to at most 255 (counting what
      `len` already held). */
  lemma {:induction false} WalkLabels(buf: seq<u8>, j: nat, maximum: nat, ptr: Option<nat>, len: nat)
    requires Walk(buf, j, maximum, ptr, len).Some? && len <= 255
    ensures var ps := Walk(buf, j, maximum, ptr, len).value.labels;
      && (forall k :: 0 <= k < |ps| ==> ps[k] < |buf| && ps[k] + 1 + LenBits(buf[ps[k]]) < |buf| && LenBits(buf[ps[k]]) >= 1)
      && len + SumLen(buf, ps) <= 255
    decreases maximum, |buf| - Cursor(j, ptr)
  {
    var cur := Cursor(j, ptr);
    var read := ReadLabelType(buf, cur);
    var advanced := read.1;
    var j' := if ptr.None? then advanced else j;
    match read.0.value
    case Pointer(p) =>
      WalkLabels(buf, j', p, Some(p), len);
    case Part(n) =>
      if n != 0 {
        var ptr' := if ptr.None? then None else Some(advanced);
        WalkLabels(buf, j', maximum, ptr', len + n);
        // the label after this one (or the terminator) was read at `advanced`
        var rest := Walk(buf, j', maximum, ptr', len + n);
        assert advanced == Cursor(j', ptr');
        var (lt2, _) := ReadLabelType(buf, advanced);
        assert lt2.Some?;
        var ps := Walk(buf, j, maximum, ptr, len).value.labels;
        var qs := rest.value.labels;
        assert ps == [cur] + qs;
        assert ps[1..] == qs;
        assert LenBits(buf[cur]) == n;
        assert SumLen(buf, ps) == n + SumLen(buf, qs);
        LabelBoundsCons(buf, cur, qs);
      }
  }

  /** The label bounds of `WalkLabels`, one more label in front. */
  lemma LabelBoundsCons(buf: seq<u8>, p: nat, qs: seq<nat>)
    requires p < |buf| && p + 1 + LenBits(buf[p]) < |buf| && LenBits(buf[p]) >= 1
    requires forall k :: 0 <= k < |qs| ==> qs[k] < |buf| && qs[k] + 1 + LenBits(buf[qs[k]]) < |buf| && LenBits(buf[qs[k]]) >= 1
    ensures var ps := [p] + qs;
      forall k :: 0 <= k < |ps| ==> ps[k] < |buf| && ps[k] + 1 + LenBits(buf[ps[k]]) < |buf| && LenBits(buf[ps[k]]) >= 1
  {
    var ps := [p] + qs;
    forall k | 1 <= k < |ps|
      ensures ps[k] < |buf| && ps[k] + 1 + LenBits(buf[ps[k]]) < |buf| && LenBits(buf[ps[k]]) >= 1
    {
      assert ps[k] == qs[k - 1];
    }
  }

  /** The path of a walk, without the cursor it hands back. */
  function Path(w: Option<NameTrace>): Option<(seq<nat>, seq<nat>)> {
    if w.None? then None else Some((w.value.labels, w.value.targets))
  }

  /** Once a pointer has been followed, the rest of the walk does not depend
      on `j`: it is the walk that starts afresh at the pointer's cursor. */
  lemma {:induction false} WalkFromPointer(buf: seq<u8>, j: nat, maximum: nat, p: nat, len: nat)
    ensures Path(Walk(buf, j, maximum, Some(p), len)) == Path(Walk(buf, p, maximum, None, len))
    decreases maximum, |buf| - p
  {
    var (lt, advanced) := ReadLabelType(buf, p);
    match lt
    case None =>
    case Some(Pointer(q)) =>
      if q < maximum {
        WalkFromPointer(buf, j, q, q, len);
        WalkFromPointer(buf, p + 2, q, q, len);
      }
    case Some(Part(n)) =>
      if n != 0 && len + n <= 255 {
        WalkFromPointer(buf, j, maximum, advanced, len + n);
      }
  }

  /** A walk that succeeds still succeeds, with the same result, from a
      higher `maximum` or a smaller running length. */
  lemma {:induction false} WalkMonotone(buf: seq<u8>, j: nat, maximum: nat, maximum': nat, ptr: Option<nat>, len: nat, len': nat)
    requires Walk(buf, j, maximum, ptr, len).Some?
    requires maximum <= maximum' && len' <= len
    ensures Walk(buf, j, maximum', ptr, len') == Walk(buf, j, maximum, ptr, len)
    decreases maximum, |buf| - Cursor(j, ptr)
  {
    var cur := Cursor(j, ptr);
    var read := ReadLabelType(buf, cur);
    var advanced := read.1;
    var j' := if ptr.None? then advanced else j;
    match read.0.value
    case Pointer(p) =>
      WalkMonotone(buf, j', p, p, Some(p), len, len');
    case Part(n) =>
      if n != 0 {
        var ptr' := if ptr.None? then None else Some(advanced);
        WalkMonotone(buf, j', maximum, maximum', ptr', len + n, len' + n);
      }
  }

  /** A name decodes from `i` when `Name::read` accepts it there. */
  predicate Decodes(buf: seq<u8>, i: nat) {
    Walk(buf, i, i, None, 0).Some?
  }

  /** The offsets of the length bytes of the labels of the name at `i`, in order. */
  function LabelsFrom(buf: seq<u8>, i: nat): (ps: seq<nat>)
    requires Decodes(buf, i)
  {
    Walk(buf, i, i, None, 0).value.labels
  }

  /** What `Name::read` guarantees about the labels of a name it accepts:
      each lies inside the buffer with a length of 1 to 63, and the lengths
      add up to at most 255. */
  lemma LabelsFromBounds(buf: seq<u8>, i: nat)
    requires Decodes(buf, i)
    ensures var ps := LabelsFrom(buf, i);
      && (forall k :: 0 <= k < |ps| ==> ps[k] < |buf| && ps[k] + 1 + LenBits(buf[ps[k]]) < |buf| && LenBits(buf[ps[k]]) >= 1)
      && SumLen(buf, ps) <= 255
  {
    WalkLabels(buf, i, i, None, 0);
  }

  /** One step of the label iterator from a cursor where a name decodes: a
      pointer leads strictly backwards to an offset with the same labels, a
      zero length ends the name, and any other length is the first label,
      followed by the labels that decode right after it. */
  lemma StepLabels(buf: seq<u8>, c: nat)
    requires Decodes(buf, c)
    ensures ReadLabelType(buf, c).0.Some?
    ensures var read := ReadLabelType(buf, c);
      match read.0.value
      case Pointer(p) => p < c && Decodes(buf, p) && LabelsFrom(buf, p) == LabelsFrom(buf, c)
      case Part(n) =>
        if n == 0 then LabelsFrom(buf, c) == []
        else Decodes(buf, read.1) && LabelsFrom(buf, c) == [c] + LabelsFrom(buf, read.1)
  {
    var read := ReadLabelType(buf, c);
    match read.0.value
    case Pointer(p) =>
      WalkFromPointer(buf, read.1, p, p, 0);
    case Part(n) =>
      if n != 0 {
        WalkMonotone(buf, read.1, c, read.1, None, n, 0);
      }
  }

  /** The cursor right after the first label of the name at `i`. */
  function AfterFirst(buf: seq<u8>, i: nat): nat
    requires Decodes(buf, i) && LabelsFrom(buf, i) != []
  {
    LabelsFromBounds(buf, i);
    var c := LabelsFrom(buf, i)[0];
    c + 1 + LenBits(buf[c])
  }

  /** The rest of a name, read from just after its first label, consists of
      the remaining labels; and the name read from its first label's own
      offset has exactly the same labels. */
  lemma {:induction false} FirstLabelStep(buf: seq<u8>, i: nat)
    requires Decodes(buf, i) && LabelsFrom(buf, i) != []
    ensures Decodes(buf, AfterFirst(buf, i)) && LabelsFrom(buf, AfterFirst(buf, i)) == LabelsFrom(buf, i)[1..]
    ensures Decodes(buf, LabelsFrom(buf, i)[0]) && LabelsFrom(buf, LabelsFrom(buf, i)[0]) == LabelsFrom(buf, i)
    decreases i
  {
    StepLabels(buf, i);
    var read := ReadLabelType(buf, i);
    match read.0.value
    case Pointer(p) =>
      FirstLabelStep(buf, p);
    case Part(n) =>
  }

  /** Every label of `ps` can be sliced as `Label::as_bytes` does, with the
      raw length byte (for names whose length bytes all start with 00 this
      is the decoded length). */
  predicate RawInBounds(buf: seq<u8>, ps: seq<nat>) {
    forall k :: 0 <= k < |ps| ==> ps[k] < |buf| && ps[k] + 1 + buf[ps[k]] <= |buf|
  }

  /** The `k`-th label of a readable name is non-empty and is the `k`-th entry of its contents. */
  lemma LabelAt(buf: seq<u8>, start: nat, k: nat)
    requires Readable(buf, start) && k < |LabelsFrom(buf, start)|
    ensures var ps := LabelsFrom(buf, start);
      && ps[k] < |buf| && ps[k] + 1 + buf[ps[k]] <= |buf|
      && Label(buf, ps[k]).AsBytes() == Contents(buf, ps)[k]
      && |Contents(buf, ps)[k]| > 0
  {
    var ps := LabelsFrom(buf, start);
    LabelsFromBounds(buf, start);
    assert ps[k] < |buf| && LenBits(buf[ps[k]]) >= 1;
  }

  /** A name that decodes at `i` and whose labels can all be sliced. */
  predicate Readable(buf: seq<u8>, i: nat) {
    Decodes(buf, i) && RawInBounds(buf, LabelsFrom(buf, i))
  }

  /** A label the iterator hands out: the buffer and the offset of its length byte. */
  datatype Label = Label(buf: seq<u8>, bufI: nat)
  {
    /** `Label::len`: the length byte itself, unmasked. */
    function Len(): u8
      requires bufI < |buf|
    {
      buf[bufI]
    }

    /** `Label::as_bytes`: the `Len()` bytes after the length byte. */
    function AsBytes(): (r: seq<u8>)
      requires bufI < |buf| && bufI + 1 + Len() <= |buf|
      ensures |r| == Len()
    {
      buf[bufI + 1..bufI + 1 + Len()]
    }
  }

  /** The bytes of the labels at `ps`. */
  function Contents(buf: seq<u8>, ps: seq<nat>): (r: seq<seq<u8>>)
    requires RawInBounds(buf, ps)
    ensures |r| == |ps|
    ensures forall k :: 0 <= k < |ps| ==> r[k] == Label(buf, ps[k]).AsBytes()
  {
    if ps == [] then [] else [Label(buf, ps[0]).AsBytes()] + Contents(buf, ps[1..])
  }

  /** Two label sequences match when they have as many labels and each pair
      is equal ignoring ASCII case. */
  predicate EqualLabels(xs: seq<seq<u8>>, ys: seq<seq<u8>>) {
    |xs| == |ys| && forall k :: 0 <= k < |xs| ==> EqIgnoreAsciiCase(xs[k], ys[k])
  }

  /** Matching label sequences, one label at a time. */
  lemma EqualLabelsCons(xs: seq<seq<u8>>, ys: seq<seq<u8>>)
    requires xs != [] && ys != []
    ensures EqualLabels(xs, ys) <==> EqIgnoreAsciiCase(xs[0], ys[0]) && EqualLabels(xs[1..], ys[1..])
  {
    if EqIgnoreAsciiCase(xs[0], ys[0]) && EqualLabels(xs[1..], ys[1..]) {
      forall k | 0 <= k < |xs| ensures EqIgnoreAsciiCase(xs[k], ys[k]) {
        if k > 0 {
          assert xs[k] == xs[1..][k - 1] && ys[k] == ys[1..][k - 1];
        }
      }
    }
  }

  /** The labels of a name, as `Labels::next` hands them out, with pointers
      followed. It follows pointers without any guard, so it is used here
      only from cursors where a name decodes; then it ends. */
  class Labels {
    const buf: seq<u8>
    var bufI: nat

    /** A name decodes at the cursor. */
    predicate Valid()
      reads this
    {
      Decodes(buf, bufI)
    }

    /** The offsets of the labels still to come. */
    function Remaining(): seq<nat>
      reads this
      requires Valid()
    {
      LabelsFrom(buf, bufI)
    }

    constructor (buf: seq<u8>, bufI: nat)
      ensures this.buf == buf && this.bufI == bufI
    {
      this.buf := buf;
      this.bufI := bufI;
    }

    /** `Labels::next`: follows pointers until a length byte; a zero length
        ends the iteration, any other yields the label there and leaves the
        cursor just past its bytes. */
    method Next() returns (l: Option<Label>)
      requires Valid()
      modifies this
      ensures l.None? <==> old(Remaining()) == []
      ensures l.Some? ==> && l.value == Label(buf, old(Remaining())[0])
                          && bufI == AfterFirst(buf, old(bufI))
                          && Valid() && Remaining() == old(Remaining())[1..]
    {
      ghost var start := bufI;
      ghost var rem := Remaining();
      while true
        invariant Decodes(buf, bufI) && LabelsFrom(buf, bufI) == rem
        invariant rem != [] ==> AfterFirst(buf, bufI) == AfterFirst(buf, start)
        decreases bufI
      {
        StepLabels(buf, bufI);
        var read := ReadLabelType(buf, bufI);
        match read.0.value {
          case Pointer(p) =>
            bufI := p;
          case Part(n) =>
            bufI := read.1;
            if n == 0 {
              return None;
            }
            FirstLabelStep(buf, bufI - n - 1);
            return Some(Label(buf, bufI - n - 1));
        }
      }
    }
  }

  /** The first `e` such that the labels from `xs[e]` on match `ys`; the
      empty tail is never tried. */
  function FirstMatch(xs: seq<seq<u8>>, ys: seq<seq<u8>>): (r: Option<nat>)
    ensures r.Some? ==> r.value < |xs|
  {
    if xs == [] then None
    else if EqualLabels(xs, ys) then Some(0)
    else
      var rest := FirstMatch(xs[1..], ys);
      if rest.None? then None else Some(rest.value + 1)
  }

  /** `FirstMatch` finds a suffix that matches, and no earlier suffix
      matches; when it finds none, no non-empty suffix matches. */
  lemma {:induction false} FirstMatchIsFirst(xs: seq<seq<u8>>, ys: seq<seq<u8>>)
    ensures var r := FirstMatch(xs, ys);
      && (r.Some? ==> EqualLabels(xs[r.value..], ys))
      && (r.Some? ==> forall d :: 0 <= d < r.value ==> !EqualLabels(xs[d..], ys))
      && (r.None? ==> forall d :: 0 <= d < |xs| ==> !EqualLabels(xs[d..], ys))
    decreases |xs|
  {
    if xs != [] && !EqualLabels(xs, ys) {
      var t := xs[1..];
      FirstMatchIsFirst(t, ys);
      var rest := FirstMatch(t, ys);
      if rest.None? {
        assert forall d :: 1 <= d < |xs| ==> xs[d..] == t[d - 1..];
      } else {
        assert xs[rest.value + 1..] == t[rest.value..];
        assert forall d :: 1 <= d <= rest.value ==> xs[d..] == t[d - 1..];
      }
    } else if xs != [] {
      assert xs[0..] == xs;
    }
  }

  /** The search `create_pointer` performs, by label boundaries: the cursor
      `i` itself when a label follows and the name from there equals `sub`,
      otherwise the search from just after that first label. */
  function PointerSearch(buf: seq<u8>, i: nat, sub: Name): (r: Option<nat>)
    requires Readable(buf, i) && Readable(sub.buf, sub.start)
    ensures r.Some? ==> r.value < |buf|
    decreases |LabelsFrom(buf, i)|
  {
    StepLabels(buf, i);
    var ps := LabelsFrom(buf, i);
    if ps == [] then None
    else if EqualLabels(Contents(buf, ps), sub.LabelContents()) then Some(i)
    else
      FirstLabelStep(buf, i);
      PointerSearch(buf, AfterFirst(buf, i), sub)
  }

  /** `create_pointer` finds the first suffix of the name, as a list of
      labels, that equals `sub` ignoring case: it returns `None` exactly when
      no non-empty suffix matches, and otherwise a label boundary inside the
      buffer from which precisely that suffix decodes. */
  lemma {:induction false} PointerSearchFindsFirstSuffix(buf: seq<u8>, i: nat, sub: Name)
    requires Readable(buf, i) && Readable(sub.buf, sub.start)
    ensures var f := FirstMatch(Contents(buf, LabelsFrom(buf, i)), sub.LabelContents());
      var t := PointerSearch(buf, i, sub);
      && (t.None? <==> f.None?)
      && (t.Some? ==> Readable(buf, t.value) && LabelsFrom(buf, t.value) == LabelsFrom(buf, i)[f.value..])
    decreases |LabelsFrom(buf, i)|
  {
    var ps := LabelsFrom(buf, i);
    var ys := sub.LabelContents();
    if ps != [] {
      var xs := Contents(buf, ps);
      if EqualLabels(xs, ys) {
        assert ps[0..] == ps;
      } else {
        PointerSearchStep(buf, i, sub);
        var i' := AfterFirst(buf, i);
        PointerSearchFindsFirstSuffix(buf, i', sub);
        ContentsTail(buf, ps);
        FirstMatchStep(xs, ys);
        var f' := FirstMatch(xs[1..], ys);
        if f'.Some? {
          var e := f'.value;
          assert ps[1..][e..] == ps[e + 1..];
        }
      }
    }
  }

  /** Past a first label that does not match, the first match is one
      further along than in the tail. */
  lemma FirstMatchStep(xs: seq<seq<u8>>, ys: seq<seq<u8>>)
    requires xs != [] && !EqualLabels(xs, ys)
    ensures var f := FirstMatch(xs[1..], ys);
      FirstMatch(xs, ys) == if f.None? then None else Some(f.value + 1)
  {
  }

  /** The offset `create_pointer` finds starts a name whose labels equal
      those of `sub`, ignoring ASCII case. */
  lemma PointerSearchMatches(buf: seq<u8>, i: nat, sub: Name)
    requires Readable(buf, i) && Readable(sub.buf, sub.start)
    ensures var t := PointerSearch(buf, i, sub);
      t.Some? ==> Readable(buf, t.value) && EqualLabels(Contents(buf, LabelsFrom(buf, t.value)), sub.LabelContents())
  {
    PointerSearchFindsFirstSuffix(buf, i, sub);
    var t := PointerSearch(buf, i, sub);
    if t.Some? {
      var ps := LabelsFrom(buf, i);
      FirstMatchIsFirst(Contents(buf, ps), sub.LabelContents());
      var f := FirstMatch(Contents(buf, ps), sub.LabelContents()).value;
      assert Contents(buf, ps[f..]) == Contents(buf, ps)[f..];
    }
  }

  /** When the name at `i` has a first label and does not match, the search
      carries on from just after that label, where the other labels decode. */
  lemma PointerSearchStep(buf: seq<u8>, i: nat, sub: Name)
    requires Readable(buf, i) && Readable(sub.buf, sub.start)
    requires LabelsFrom(buf, i) != [] && !EqualLabels(Contents(buf, LabelsFrom(buf, i)), sub.LabelContents())
    ensures Readable(buf, AfterFirst(buf, i)) && LabelsFrom(buf, AfterFirst(buf, i)) == LabelsFrom(buf, i)[1..]
    ensures PointerSearch(buf, i, sub) == PointerSearch(buf, AfterFirst(buf, i), sub)
  {
    FirstLabelStep(buf, i);
  }

  /** One more label in front: in bounds, and its bytes come first. */
  lemma ContentsCons(buf: seq<u8>, p: nat, ps: seq<nat>)
    requires RawInBounds(buf, ps) && p < |buf| && p + 1 + buf[p] <= |buf|
    ensures RawInBounds(buf, [p] + ps)
    ensures Contents(buf, [p] + ps) == [Label(buf, p).AsBytes()] + Contents(buf, ps)
  {
    var qs := [p] + ps;
    assert qs[1..] == ps;
    assert forall k :: 1 <= k < |qs| ==> qs[k] == ps[k - 1];
  }

  /** The contents of all but the first label are the tail of the contents. */
  lemma ContentsTail(buf: seq<u8>, ps: seq<nat>)
    requires RawInBounds(buf, ps) && ps != []
    ensures Contents(buf, ps[1..]) == Contents(buf, ps)[1..]
  {
  }

  /** The separator byte '.'. */
  const DOT: u8 := 46

  /** The labels joined by single dots: what `Name::fmt` prints and what
      `Name == str` compares against. */
  function Dotted(xs: seq<seq<u8>>): seq<u8> {
    if xs == [] then []
    else if |xs| == 1 then xs[0]
    else Dotted(xs[..|xs| - 1]) + [DOT] + xs[|xs| - 1]
  }

  /** Joining one more label appends a dot (unless it is the first) and the label. */
  lemma DottedStep(xs: seq<seq<u8>>, k: nat)
    requires k < |xs|
    ensures Dotted(xs[..k + 1]) == Dotted(xs[..k]) + (if k == 0 then [] else [DOT]) + xs[k]
  {
    assert xs[..k + 1][..k] == xs[..k];
  }

  /** The join of the first `k` labels is a prefix of the join of all of them. */
  lemma {:induction false} DottedPrefix(xs: seq<seq<u8>>, k: nat)
    requires k <= |xs|
    ensures Dotted(xs[..k]) <= Dotted(xs)
    decreases |xs|
  {
    if k < |xs| {
      var init := xs[..|xs| - 1];
      DottedPrefix(init, k);
      assert init[..k] == xs[..k];
      assert xs[..|xs|] == xs;
    } else {
      assert xs[..k] == xs;
    }
  }

  /** A string that matches the join of all labels matches the join of the
      first `k` of them on a prefix. */
  lemma DottedPrefixMatch(xs: seq<seq<u8>>, k: nat, other: seq<u8>)
    requires k <= |xs|
    ensures EqIgnoreAsciiCase(Dotted(xs), other) ==>
      var d := Dotted(xs[..k]);
      |d| <= |other| && EqIgnoreAsciiCase(d, other[..|d|])
  {
    DottedPrefix(xs, k);
  }

  /** Where the `k`-th label sits in a string matching the join: a dot right
      after the first `k` labels (unless `k` is 0), then the label itself. */
  lemma DottedParts(xs: seq<seq<u8>>, k: nat, other: seq<u8>)
    requires k < |xs|
    ensures EqIgnoreAsciiCase(Dotted(xs), other) ==>
      var p := |Dotted(xs[..k])|;
      var q := if k == 0 then p else p + 1;
      && q + |xs[k]| <= |other|
      && (k != 0 ==> other[p] == DOT)
      && EqIgnoreAsciiCase(xs[k], other[q..q + |xs[k]|])
  {
    if EqIgnoreAsciiCase(Dotted(xs), other) {
      DottedStep(xs, k);
      DottedPrefixMatch(xs, k + 1, other);
      var a := Dotted(xs[..k]);
      var sep: seq<u8> := if k == 0 then [] else [DOT];
      MatchPartsBack(a, sep, xs[k], other);
      if k != 0 {
        assert AsciiLower(sep[0]) == AsciiLower(other[|a|]);
      }
    }
  }

  /** A string that matches `a + sep + b` ignoring case has, after the
      first `|a|` bytes, bytes matching `sep` and then a match of `b`. */
  lemma MatchPartsBack(a: seq<u8>, sep: seq<u8>, b: seq<u8>, other: seq<u8>)
    requires |a| + |sep| + |b| <= |other|
    requires EqIgnoreAsciiCase(a + sep + b, other[..|a| + |sep| + |b|])
    ensures forall m :: 0 <= m < |sep| ==> AsciiLower(sep[m]) == AsciiLower(other[|a| + m])
    ensures EqIgnoreAsciiCase(b, other[|a| + |sep|..|a| + |sep| + |b|])
  {
    var d := a + sep + b;
    var q := |a| + |sep|;
    forall m | 0 <= m < |sep| ensures AsciiLower(sep[m]) == AsciiLower(other[|a| + m]) {
      assert d[|a| + m] == sep[m] && other[..|d|][|a| + m] == other[|a| + m];
    }
    forall m | 0 <= m < |b| ensures AsciiLower(b[m]) == AsciiLower(other[q..q + |b|][m]) {
      assert d[q + m] == b[m] && other[..|d|][q + m] == other[q..q + |b|][m];
    }
  }

  /** A string that matches the first `k` labels, then has the dot (unless
      `k` is 0) and the `k`-th label, matches the first `k + 1` labels. */
  lemma DottedExtend(xs: seq<seq<u8>>, k: nat, other: seq<u8>)
    requires k < |xs|
    requires var p := |Dotted(xs[..k])|;
      var q := if k == 0 then p else p + 1;
      && q + |xs[k]| <= |other|
      && EqIgnoreAsciiCase(Dotted(xs[..k]), other[..p])
      && (k != 0 ==> other[p] == DOT)
      && EqIgnoreAsciiCase(xs[k], other[q..q + |xs[k]|])
    ensures var d := Dotted(xs[..k + 1]);
      |d| <= |other| && EqIgnoreAsciiCase(d, other[..|d|])
  {
    DottedStep(xs, k);
    var a := Dotted(xs[..k]);
    var sep: seq<u8> := if k == 0 then [] else [DOT];
    var p := |a|;
    assert other[p..p + |sep|] == sep;
    MatchThreeParts(a, sep, xs[k], other);
  }

  /** A string matches `a + sep + b` ignoring case when it starts with a
      match of `a`, then `sep` exactly, then a match of `b`. */
  lemma MatchThreeParts(a: seq<u8>, sep: seq<u8>, b: seq<u8>, other: seq<u8>)
    requires |a| + |sep| + |b| <= |other|
    requires EqIgnoreAsciiCase(a, other[..|a|])
    requires other[|a|..|a| + |sep|] == sep
    requires EqIgnoreAsciiCase(b, other[|a| + |sep|..|a| + |sep| + |b|])
    ensures EqIgnoreAsciiCase(a + sep + b, other[..|a| + |sep| + |b|])
  {
    var d := a + sep + b;
    var q := |a| + |sep|;
    forall m | 0 <= m < |d| ensures AsciiLower(d[m]) == AsciiLower(other[..|d|][m]) {
      if m < |a| {
        assert d[m] == a[m] && other[..|d|][m] == other[..|a|][m];
      } else if m < q {
        assert d[m] == sep[m - |a|] == other[m];
      } else {
        assert d[m] == b[m - q] && other[..|d|][m] == other[q..q + |b|][m - q];
      }
    }
  }

  /** One label of `Name == str`, with `p` the length of the join of the
      first `k` labels and `q` where the `k`-th label starts after the dot:
      if the string carries the dot and that label there, it matches the
      first `k + 1` labels; otherwise it cannot match the whole join. */
  lemma DottedMatchStep(xs: seq<seq<u8>>, k: nat, other: seq<u8>, p: nat, q: nat)
    requires k < |xs| && p == |Dotted(xs[..k])| && q == (if k == 0 then p else p + 1)
    requires p <= |other| && EqIgnoreAsciiCase(Dotted(xs[..k]), other[..p])
    ensures q + |xs[k]| <= |other| && (k != 0 ==> other[p] == DOT) && EqIgnoreAsciiCase(xs[k], other[q..q + |xs[k]|]) ==>
      |Dotted(xs[..k + 1])| == q + |xs[k]| && EqIgnoreAsciiCase(Dotted(xs[..k + 1]), other[..q + |xs[k]|])
    ensures !(q + |xs[k]| <= |other| && (k != 0 ==> other[p] == DOT) && EqIgnoreAsciiCase(xs[k], other[q..q + |xs[k]|])) ==>
      !EqIgnoreAsciiCase(Dotted(xs), other)
  {
    DottedParts(xs, k, other);
    DottedStep(xs, k);
    if q + |xs[k]| <= |other| && (k != 0 ==> other[p] == DOT) && EqIgnoreAsciiCase(xs[k], other[q..q + |xs[k]|]) {
      DottedExtend(xs, k, other);
    }
  }

  /** The body of `Name == str` for one label at `otherI` of `other`: a '.'
      first unless nothing was matched yet, then the label's bytes ignoring
      ASCII case; the offset after them, or `None` on a mismatch. */
  function MatchLabel(other: seq<u8>, otherI: nat, bytes: seq<u8>): (r: Option<nat>)
    ensures var q := if otherI == 0 then otherI else otherI + 1;
      && (r.Some? <==> q + |bytes| <= |other| && (otherI != 0 ==> other[otherI] == DOT)
                       && EqIgnoreAsciiCase(bytes, other[q..q + |bytes|]))
      && (r.Some? ==> r.value == q + |bytes|)
  {
    if otherI != 0 && !(otherI < |other| && other[otherI] == DOT) then None
    else
      var q := if otherI == 0 then otherI else otherI + 1;
      if q + |bytes| <= |other| && EqIgnoreAsciiCase(bytes, other[q..q + |bytes|]) then Some(q + |bytes|)
      else None
  }

  /** The first `k` labels joined with dots match the first `n` bytes of
      `other`, ignoring ASCII case (`n` is 0 only before the first label). */
  ghost predicate MatchedPrefix(xs: seq<seq<u8>>, k: nat, other: seq<u8>, n: nat) {
    && k <= |xs| && n == |Dotted(xs[..k])| <= |other| && (n == 0 <==> k == 0)
    && EqIgnoreAsciiCase(Dotted(xs[..k]), other[..n])
  }

  /** One label of `Name == str`: a mismatch rules out the whole join, a
      match extends the matched prefix by that label. */
  lemma MatchLabelStep(xs: seq<seq<u8>>, k: nat, k1: nat, other: seq<u8>, otherI: nat)
    requires k < |xs| && |xs[k]| > 0 && k1 == k + 1
    requires MatchedPrefix(xs, k, other, otherI)
    ensures MatchLabel(other, otherI, xs[k]).None? ==> !EqIgnoreAsciiCase(Dotted(xs), other)
    ensures MatchLabel(other, otherI, xs[k]).Some? ==> MatchedPrefix(xs, k1, other, MatchLabel(other, otherI, xs[k]).value)
  {
    var q := if k == 0 then otherI else otherI + 1;
    DottedMatchStep(xs, k, other, otherI, q);
    var m := MatchLabel(other, otherI, xs[k]);
    if m.Some? {
      assert m.value == q + |xs[k]| && m.value != 0;
    }
  }

  /** The step of `Name == str` on the `k`-th label the iterator hands
      out, stated on the label itself. */
  lemma NextLabelMatch(buf: seq<u8>, start: nat, k: nat, k1: nat, part: Label, other: seq<u8>, otherI: nat)
    requires Readable(buf, start) && k < |LabelsFrom(buf, start)| && k1 == k + 1
    requires part == Label(buf, LabelsFrom(buf, start)[k])
    requires MatchedPrefix(Contents(buf, LabelsFrom(buf, start)), k, other, otherI)
    ensures part.bufI < |part.buf| && part.bufI + 1 + part.Len() <= |part.buf|
    ensures var all := Contents(buf, LabelsFrom(buf, start));
      && (MatchLabel(other, otherI, part.AsBytes()).None? ==> !EqIgnoreAsciiCase(Dotted(all), other))
      && (MatchLabel(other, otherI, part.AsBytes()).Some? ==>
            MatchedPrefix(all, k1, other, MatchLabel(other, otherI, part.AsBytes()).value))
  {
    LabelAt(buf, start, k);
    MatchLabelStep(Contents(buf, LabelsFrom(buf, start)), k, k1, other, otherI);
  }

  /** Once every label is matched, the string equals the join exactly when
      nothing of it is left over. */
  lemma MatchedAll(xs: seq<seq<u8>>, k: nat, other: seq<u8>, n: nat)
    requires k == |xs| && MatchedPrefix(xs, k, other, n)
    ensures n == |other| <==> EqIgnoreAsciiCase(Dotted(xs), other)
  {
    assert xs[..k] == xs;
    if n == |other| {
      assert other[..n] == other;
    }
  }

  /** Labels that can be written as plain length-prefixed labels: 1 to 63 bytes each. */
  predicate PlainLabels(ls: seq<seq<u8>>) {
    forall k :: 0 <= k < |ls| ==> 0 < |ls[k]| < 64
  }

  /** Labels whose lengths fit in a length byte. */
  predicate ByteSized(ls: seq<seq<u8>>) {
    forall k :: 0 <= k < |ls| ==> |ls[k]| < 0x100
  }

  /** Each label as its length byte followed by its bytes. */
  function EncodeLabels(ls: seq<seq<u8>>): (r: seq<u8>)
    requires ByteSized(ls)
  {
    if ls == [] then [] else [|ls[0]| as u8] + ls[0] + EncodeLabels(ls[1..])
  }

  /** Writing out two runs of labels is writing out their concatenation. */
  lemma {:induction false} EncodeLabelsAppend(xs: seq<seq<u8>>, ys: seq<seq<u8>>)
    requires ByteSized(xs) && ByteSized(ys)
    ensures ByteSized(xs + ys) && EncodeLabels(xs + ys) == EncodeLabels(xs) + EncodeLabels(ys)
    decreases xs
  {
    if xs == [] {
      assert xs + ys == ys;
    } else {
      var t := xs[1..];
      ByteSizedParts(xs, ys);
      assert (xs + ys)[0] == xs[0] && (xs + ys)[1..] == t + ys;
      EncodeLabelsAppend(t, ys);
    }
  }

  /** Byte-sized labels stay byte-sized when the first is dropped or more are appended. */
  lemma ByteSizedParts(xs: seq<seq<u8>>, ys: seq<seq<u8>>)
    requires ByteSized(xs) && ByteSized(ys) && xs != []
    ensures ByteSized(xs[1..]) && ByteSized(xs + ys) && ByteSized(xs[1..] + ys)
  {
    assert forall k :: 0 <= k < |xs[1..]| ==> xs[1..][k] == xs[k + 1];
    assert forall k :: 0 <= k < |xs + ys| ==> (xs + ys)[k] == if k < |xs| then xs[k] else ys[k - |xs|];
    assert forall k :: 0 <= k < |xs[1..] + ys| ==> (xs[1..] + ys)[k] == (xs + ys)[k + 1];
  }

  /** A name written out without pointers: its labels, then the zero length. */
  function Encode(ls: seq<seq<u8>>): (r: seq<u8>)
    requires ByteSized(ls)
  {
    EncodeLabels(ls) + [0]
  }

  /** The summed length of the labels. */
  function TotalLen(ls: seq<seq<u8>>): nat {
    if ls == [] then 0 else |ls[0]| + TotalLen(ls[1..])
  }

  /** Where the length bytes of `Encode(ls)` sit when it is written at `off`. */
  function Offsets(ls: seq<seq<u8>>, off: nat): (r: seq<nat>)
    ensures |r| == |ls|
  {
    if ls == [] then [] else [off] + Offsets(ls[1..], off + 1 + |ls[0]|)
  }

  /** A non-empty name written out is its first label, length first, then the rest. */
  lemma EncodeCons(ls: seq<seq<u8>>)
    requires ByteSized(ls) && ls != []
    ensures Encode(ls) == [|ls[0]| as u8] + ls[0] + Encode(ls[1..])
  {
  }

  /** Where `x + y` sits in a buffer, `y` sits right after `x`. */
  lemma SliceSuffix(buf: seq<u8>, off: nat, x: seq<u8>, y: seq<u8>)
    requires off + |x + y| <= |buf| && buf[off..off + |x + y|] == x + y
    ensures buf[off + |x|..off + |x| + |y|] == y
  {
    assert buf[off + |x|..off + |x| + |y|] == buf[off..off + |x + y|][|x|..];
  }

  /** The first label sits at `off`, the others right after it. */
  lemma OffsetsCons(ls: seq<seq<u8>>, off: nat, t: seq<seq<u8>>, off': nat)
    requires ls != [] && t == ls[1..] && off' == off + 1 + |ls[0]|
    ensures Offsets(ls, off) == [off] + Offsets(t, off')
  {
  }

  /** Where `e` sits in a buffer at `off`, each slice of `e` sits at the matching offsets. */
  lemma SliceWithin(buf: seq<u8>, off: nat, e: seq<u8>, a: nat, b: nat)
    requires off + |e| <= |buf| && buf[off..off + |e|] == e && a <= b <= |e|
    ensures buf[off + a..off + b] == e[a..b]
  {
    forall k | 0 <= k < b - a
      ensures buf[off + a..off + b][k] == e[a..b][k]
    {
      assert buf[off + a + k] == buf[off..off + |e|][a + k];
    }
  }

  /** What sits at `off` when a name is written out there without pointers:
      the zero length for the empty name, otherwise the first label, length first. */
  lemma LiteralHead(buf: seq<u8>, off: nat, ls: seq<seq<u8>>)
    requires PlainLabels(ls)
    requires off + |Encode(ls)| <= |buf| && buf[off..off + |Encode(ls)|] == Encode(ls)
    ensures ls == [] ==> ReadLabelType(buf, off) == (Some(Part(0)), off + 1)
    ensures ls != [] ==>
      var n := |ls[0]|;
      && off + 1 + n <= |buf| && buf[off] == n && buf[off + 1..off + 1 + n] == ls[0]
      && ReadLabelType(buf, off) == (Some(Part(n)), off + 1 + n)
  {
    var e := Encode(ls);
    assert buf[off] == buf[off..off + |e|][0] == e[0];
    if ls == [] {
      assert e == [0];
    } else {
      var n := |ls[0]|;
      EncodeHead(ls);
      SliceWithin(buf, off, e, 1, 1 + n);
      assert buf[off] == n && LenBits(buf[off]) == n;
    }
  }

  /** Plain labels written out start with the first label, length first. */
  lemma EncodeHead(ls: seq<seq<u8>>)
    requires PlainLabels(ls) && ls != []
    ensures ByteSized(ls) && 1 + |ls[0]| < |Encode(ls)|
    ensures Encode(ls)[0] == |ls[0]| < 64 && Encode(ls)[1..1 + |ls[0]|] == ls[0]
  {
    PlainTail(ls);
    EncodeCons(ls);
  }

  /** The first label of a name written out without pointers, as the
      label iterator slices it. */
  lemma LiteralFirstLabel(buf: seq<u8>, off: nat, ls: seq<seq<u8>>)
    requires PlainLabels(ls) && ls != []
    requires off + |Encode(ls)| <= |buf| && buf[off..off + |Encode(ls)|] == Encode(ls)
    ensures off < |buf| && off + 1 + buf[off] <= |buf| && Label(buf, off).AsBytes() == ls[0]
  {
    LiteralHead(buf, off, ls);
  }

  /** Right after the first label of a name written out without pointers
      comes the rest of it, written out the same way. */
  lemma LiteralTail(buf: seq<u8>, off: nat, ls: seq<seq<u8>>)
    requires PlainLabels(ls) && ls != []
    requires off + |Encode(ls)| <= |buf| && buf[off..off + |Encode(ls)|] == Encode(ls)
    ensures PlainLabels(ls[1..]) && |Encode(ls)| == 1 + |ls[0]| + |Encode(ls[1..])|
    ensures var off' := off + 1 + |ls[0]|;
      off' + |Encode(ls[1..])| <= |buf| && buf[off'..off' + |Encode(ls[1..])|] == Encode(ls[1..])
  {
    var t := ls[1..];
    var h := [|ls[0]| as u8] + ls[0];
    PlainTail(ls);
    EncodeCons(ls);
    assert Encode(ls) == h + Encode(t);
    SliceSuffix(buf, off, h, Encode(t));
  }

  /** Dropping the first of some plain labels leaves plain labels. */
  lemma PlainTail(ls: seq<seq<u8>>)
    requires PlainLabels(ls) && ls != []
    ensures PlainLabels(ls[1..]) && ByteSized(ls) && ByteSized(ls[1..])
  {
    assert forall k :: 0 <= k < |ls[1..]| ==> ls[1..][k] == ls[k + 1];
  }

  /** One step of `Walk` before any pointer: a plain label of length `n`
      ends the name when `n` is zero, is refused past 255, and otherwise is
      recorded in front of the walk that continues after it. */
  lemma WalkPart(buf: seq<u8>, j: nat, maximum: nat, len: nat, n: u8, j': nat)
    requires ReadLabelType(buf, j) == (Some(Part(n)), j')
    ensures n == 0 ==> Walk(buf, j, maximum, None, len) == Some(NameTrace([], [], j'))
    ensures n > 0 && len + n > 255 ==> Walk(buf, j, maximum, None, len) == None
    ensures n > 0 && len + n <= 255 ==>
      var rest := Walk(buf, j', maximum, None, len + n);
      Walk(buf, j, maximum, None, len) == if rest.None? then None else Some(rest.value.(labels := [j] + rest.value.labels))
  {
  }

  /** Reading a name written out without pointers finds exactly its labels,
      at the offsets they were written to, and stops just past the zero; it
      fails exactly when the running length would pass 255. */
  lemma {:induction false} WalkLiteral(buf: seq<u8>, off: nat, ls: seq<seq<u8>>, maximum: nat, len: nat)
    requires len <= 255
    requires PlainLabels(ls) && off + |Encode(ls)| <= |buf| && buf[off..off + |Encode(ls)|] == Encode(ls)
    ensures len + TotalLen(ls) <= 255 ==>
      Walk(buf, off, maximum, None, len) == Some(NameTrace(Offsets(ls, off), [], off + |Encode(ls)|))
    ensures len + TotalLen(ls) > 255 ==> Walk(buf, off, maximum, None, len) == None
    decreases ls
  {
    LiteralHead(buf, off, ls);
    if ls == [] {
      WalkPart(buf, off, maximum, len, 0, off + 1);
    } else {
      var n := |ls[0]|;
      var off', len' := off + 1 + n, len + n;
      var t := ls[1..];
      LiteralTail(buf, off, ls);
      WalkPart(buf, off, maximum, len, n, off');
      assert TotalLen(ls) == n + TotalLen(t);
      if len' <= 255 {
        WalkLiteral(buf, off', t, maximum, len');
        OffsetsCons(ls, off, t, off');
      }
    }
  }

  /** A name written out without pointers at `off` is readable there, with
      its labels at `Offsets` and exactly the given label bytes. */
  lemma LiteralName(buf: seq<u8>, off: nat, ls: seq<seq<u8>>)
    requires PlainLabels(ls) && TotalLen(ls) <= 255
    requires off + |Encode(ls)| <= |buf| && buf[off..off + |Encode(ls)|] == Encode(ls)
    ensures Readable(buf, off) && LabelsFrom(buf, off) == Offsets(ls, off)
    ensures Contents(buf, Offsets(ls, off)) == ls
  {
    WalkLiteral(buf, off, ls, off, 0);
    LiteralContents(buf, off, ls);
  }

  /** The label bytes found at `Offsets` are the labels written there. */
  lemma {:induction false} LiteralContents(buf: seq<u8>, off: nat, ls: seq<seq<u8>>)
    requires PlainLabels(ls)
    requires off + |Encode(ls)| <= |buf| && buf[off..off + |Encode(ls)|] == Encode(ls)
    ensures RawInBounds(buf, Offsets(ls, off)) && Contents(buf, Offsets(ls, off)) == ls
    decreases ls
  {
    if ls != [] {
      var n := |ls[0]|;
      var off' := off + 1 + n;
      var t := ls[1..];
      LiteralFirstLabel(buf, off, ls);
      LiteralTail(buf, off, ls);
      LiteralContents(buf, off', t);
      OffsetsCons(ls, off, t, off');
      var ps, qs := Offsets(ls, off), Offsets(t, off');
      ContentsCons(buf, off, qs);
      assert Contents(buf, ps) == [ls[0]] + t == ls;
    }
  }

  /** A name written out as its labels (no pointers) is read back whole:
      it is readable, has those labels, and the cursor lands past its zero. */
  lemma NameWritten(buf: seq<u8>, off: nat, ls: seq<seq<u8>>)
    requires PlainLabels(ls) && TotalLen(ls) <= 255
    requires off + |Encode(ls)| <= |buf| && buf[off..off + |Encode(ls)|] == Encode(ls)
    ensures Readable(buf, off) && Name(buf, off).LabelContents() == ls
    ensures NameRead(buf, off) == (Some(Name(buf, off)), off + |Encode(ls)|)
  {
    LiteralName(buf, off, ls);
    WalkLiteral(buf, off, ls, off, 0);
  }

  /** `buf'` holds at least as many bytes as `buf`, and the same bytes at
      every offset from `lo` up to the end of `buf`: what a message looks
      like from `lo` on after bytes were inserted past the end of `buf`. */
  predicate AgreeFrom(buf: seq<u8>, buf': seq<u8>, lo: nat) {
    |buf| <= |buf'| && forall k :: lo <= k < |buf| ==> buf'[k] == buf[k]
  }

  /** Every offset in `ts` is at or above `lo`. */
  predicate AllAbove(ts: seq<nat>, lo: nat) {
    forall k :: 0 <= k < |ts| ==> lo <= ts[k]
  }

  /** Offsets at or above `lo`, with one more in front. */
  lemma AllAboveCons(t: nat, ts: seq<nat>, lo: nat)
    ensures AllAbove([t] + ts, lo) <==> lo <= t && AllAbove(ts, lo)
  {
    var us := [t] + ts;
    assert us[0] == t;
    assert forall k :: 0 <= k < |ts| ==> us[k + 1] == ts[k];
  }

  /** The name at `i` decodes, starts at or above `lo` and follows pointers
      only to offsets at or above `lo`: it reads nothing below `lo`. */
  predicate DecodesAbove(buf: seq<u8>, i: nat, lo: nat) {
    lo <= i && Decodes(buf, i) && AllAbove(Walk(buf, i, i, None, 0).value.targets, lo)
  }

  /** A label or pointer read at or above `lo` reads the same in a buffer
      that agrees from `lo` on. */
  lemma ReadAgrees(buf: seq<u8>, buf': seq<u8>, c: nat, lo: nat)
    requires AgreeFrom(buf, buf', lo) && lo <= c && ReadLabelType(buf, c).0.Some?
    ensures ReadLabelType(buf', c) == ReadLabelType(buf, c)
  {
    assert buf'[c] == buf[c];
    if IsPointerByte(buf[c]) {
      assert buf'[c + 1] == buf[c + 1];
    }
  }

  /** A walk whose cursor and pointer targets stay at or above `lo` is the
      same walk in a buffer that agrees from `lo` on, and every label it
      finds lies at or above `lo`. */
  lemma {:induction false} WalkAgrees(buf: seq<u8>, buf': seq<u8>, j: nat, maximum: nat, ptr: Option<nat>, len: nat, lo: nat)
    requires Walk(buf, j, maximum, ptr, len).Some? && lo <= Cursor(j, ptr)
    requires AllAbove(Walk(buf, j, maximum, ptr, len).value.targets, lo)
    requires AgreeFrom(buf, buf', lo)
    ensures Walk(buf', j, maximum, ptr, len) == Walk(buf, j, maximum, ptr, len)
    ensures AllAbove(Walk(buf, j, maximum, ptr, len).value.labels, lo)
    decreases maximum, |buf| - Cursor(j, ptr)
  {
    var w := Walk(buf, j, maximum, ptr, len).value;
    var cur := Cursor(j, ptr);
    var read := ReadLabelType(buf, cur);
    var advanced := read.1;
    var j' := if ptr.None? then advanced else j;
    ReadAgrees(buf, buf', cur, lo);
    match read.0.value
    case Pointer(p) =>
      WalkPointerStep(buf, j, maximum, ptr, len, p, j');
      WalkPointerStep(buf', j, maximum, ptr, len, p, j');
      AllAboveCons(p, Walk(buf, j', p, Some(p), len).value.targets, lo);
      WalkAgrees(buf, buf', j', p, Some(p), len, lo);
    case Part(n) =>
      if n != 0 {
        var ptr' := if ptr.None? then None else Some(advanced);
        var len' := len + n;
        WalkPartStep(buf, j, maximum, ptr, len, n, j', ptr', len');
        WalkPartStep(buf', j, maximum, ptr, len, n, j', ptr', len');
        WalkAgrees(buf, buf', j', maximum, ptr', len', lo);
        AllAboveCons(cur, Walk(buf, j', maximum, ptr', len').value.labels, lo);
      }
  }

  /** One step of `Walk` over a pointer to `p` below `maximum`, with the
      cursor `j'` it goes on from. */
  lemma WalkPointerStep(buf: seq<u8>, j: nat, maximum: nat, ptr: Option<nat>, len: nat, p: u16, j': nat)
    requires ReadLabelType(buf, Cursor(j, ptr)).0 == Some(Pointer(p)) && p < maximum
    requires j' == if ptr.None? then ReadLabelType(buf, Cursor(j, ptr)).1 else j
    ensures Walk(buf, j, maximum, ptr, len).Some? <==> Walk(buf, j', p, Some(p), len).Some?
    ensures Walk(buf, j', p, Some(p), len).Some? ==>
      Walk(buf, j, maximum, ptr, len).value == Walk(buf, j', p, Some(p), len).value.(targets := [p] + Walk(buf, j', p, Some(p), len).value.targets)
  {
  }

  /** One step of `Walk` over a label of length `n`, with the cursor `j'`,
      the pointer cursor `ptr'` and the running length `len'` it goes on
      with. */
  lemma WalkPartStep(buf: seq<u8>, j: nat, maximum: nat, ptr: Option<nat>, len: nat, n: u8, j': nat, ptr': Option<nat>, len': nat)
    requires ReadLabelType(buf, Cursor(j, ptr)).0 == Some(Part(n)) && n != 0 && len' == len + n <= 255
    requires j' == if ptr.None? then ReadLabelType(buf, Cursor(j, ptr)).1 else j
    requires ptr' == if ptr.None? then None else Some(ReadLabelType(buf, Cursor(j, ptr)).1)
    ensures Walk(buf, j, maximum, ptr, len).Some? <==> Walk(buf, j', maximum, ptr', len').Some?
    ensures Walk(buf, j', maximum, ptr', len').Some? ==>
      Walk(buf, j, maximum, ptr, len).value == Walk(buf, j', maximum, ptr', len').value.(labels := [Cursor(j, ptr)] + Walk(buf, j', maximum, ptr', len').value.labels)
  {
  }

  /** Labels at or above `lo` that can be sliced hold the same bytes in a
      buffer that agrees from `lo` on. */
  lemma ContentsAgree(buf: seq<u8>, buf': seq<u8>, ps: seq<nat>, lo: nat)
    requires RawInBounds(buf, ps) && AllAbove(ps, lo) && AgreeFrom(buf, buf', lo)
    ensures RawInBounds(buf', ps) && Contents(buf', ps) == Contents(buf, ps)
  {
    forall k | 0 <= k < |ps|
      ensures ps[k] < |buf'| && ps[k] + 1 + buf'[ps[k]] <= |buf'|
      ensures Label(buf', ps[k]).AsBytes() == Label(buf, ps[k]).AsBytes()
    {
      var p := ps[k];
      assert buf'[p] == buf[p];
      assert buf'[p + 1..p + 1 + buf[p]] == buf[p + 1..p + 1 + buf[p]];
    }
  }

  /** A name that reads nothing below `lo` reads the same in a buffer that
      agrees from `lo` on: the same walk, labels and cursor, the same label
      bytes, and it still reads nothing below `lo`. */
  lemma NameAgrees(buf: seq<u8>, buf': seq<u8>, i: nat, lo: nat)
    requires DecodesAbove(buf, i, lo) && AgreeFrom(buf, buf', lo)
    ensures DecodesAbove(buf', i, lo) && Walk(buf', i, i, None, 0) == Walk(buf, i, i, None, 0)
    ensures LabelsFrom(buf', i) == LabelsFrom(buf, i) && AllAbove(LabelsFrom(buf, i), lo)
    ensures NameRead(buf', i).1 == NameRead(buf, i).1
    ensures Readable(buf, i) ==> Readable(buf', i) && Name(buf', i).LabelContents() == Name(buf, i).LabelContents()
  {
    WalkAgrees(buf, buf', i, i, None, 0, lo);
    if Readable(buf, i) {
      ContentsAgree(buf, buf', LabelsFrom(buf, i), lo);
    }
  }

  /** The pointers the rest of a name follows, from just after its first
      label, are among the pointers the whole name follows. */
  lemma {:induction false} AfterFirstTargets(buf: seq<u8>, i: nat, lo: nat)
    requires DecodesAbove(buf, i, lo) && LabelsFrom(buf, i) != []
    ensures DecodesAbove(buf, AfterFirst(buf, i), lo)
    decreases i
  {
    StepLabels(buf, i);
    var read := ReadLabelType(buf, i);
    match read.0.value
    case Pointer(p) =>
      PointerAbove(buf, i, p, lo);
      AfterFirstTargets(buf, p, lo);
    case Part(n) =>
      PartAbove(buf, i, n, lo);
  }

  /** A name that reads nothing below `lo` and starts with a pointer to `p`:
      the name at `p` reads nothing below `lo` either, and has the same
      labels. */
  lemma PointerAbove(buf: seq<u8>, i: nat, p: u16, lo: nat)
    requires DecodesAbove(buf, i, lo) && ReadLabelType(buf, i).0 == Some(Pointer(p))
    ensures p < i && DecodesAbove(buf, p, lo) && LabelsFrom(buf, p) == LabelsFrom(buf, i)
  {
    StepLabels(buf, i);
    PointerTargets(buf, i, p);
    var ts, ts' := Walk(buf, i, i, None, 0).value.targets, Walk(buf, p, p, None, 0).value.targets;
    assert ts[0] == p;
    assert forall k :: 0 <= k < |ts'| ==> ts'[k] == ts[k + 1];
  }

  /** The pointers a name that starts with a pointer to `p` follows: `p`,
      then those of the name at `p`. */
  lemma PointerTargets(buf: seq<u8>, i: nat, p: u16)
    requires Decodes(buf, i) && ReadLabelType(buf, i).0 == Some(Pointer(p))
    ensures Decodes(buf, p)
    ensures Walk(buf, i, i, None, 0).value.targets == [p] + Walk(buf, p, p, None, 0).value.targets
  {
    StepLabels(buf, i);
    var after := ReadLabelType(buf, i).1;
    var rest := Walk(buf, after, p, Some(p), 0);
    assert Walk(buf, i, i, None, 0) == Some(rest.value.(targets := [p] + rest.value.targets));
    WalkFromPointer(buf, after, p, p, 0);
  }

  /** A name that reads nothing below `lo` and starts with a label of `n`
      bytes: the rest of it, read afresh after that label, reads nothing
      below `lo` either. */
  lemma PartAbove(buf: seq<u8>, i: nat, n: u8, lo: nat)
    requires DecodesAbove(buf, i, lo) && ReadLabelType(buf, i).0 == Some(Part(n)) && n != 0
    ensures DecodesAbove(buf, ReadLabelType(buf, i).1, lo)
  {
    var after := ReadLabelType(buf, i).1;
    var rest := Walk(buf, after, i, None, n);
    assert Walk(buf, i, i, None, 0) == Some(rest.value.(labels := [i] + rest.value.labels));
    WalkMonotone(buf, after, i, after, None, n, 0);
  }

  /** `create_pointer` finds the same target in a buffer that agrees from
      `lo` on, when the name it walks reads nothing below `lo`. */
  lemma {:induction false} PointerSearchAgrees(buf: seq<u8>, buf': seq<u8>, i: nat, sub: Name, lo: nat)
    requires Readable(buf, i) && DecodesAbove(buf, i, lo) && AgreeFrom(buf, buf', lo) && Readable(sub.buf, sub.start)
    ensures Readable(buf', i) && PointerSearch(buf', i, sub) == PointerSearch(buf, i, sub)
    decreases |LabelsFrom(buf, i)|
  {
    NameAgrees(buf, buf', i, lo);
    var ps := LabelsFrom(buf, i);
    if ps != [] && !EqualLabels(Contents(buf, ps), sub.LabelContents()) {
      PointerSearchStep(buf, i, sub);
      PointerSearchStep(buf', i, sub);
      assert buf'[ps[0]] == buf[ps[0]];
      assert AfterFirst(buf', i) == AfterFirst(buf, i);
      AfterFirstTargets(buf, i, lo);
      PointerSearchAgrees(buf, buf', AfterFirst(buf, i), sub, lo);
    }
  }

  /** The target `create_pointer` finds in a name that reads nothing
      below `lo` reads nothing below `lo` either. */
  lemma {:induction false} PointerSearchAbove(buf: seq<u8>, i: nat, sub: Name, lo: nat)
    requires Readable(buf, i) && DecodesAbove(buf, i, lo) && Readable(sub.buf, sub.start)
    ensures PointerSearch(buf, i, sub).Some? ==> DecodesAbove(buf, PointerSearch(buf, i, sub).value, lo)
    decreases |LabelsFrom(buf, i)|
  {
    var ps := LabelsFrom(buf, i);
    if ps != [] && !EqualLabels(Contents(buf, ps), sub.LabelContents()) {
      PointerSearchStep(buf, i, sub);
      AfterFirstTargets(buf, i, lo);
      PointerSearchAbove(buf, AfterFirst(buf, i), sub, lo);
    }
  }

  /** A pointer written at `off` to an earlier offset `t` where a name
      decodes reads as that name: the same labels, the pointer to `t`
      followed by the pointers of the name at `t`, and the cursor just past
      the two pointer bytes. */
  lemma ReadPointerName(buf: seq<u8>, off: nat, t: nat, after: nat)
    requires t < off && t < 0x4000 && after == off + 2 && after <= |buf| && buf[off..after] == PointerBytes(t)
    requires Decodes(buf, t)
    ensures Decodes(buf, off) && LabelsFrom(buf, off) == LabelsFrom(buf, t)
    ensures Walk(buf, off, off, None, 0).value.targets == [t] + Walk(buf, t, t, None, 0).value.targets
    ensures NameRead(buf, off) == (Some(Name(buf, off)), after)
  {
    ReadPointerBytes(buf, off, t, after);
    PointerStep(buf, off, t, after);
  }

  /** A pointer at `off` to a name that decodes below it, read up to the
      cursor `after`: the walk from `off` follows it and stops there. */
  lemma PointerStep(buf: seq<u8>, off: nat, t: nat, after: nat)
    requires t < off && t < 0x4000 && ReadLabelType(buf, off) == (Some(Pointer(t)), after)
    requires Decodes(buf, t)
    ensures Decodes(buf, off) && LabelsFrom(buf, off) == LabelsFrom(buf, t)
    ensures Walk(buf, off, off, None, 0).value.targets == [t] + Walk(buf, t, t, None, 0).value.targets
    ensures Walk(buf, off, off, None, 0).value.next == after
  {
    WalkFromPointer(buf, after, t, t, 0);
    var rest := Walk(buf, after, t, Some(t), 0);
    assert Path(rest) == Path(Walk(buf, t, t, None, 0)) != None;
    WalkNext(buf, after, t, Some(t), 0);
    assert Walk(buf, off, off, None, 0) == Some(rest.value.(targets := [t] + rest.value.targets));
  }

  /** A name written out without pointers follows no pointer. */
  lemma LiteralNoTargets(buf: seq<u8>, off: nat, ls: seq<seq<u8>>)
    requires PlainLabels(ls) && TotalLen(ls) <= 255
    requires off + |Encode(ls)| <= |buf| && buf[off..off + |Encode(ls)|] == Encode(ls)
    ensures Decodes(buf, off) && Walk(buf, off, off, None, 0).value.targets == []
  {
    WalkLiteral(buf, off, ls, off, 0);
  }

  /** Labels of 1 to 63 bytes each are as long as their length bytes say
      once the pointer bits are masked off, so their total length is the
      sum `Name::read` checks against 255. */
  lemma {:induction false} PlainTotalLen(buf: seq<u8>, ps: seq<nat>)
    requires RawInBounds(buf, ps) && PlainLabels(Contents(buf, ps))
    ensures TotalLen(Contents(buf, ps)) == SumLen(buf, ps)
    decreases ps
  {
    if ps != [] {
      var xs := Contents(buf, ps);
      assert |xs[0]| == buf[ps[0]] < 64;
      assert Contents(buf, ps[1..]) == xs[1..];
      PlainTail(xs);
      PlainTotalLen(buf, ps[1..]);
    }
  }

  /** `buf'` holds the bytes of `buf` from `lo` up to `at` in place and
      the bytes of `buf` from `at` on moved `d` places up: what a message
      looks like from `lo` on after `d` bytes were inserted at `at`. */
  predicate Shifted(buf: seq<u8>, buf': seq<u8>, at: nat, d: nat, lo: nat) {
    && at <= |buf| && |buf| + d <= |buf'| && AgreeFrom(buf[..at], buf', lo)
    && forall k :: at <= k < |buf| ==> Moved(buf, buf', k, d)
  }

  /** A shift keeps holding for the bytes up to any `n` past `at`. */
  lemma ShiftedPrefix(buf: seq<u8>, buf': seq<u8>, at: nat, d: nat, lo: nat, n: nat)
    requires Shifted(buf, buf', at, d, lo) && at <= n <= |buf|
    ensures Shifted(buf[..n], buf'[..n + d], at, d, lo)
  {
    var b, b' := buf[..n], buf'[..n + d];
    forall k | at <= k < n ensures Moved(b, b', k, d) {
      assert Moved(buf, buf', k, d);
    }
  }

  /** The byte at `k` in `buf` sits at `k + d` in `buf'`. */
  predicate Moved(buf: seq<u8>, buf': seq<u8>, k: nat, d: nat) {
    k < |buf| && k + d < |buf'| && buf'[k + d] == buf[k]
  }

  /** A run of bytes at or past `at` sits `d` places up once `d` bytes
      were inserted at `at`. */
  lemma ShiftedSlice(buf: seq<u8>, buf': seq<u8>, at: nat, d: nat, lo: nat, a: nat, b: nat)
    requires Shifted(buf, buf', at, d, lo) && at <= a <= b <= |buf|
    ensures buf'[a + d..b + d] == buf[a..b]
  {
    forall k | 0 <= k < b - a
      ensures buf'[a + d..b + d][k] == buf[a..b][k]
    {
      assert Moved(buf, buf', a + k, d);
    }
  }

  /** Where the byte at offset `x` sits once `d` bytes were inserted at `at`. */
  function ShiftOffset(x: nat, at: nat, d: nat): nat {
    if x < at then x else x + d
  }

  /** `ShiftOffset` of every offset in `ps`. */
  function ShiftOffsets(ps: seq<nat>, at: nat, d: nat): seq<nat> {
    if ps == [] then [] else [ShiftOffset(ps[0], at, d)] + ShiftOffsets(ps[1..], at, d)
  }

  lemma ShiftOffsetsCons(x: nat, ps: seq<nat>, at: nat, d: nat)
    ensures ShiftOffsets([x] + ps, at, d) == [ShiftOffset(x, at, d)] + ShiftOffsets(ps, at, d)
  {
    assert ([x] + ps)[1..] == ps;
  }

  /** Offsets below `at` do not move. */
  lemma {:induction false} ShiftOffsetsBelow(ps: seq<nat>, at: nat, d: nat)
    requires forall k :: 0 <= k < |ps| ==> ps[k] < at
    ensures ShiftOffsets(ps, at, d) == ps
    decreases ps
  {
    if ps != [] {
      ShiftOffsetsBelow(ps[1..], at, d);
    }
  }

  /** A walk as it reads once `d` bytes were inserted at `at`: its labels
      past `at` move up, its pointer targets stay, and so does nothing
      else but the cursor it hands back, which moves up. */
  function ShiftTrace(w: Option<NameTrace>, at: nat, d: nat): Option<NameTrace> {
    if w.None? then None
    else Some(NameTrace(ShiftOffsets(w.value.labels, at, d), w.value.targets, w.value.next + d))
  }

  /** From `j`, at or past `at`, the name is spelled out label by label up
      to its end or up to a pointer to a name below `at` that decodes from
      the bytes before `at` alone, can be walked label by label there and
      reads nothing below `lo`: the two shapes `add_name` writes. */
  predicate PointsBelow(buf: seq<u8>, j: nat, at: nat, lo: nat)
    decreases |buf| - j
  {
    var read := ReadLabelType(buf, j);
    && at <= j && read.0.Some?
    && match read.0.value
       case Pointer(t) => t < at && DecodesAbove(buf[..at], t, lo) && Readable(buf[..at], t)
       case Part(n) => n == 0 || PointsBelow(buf, read.1, at, lo)
  }

  /** A label or pointer read at or past `at` reads the same `d` places
      up once `d` bytes were inserted at `at`. */
  lemma ReadShifted(buf: seq<u8>, buf': seq<u8>, at: nat, d: nat, lo: nat, c: nat)
    requires Shifted(buf, buf', at, d, lo) && at <= c && ReadLabelType(buf, c).0.Some?
    ensures ReadLabelType(buf', c + d) == (ReadLabelType(buf, c).0, ReadLabelType(buf, c).1 + d)
  {
    assert Moved(buf, buf', c, d);
    if IsPointerByte(buf[c]) {
      assert Moved(buf, buf', c + 1, d);
    }
  }

  /** `WalkAgrees` for a running length `len'` of at least `len`: a walk
      that succeeds from `len` and reads nothing below `lo` reads the same
      from `len'` in a buffer that agrees from `lo` on, whether it then
      succeeds or not. */
  lemma {:induction false} WalkAgreesLonger(buf: seq<u8>, buf': seq<u8>, j: nat, maximum: nat, ptr: Option<nat>, len: nat, len': nat, lo: nat)
    requires Walk(buf, j, maximum, ptr, len).Some? && lo <= Cursor(j, ptr) && len <= len'
    requires AllAbove(Walk(buf, j, maximum, ptr, len).value.targets, lo)
    requires AgreeFrom(buf, buf', lo)
    ensures Walk(buf', j, maximum, ptr, len') == Walk(buf, j, maximum, ptr, len')
    decreases maximum, |buf| - Cursor(j, ptr)
  {
    var cur := Cursor(j, ptr);
    var read := ReadLabelType(buf, cur);
    var j' := if ptr.None? then read.1 else j;
    ReadAgrees(buf, buf', cur, lo);
    match read.0.value
    case Pointer(p) =>
      WalkPointerStep(buf, j, maximum, ptr, len, p, j');
      WalkPointerStep(buf, j, maximum, ptr, len', p, j');
      WalkPointerStep(buf', j, maximum, ptr, len', p, j');
      AllAboveCons(p, Walk(buf, j', p, Some(p), len).value.targets, lo);
      WalkAgreesLonger(buf, buf', j', p, Some(p), len, len', lo);
    case Part(n) =>
      if n != 0 && len' + n <= 255 {
        var ptr' := if ptr.None? then None else Some(read.1);
        WalkPartStep(buf, j, maximum, ptr, len, n, j', ptr', len + n);
        WalkPartStep(buf, j, maximum, ptr, len', n, j', ptr', len' + n);
        WalkPartStep(buf', j, maximum, ptr, len', n, j', ptr', len' + n);
        WalkAgreesLonger(buf, buf', j', maximum, ptr', len + n, len' + n, lo);
      }
  }

  /** After a pointer to `t`, the walk over a name that decodes from `t`
      in `s` and reads nothing below `lo` is the same in a buffer that
      agrees with `s` from `lo` on, whatever the running length. */
  lemma TailAgrees(s: seq<u8>, buf: seq<u8>, t: nat, j: nat, len: nat, lo: nat)
    requires DecodesAbove(s, t, lo) && AgreeFrom(s, buf, lo)
    ensures Walk(buf, j, t, Some(t), len) == Walk(s, j, t, Some(t), len)
  {
    WalkFromPointer(s, j, t, t, 0);
    WalkAgreesLonger(s, buf, j, t, Some(t), 0, len, lo);
  }

  /** After a pointer, the cursor `j` of the walk is only handed back:
      moving it to `j2` changes nothing else. */
  lemma PointerWalkMoved(buf: seq<u8>, j: nat, j2: nat, maximum: nat, p: nat, len: nat)
    ensures Walk(buf, j2, maximum, Some(p), len).Some? <==> Walk(buf, j, maximum, Some(p), len).Some?
    ensures Walk(buf, j, maximum, Some(p), len).Some? ==>
      Walk(buf, j2, maximum, Some(p), len) == Some(Walk(buf, j, maximum, Some(p), len).value.(next := j2))
  {
    WalkFromPointer(buf, j, maximum, p, len);
    WalkFromPointer(buf, j2, maximum, p, len);
    if Walk(buf, j, maximum, Some(p), len).Some? {
      WalkNext(buf, j, maximum, Some(p), len);
      WalkNext(buf, j2, maximum, Some(p), len);
    }
  }

  /** A name of the shape `PointsBelow` describes walks the same once `d`
      bytes were inserted at `at`, from `j + d`: it fails where it failed,
      and where it succeeded the labels it spells move up with it while
      the pointer and the labels behind it stay where they were. */
  lemma {:induction false} WalkShift(buf: seq<u8>, buf': seq<u8>, at: nat, d: nat, lo: nat, j: nat, maximum: nat, len: nat)
    requires Shifted(buf, buf', at, d, lo) && PointsBelow(buf, j, at, lo) && at <= maximum && len <= 255
    ensures Walk(buf', j + d, maximum + d, None, len) == ShiftTrace(Walk(buf, j, maximum, None, len), at, d)
    decreases |buf| - j
  {
    var read := ReadLabelType(buf, j);
    ReadShifted(buf, buf', at, d, lo, j);
    match read.0.value
    case Pointer(t) =>
      PointerShift(buf, buf', at, d, lo, j, maximum, len, t);
    case Part(n) =>
      if n != 0 && len + n <= 255 {
        WalkShift(buf, buf', at, d, lo, read.1, maximum, len + n);
        PartShift(buf, buf', at, d, j, maximum, len, n);
      }
  }

  /** The pointer step of `WalkShift`. */
  lemma PointerShift(buf: seq<u8>, buf': seq<u8>, at: nat, d: nat, lo: nat, j: nat, maximum: nat, len: nat, t: u16)
    requires Shifted(buf, buf', at, d, lo) && at <= j && at <= maximum && len <= 255
    requires ReadLabelType(buf, j).0 == Some(Pointer(t)) && t < at && DecodesAbove(buf[..at], t, lo)
    requires ReadLabelType(buf', j + d) == (ReadLabelType(buf, j).0, ReadLabelType(buf, j).1 + d)
    ensures Walk(buf', j + d, maximum + d, None, len) == ShiftTrace(Walk(buf, j, maximum, None, len), at, d)
  {
    var s := buf[..at];
    var j' := ReadLabelType(buf, j).1;
    WalkPointerStep(buf, j, maximum, None, len, t, j');
    WalkPointerStep(buf', j + d, maximum + d, None, len, t, j' + d);
    PrefixAgrees(buf, at, lo);
    TailAgrees(s, buf, t, j', len, lo);
    TailAgrees(s, buf', t, j' + d, len, lo);
    PointerWalkMoved(s, j', j' + d, t, t, len);
    var rest := Walk(s, j', t, Some(t), len);
    if rest.Some? {
      WalkNext(s, j', t, Some(t), len);
      WalkLabels(s, j', t, Some(t), len);
      ShiftOffsetsBelow(rest.value.labels, at, d);
    }
  }

  /** The label step of `WalkShift`, once the rest of the walk is known
      to read the same moved up. */
  lemma PartShift(buf: seq<u8>, buf': seq<u8>, at: nat, d: nat, j: nat, maximum: nat, len: nat, n: u8)
    requires at <= j && ReadLabelType(buf, j).0 == Some(Part(n)) && n != 0 && len + n <= 255
    requires ReadLabelType(buf', j + d) == (ReadLabelType(buf, j).0, ReadLabelType(buf, j).1 + d)
    requires var j' := ReadLabelType(buf, j).1;
      Walk(buf', j' + d, maximum + d, None, len + n) == ShiftTrace(Walk(buf, j', maximum, None, len + n), at, d)
    ensures Walk(buf', j + d, maximum + d, None, len) == ShiftTrace(Walk(buf, j, maximum, None, len), at, d)
  {
    var j' := ReadLabelType(buf, j).1;
    WalkPartStep(buf, j, maximum, None, len, n, j', None, len + n);
    WalkPartStep(buf', j + d, maximum + d, None, len, n, j' + d, None, len + n);
    var rest := Walk(buf, j', maximum, None, len + n);
    if rest.Some? {
      ShiftOffsetsCons(j, rest.value.labels, at, d);
    }
  }

  /** A prefix agrees from any offset with the whole. */
  lemma PrefixAgrees(bytes: seq<u8>, n: nat, lo: nat)
    requires n <= |bytes|
    ensures AgreeFrom(bytes[..n], bytes, lo)
  {
  }

  /** The name at `i`, of the shape `PointsBelow` describes, reads back
      from `i + d` once `d` bytes were inserted at `at`: it decodes exactly
      when it did, ends `d` places further up, follows the same pointers,
      and reads its labels at their moved offsets. */
  lemma NameShift(buf: seq<u8>, buf': seq<u8>, at: nat, d: nat, lo: nat, i: nat)
    requires Shifted(buf, buf', at, d, lo) && PointsBelow(buf, i, at, lo)
    ensures Walk(buf', i + d, i + d, None, 0) == ShiftTrace(Walk(buf, i, i, None, 0), at, d)
    ensures NameRead(buf', i + d).0.Some? <==> NameRead(buf, i).0.Some?
    ensures NameRead(buf, i).0.Some? ==> NameRead(buf', i + d).1 == NameRead(buf, i).1 + d
    ensures DecodesAbove(buf, i, lo) ==> DecodesAbove(buf', i + d, lo)
  {
    WalkShift(buf, buf', at, d, lo, i, i, 0);
  }

  /** The shape `PointsBelow` describes survives inserting `d` bytes at
      `at`: it holds `d` places up, below the moved bound `at + d`. */
  lemma {:induction false} PointsBelowShift(buf: seq<u8>, buf': seq<u8>, at: nat, d: nat, lo: nat, j: nat)
    requires Shifted(buf, buf', at, d, lo) && PointsBelow(buf, j, at, lo)
    ensures PointsBelow(buf', j + d, at + d, lo)
    decreases |buf| - j
  {
    var read := ReadLabelType(buf, j);
    ReadShifted(buf, buf', at, d, lo, j);
    match read.0.value
    case Pointer(t) =>
      assert AgreeFrom(buf[..at], buf'[..at + d], lo);
      NameAgrees(buf[..at], buf'[..at + d], t, lo);
    case Part(n) =>
      if n != 0 {
        PointsBelowShift(buf, buf', at, d, lo, read.1);
      }
  }

  /** A name written out without pointers at or past `at` has the shape
      `PointsBelow` describes. */
  lemma {:induction false} LiteralPointsBelow(buf: seq<u8>, off: nat, ls: seq<seq<u8>>, at: nat, lo: nat)
    requires PlainLabels(ls) && at <= off
    requires off + |Encode(ls)| <= |buf| && buf[off..off + |Encode(ls)|] == Encode(ls)
    ensures PointsBelow(buf, off, at, lo)
    decreases ls
  {
    LiteralHead(buf, off, ls);
    if ls != [] {
      LiteralTail(buf, off, ls);
      LiteralPointsBelow(buf, off + 1 + |ls[0]|, ls[1..], at, lo);
    }
  }
}
