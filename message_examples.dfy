/** The crate's integration tests on the captive.apple.com query, stated
    about the model: a 48-byte buffer holding a 35-byte message (a header,
    one question) and 13 bytes of padding. */
module MessageExamples {
  import opened Wire
  import opened Names
  import Q = QuestionRecord
  import QueryKinds
  import QueryClasses
  import Hdr = Header
  import Messages

  /** The labels "captive", "apple" and "com". */
  const LABEL_CAPTIVE: seq<u8> := [99, 97, 112, 116, 105, 118, 101]
  const LABEL_APPLE: seq<u8> := [97, 112, 112, 108, 101]
  const LABEL_COM: seq<u8> := [99, 111, 109]
  const CAPTIVE_LABELS: seq<seq<u8>> := [LABEL_CAPTIVE, LABEL_APPLE, LABEL_COM]

  /** The query's header: id 7932, recursion desired, one question. */
  const CAPTIVE_HEADER: seq<u8> := [30, 252, 1, 0, 0, 1, 0, 0, 0, 0, 0, 0]

  /** The question's name, captive.apple.com, written out. */
  const CAPTIVE_NAME: seq<u8> := [7, 99, 97, 112, 116, 105, 118, 101, 5, 97, 112, 112, 108, 101, 3, 99, 111, 109, 0]

  /** The question's kind and class, A and IN. */
  const CAPTIVE_FIELDS: seq<u8> := [0, 1, 0, 1]

  /** The query, then 13 bytes of padding. */
  const CAPTIVE: seq<u8> := CAPTIVE_HEADER + CAPTIVE_NAME + CAPTIVE_FIELDS + seq(13, _ => 0)

  /** "captive.apple.com" and the other strings the test compares the name with. */
  const DOTTED: seq<u8> := [99, 97, 112, 116, 105, 118, 101, 46, 97, 112, 112, 108, 101, 46, 99, 111, 109]
  const DOTTED_UPPER: seq<u8> := [67, 65, 80, 84, 73, 86, 69, 46, 65, 80, 80, 76, 69, 46, 67, 79, 77]
  const LEADING_DOT: seq<u8> := [46] + DOTTED
  const TRAILING_DOT: seq<u8> := DOTTED + [46]
  const DASHED: seq<u8> := [99, 97, 112, 116, 105, 118, 101, 45, 97, 112, 112, 108, 101, 45, 99, 111, 109]

  /** Any buffer that carries the question bytes at 12..35 reads one
      question there, for captive.apple.com with kind A and class IN, and
      the cursor lands at 35. */
  lemma CaptiveQuestionAt(buf: seq<u8>)
    requires 35 <= |buf| && buf[12..31] == CAPTIVE_NAME && buf[31..35] == CAPTIVE_FIELDS
    ensures Readable(buf, 12) && Name(buf, 12).LabelContents() == CAPTIVE_LABELS
    ensures Q.Read(buf, 12) == (Some(Q.Question(Name(buf, 12), QueryKinds.QueryKind.A, QueryClasses.QueryClass.IN)), 35)
  {
    CaptiveEncoding();
    assert CAPTIVE_FIELDS == QueryKinds.QueryKind.A.ToBeBytes() + QueryClasses.QueryClass.IN.ToBeBytes();
    NameWritten(buf, 12, CAPTIVE_LABELS);
    Q.ReadWritten(buf, 12, 31, 35, QueryKinds.QueryKind.A, QueryClasses.QueryClass.IN);
  }

  /** The name captive.apple.com written out is `CAPTIVE_NAME`. */
  lemma CaptiveEncoding()
    ensures PlainLabels(CAPTIVE_LABELS) && TotalLen(CAPTIVE_LABELS) == 15
    ensures Encode(CAPTIVE_LABELS) == CAPTIVE_NAME
  {
    var ls: seq<seq<u8>> := CAPTIVE_LABELS;
    var t: seq<seq<u8>> := [LABEL_APPLE, LABEL_COM];
    var u: seq<seq<u8>> := [LABEL_COM];
    var none: seq<seq<u8>> := [];
    assert ls[1..] == t && t[1..] == u && u[1..] == none;
    assert ls[0] == LABEL_CAPTIVE && t[0] == LABEL_APPLE && u[0] == LABEL_COM;
    assert TotalLen(u) == |LABEL_COM| + TotalLen(none) == 3;
    assert TotalLen(t) == |LABEL_APPLE| + TotalLen(u) == 8;
    assert TotalLen(ls) == |LABEL_CAPTIVE| + TotalLen(t) == 15;
    var e0: seq<u8> := [];
    var e1 := [3 as u8] + LABEL_COM + e0;
    var e2 := [5 as u8] + LABEL_APPLE + e1;
    var e3 := [7 as u8] + LABEL_CAPTIVE + e2;
    assert EncodeLabels(u) == e1;
    assert EncodeLabels(t) == e2;
    assert EncodeLabels(ls) == e3;
    assert e3 + [0] == CAPTIVE_NAME;
  }

  /** The header of the query counts one question. */
  lemma CaptiveQuestionCount(buf: seq<u8>)
    requires 12 <= |buf| && buf[..12] == CAPTIVE_HEADER
    ensures Hdr.FromBytes(buf).QuestionCount() == 1
  {
    assert forall k :: 0 <= k < 12 ==> buf[k] == buf[..12][k];
    Hdr.FromBytesPrefix(buf, CAPTIVE_HEADER);
    Hdr.CaptiveAppleComHeader();
  }

  /** Where the parts of the query sit. */
  lemma CaptiveParts(buf: seq<u8>)
    requires 35 <= |buf| && buf[..35] == CAPTIVE_HEADER + CAPTIVE_NAME + CAPTIVE_FIELDS
    ensures buf[..12] == CAPTIVE_HEADER && buf[12..31] == CAPTIVE_NAME && buf[31..35] == CAPTIVE_FIELDS
  {
    var w := buf[..35];
    assert buf[..12] == w[..12];
    assert buf[12..31] == w[12..31];
    assert buf[31..35] == w[31..35];
  }

  /** `test_parse`: the buffer parses, and the message is 35 bytes long. */
  lemma CaptiveParsedLen()
    ensures Messages.ParsedLen(CAPTIVE) == Some(35)
  {
    assert CAPTIVE[..35] == CAPTIVE_HEADER + CAPTIVE_NAME + CAPTIVE_FIELDS;
    CaptiveParts(CAPTIVE);
    CaptiveQuestionAt(CAPTIVE);
    Q.ReadEnd(CAPTIVE, 12);
    CaptiveQuestionCount(CAPTIVE);
    assert Q.Skip(CAPTIVE, 12, 1) == Q.Skip(CAPTIVE, 35, 0) == Some(35);
  }

  /** `test_questions`: the name equals "captive.apple.com" and
      "CAPTIVE.APPLE.COM", but not the string with a leading or a trailing
      dot, nor the one with dashes for dots. */
  lemma CaptiveNameComparisons()
    ensures EqIgnoreAsciiCase(Dotted(CAPTIVE_LABELS), DOTTED)
    ensures EqIgnoreAsciiCase(Dotted(CAPTIVE_LABELS), DOTTED_UPPER)
    ensures !EqIgnoreAsciiCase(Dotted(CAPTIVE_LABELS), LEADING_DOT)
    ensures !EqIgnoreAsciiCase(Dotted(CAPTIVE_LABELS), TRAILING_DOT)
    ensures !EqIgnoreAsciiCase(Dotted(CAPTIVE_LABELS), DASHED)
  {
    var ls := CAPTIVE_LABELS;
    assert ls[..2][..1] == ls[..1];
    assert ls[..3][..2] == ls[..2];
    assert Dotted(ls[..1]) == ls[0];
    assert Dotted(ls[..2]) == ls[0] + [DOT] + ls[1];
    assert Dotted(ls) == Dotted(ls[..3]) == DOTTED;
    assert AsciiLower(DASHED[7]) != AsciiLower(DOTTED[7]);
  }

  /** What the three tests rely on in the padded query: it parses to 35
      bytes, its header counts one question, and that question reads from
      the first 35 bytes. */
  lemma CaptiveMessage(bytes: seq<u8>)
    requires bytes == CAPTIVE
    ensures Messages.ParsedLen(bytes) == Some(35) && Hdr.FromBytes(bytes).QuestionCount() == 1
    ensures Q.Read(bytes[..35], 12) == (Some(Q.Question(Name(bytes[..35], 12), QueryKinds.QueryKind.A, QueryClasses.QueryClass.IN)), 35)
  {
    CaptiveParsedLen();
    var w := bytes[..35];
    assert w == CAPTIVE_HEADER + CAPTIVE_NAME + CAPTIVE_FIELDS;
    CaptiveParts(w);
    CaptiveQuestionAt(w);
    CaptiveQuestionCount(bytes);
  }

  /** As in `test_parse`, `test_as_bytes` and `test_questions`: for a
      buffer holding the captured query and 13 bytes of padding, parsing
      succeeds with length 35, `as_bytes` is the first 35 bytes of the
      buffer, and the questions iterator yields the one question and then
      nothing. */
  method ParseCaptive() returns (len: nat, bytes: seq<u8>, first: Option<Q.Question>, second: Option<Q.Question>)
    ensures len == 35 && bytes == CAPTIVE[..35]
    ensures first == Some(Q.Question(Name(CAPTIVE[..35], 12), QueryKinds.QueryKind.A, QueryClasses.QueryClass.IN))
    ensures second.None?
  {
    var buffer := new u8[48](i requires 0 <= i < 48 => CAPTIVE[i]);
    assert buffer[..] == CAPTIVE;
    CaptiveMessage(buffer[..]);
    var m := Messages.Message.Parse(buffer);
    len := m.value.len;
    bytes := m.value.AsBytes();
    var questions := m.value.Questions();
    first := questions.Next();
    second := questions.Next();
  }

  /** The header a builder makes for the query: id 7932 and recursion
      desired, no records counted yet. */
  const BUILT_HEADER: seq<u8> := [30, 252, 1, 0, 0, 0, 0, 0, 0, 0, 0, 0]

  /** The bare built header counts no questions, and counting one turns it
      into the query's header. */
  lemma BuiltHeaderCounts()
    ensures Hdr.FromBytes(BUILT_HEADER).QuestionCount() == 0
    ensures Hdr.FromBytes(BUILT_HEADER).SetQuestionCount(1).ToBytes() == CAPTIVE_HEADER
  {
    BuiltHeaderFields();
    CountedHeaderBytes();
  }

  /** The fields of the bare built header. */
  lemma BuiltHeaderFields()
    ensures Hdr.FromBytes(BUILT_HEADER) == Hdr.Header([30, 252], [1, 0], [0, 0], [0, 0], [0, 0], [0, 0])
  {
  }

  /** Counting one question in it gives the bytes of the query's header. */
  lemma CountedHeaderBytes()
    ensures Hdr.Header([30, 252], [1, 0], [0, 0], [0, 0], [0, 0], [0, 0]).QuestionCount() == 0
    ensures Hdr.Header([30, 252], [1, 0], [0, 0], [0, 0], [0, 0], [0, 0]).SetQuestionCount(1).ToBytes() == CAPTIVE_HEADER
  {
    assert U16ToBe(1) == [0, 1];
  }

  /** The bytes of kind A and class IN are the query's fields. */
  lemma CaptiveFields()
    ensures QueryKinds.QueryKind.A.ToBeBytes() + QueryClasses.QueryClass.IN.ToBeBytes() == CAPTIVE_FIELDS
  {
  }

  /** The first 35 bytes of the padded query are its header, name and fields. */
  lemma CaptivePrefix()
    ensures CAPTIVE[..35] == CAPTIVE_HEADER + (CAPTIVE_NAME + CAPTIVE_FIELDS)
  {
    assert CAPTIVE[..35] == CAPTIVE_HEADER + CAPTIVE_NAME + CAPTIVE_FIELDS;
  }

  /** With no question before it (`c` is 0), a captive.apple.com
      question, kind A and class IN, is written as the query's name and
      fields, whatever the message holds. */
  lemma BuiltQuestionBytes(m: seq<u8>, c: nat, q: Q.Question, e: seq<u8>)
    requires |m| <= 0x4000 && c == 0
    requires Readable(q.name.buf, q.name.start) && q.name.LabelContents() == CAPTIVE_LABELS
    requires q.kind == QueryKinds.QueryKind.A && q.qclass == QueryClasses.QueryClass.IN
    requires Messages.NamesReadable(m, HEADER_SIZE, c) && e == Messages.QuestionBytes(m, c, q)
    ensures e == CAPTIVE_NAME + CAPTIVE_FIELDS
  {
    Messages.SpelledQuestionBytes(m, c, q);
    CaptiveEncoding();
    CaptiveFields();
  }

  /** Bytes inserted right after a bare header, under a new header, are
      that header followed by the bytes. */
  lemma RewrittenBare(m: seq<u8>, h: Hdr.Header, e: seq<u8>, m': seq<u8>)
    requires |m| == HEADER_SIZE && m' == Messages.Rewritten(m, h, HEADER_SIZE, e)
    ensures m' == h.ToBytes() + e
  {
    assert (m[..HEADER_SIZE] + e + m[HEADER_SIZE..])[HEADER_SIZE..] == e;
  }

  /** `add_question` on a message `m` that is only a header: the result is
      the header counting one more question, then the question's bytes. */
  lemma QuestionAfterHeader(m: seq<u8>, q: Q.Question, m': seq<u8>, h': Hdr.Header, e: seq<u8>)
    requires |m| == HEADER_SIZE && Hdr.FromBytes(m).QuestionCount() < 0xFFFF
    requires Q.Skip(m, HEADER_SIZE, Hdr.FromBytes(m).QuestionCount()) == Some(HEADER_SIZE)
    requires Messages.NamesReadable(m, HEADER_SIZE, Hdr.FromBytes(m).QuestionCount()) && Readable(q.name.buf, q.name.start)
    requires e == Messages.QuestionBytes(m, Hdr.FromBytes(m).QuestionCount(), q) && m' == Messages.WithQuestion(m, q)
    requires h' == Hdr.FromBytes(m).SetQuestionCount(Hdr.FromBytes(m).QuestionCount() + 1)
    ensures m' == h'.ToBytes() + e
  {
    var h := Messages.WithQuestionRewritten(m, q, HEADER_SIZE, e, m');
    RewrittenBare(m, h, e, m');
  }

  /** Building the query: `add_question` of a captive.apple.com question,
      kind A and class IN, on a bare header `m` that counts no question and
      becomes the query's header once it counts one. No question is there
      yet, so the name is spelled out, and the message `m'` is the 35 bytes
      of the captured query. */
  lemma BuiltCaptive(m: seq<u8>, q: Q.Question, m': seq<u8>)
    requires |m| == HEADER_SIZE && Hdr.FromBytes(m).QuestionCount() == 0
    requires Hdr.FromBytes(m).SetQuestionCount(Hdr.FromBytes(m).QuestionCount() + 1).ToBytes() == CAPTIVE_HEADER
    requires Readable(q.name.buf, q.name.start) && q.name.LabelContents() == CAPTIVE_LABELS
    requires q.kind == QueryKinds.QueryKind.A && q.qclass == QueryClasses.QueryClass.IN
    requires Q.Skip(m, HEADER_SIZE, Hdr.FromBytes(m).QuestionCount()) == Some(HEADER_SIZE)
    requires Messages.NamesReadable(m, HEADER_SIZE, Hdr.FromBytes(m).QuestionCount())
    requires m' == Messages.WithQuestion(m, q)
    ensures m' == CAPTIVE[..35]
  {
    var c := Hdr.FromBytes(m).QuestionCount();
    var e := Messages.QuestionBytes(m, c, q);
    QuestionAfterHeader(m, q, m', Hdr.FromBytes(m).SetQuestionCount(c + 1), e);
    BuiltQuestionBytes(m, c, q, e);
    CaptivePrefix();
  }

  /** The 35 bytes of the query, on their own, parse to their full length. */
  lemma CaptiveQueryParses(w: seq<u8>)
    requires w == CAPTIVE[..35]
    ensures Messages.ParsedLen(w) == Some(35)
  {
    assert w == CAPTIVE_HEADER + CAPTIVE_NAME + CAPTIVE_FIELDS;
    CaptiveParts(w);
    CaptiveQuestionAt(w);
    Q.ReadEnd(w, 12);
    CaptiveQuestionCount(w);
    assert Q.Skip(w, 12, 1) == Q.Skip(w, 35, 0) == Some(35);
  }

  /** `Message::builder`, `MessageBuilder::header` with id 7932 and
      recursion desired, `build`, then `add_question` of captive.apple.com,
      kind A and class IN, on any buffer of at least 35 bytes: the message
      is the captured query, and parsing it gives its whole length back. */
  method BuildCaptive(buf: array<u8>, q: Q.Question) returns (m: Messages.Message)
    requires buf.Length >= 35
    requires Readable(q.name.buf, q.name.start) && q.name.LabelContents() == CAPTIVE_LABELS
    requires q.kind == QueryKinds.QueryKind.A && q.qclass == QueryClasses.QueryClass.IN
    modifies buf
    ensures m.buf == buf && m.len == 35 && m.AsBytes() == CAPTIVE[..35]
    ensures Messages.ParsedLen(m.AsBytes()) == Some(35)
  {
    var b := Messages.Message.Builder(buf);
    var h := Hdr.NewHeaderBuilder().Id(7932).RecursionDesired(true).Build();
    Hdr.BuiltQueryHeader();
    b.Header(h);
    m := b.Build();
    assert m.AsBytes() == BUILT_HEADER;
    BuiltHeaderCounts();
    ghost var bare := m.AsBytes();
    BuiltQuestionBytes(bare, 0, q, Messages.QuestionBytes(bare, 0, q));
    assert Q.Skip(bare, HEADER_SIZE, 0) == Some(HEADER_SIZE);
    m.AddQuestion(q);
    BuiltCaptive(bare, q, m.AsBytes());
    CaptiveQueryParses(m.AsBytes());
  }

  /** An answer for captive.apple.com added to the query: its name, equal
      to the question's ignoring ASCII case, is written as a pointer to the
      question's name at offset 12. */
  lemma CaptiveAnswerPointsBack(name: Name)
    requires Readable(name.buf, name.start) && EqualLabels(CAPTIVE_LABELS, name.LabelContents())
    ensures Messages.NamesReadable(CAPTIVE[..35], HEADER_SIZE, 1)
    ensures Messages.NameBytes(CAPTIVE[..35], 1, name) == PointerBytes(12) == [0xC0, 12]
  {
    var w := CAPTIVE[..35];
    assert w == CAPTIVE_HEADER + CAPTIVE_NAME + CAPTIVE_FIELDS;
    CaptiveParts(w);
    CaptiveQuestionAt(w);
    Q.ReadEnd(w, 12);
    assert Messages.NamesReadable(w, 35, 0);
    assert PointerSearch(w, 12, name) == Some(12);
  }
}
