# dnsparse, modelled in Dafny

This project models the core of `dnsparse`, a Rust library that reads and
writes DNS messages in place in a caller's byte buffer, without allocating.
It covers six parts of the library:

- **The message.** `Message` is a buffer and the length of the message in it.
  `Message::parse` accepts a buffer of 12 to 512 bytes. It walks the
  questions the header counts and sets the length just past the last one.
  `Message::builder` zeroes the header, and `MessageBuilder::header` stores a
  header.
- **Adding records.** `add_question` and `add_answer` insert a record at the
  end of its section, then bump the header's count. `add_name` writes a name
  in one of two ways: a compression pointer to the first question name that
  ends with it, or the labels spelled out.
- **Names.** `Name::read` follows compression pointers, but only to earlier
  offsets, and caps the summed label lengths at 255. The `Labels` iterator
  yields a name's labels. `equal_from` and `create_pointer` compare names
  ignoring ASCII case. `Name == str` compares a name with a dotted string.
- **The header.** `Header` is twelve raw bytes with getters and setters for
  the id, the flags and the four counts. It also has `OpCode`,
  `ResponseCode` and `HeaderBuilder`.
- **Kinds and classes.** `QueryKind` and `QueryClass` convert from `u16` and
  are read from and written to the wire.
- **Record readers.** The question and answer readers, and the `Questions`
  and `Answers` iterators.

## How the model is laid out

There is one module per source file:

| module | file | source |
|---|---|---|
| `Wire` | `wire.dfy` | big-endian integers and ASCII case folding, as the standard library provides them to the source |
| `QueryKinds` | `query_kind.dfy` | `src/query_kind.rs` |
| `QueryClasses` | `query_class.dfy` | `src/query_class.rs` |
| `Header` | `header.dfy` | `src/header.rs` |
| `Names` | `name.dfy` | `src/name.rs` |
| `QuestionRecord` | `question.dfy` | `src/question.rs` |
| `AnswerRecord` | `answer.dfy` | `src/answer.rs` |
| `Messages` | `message.dfy` | `src/message.rs` |

Two more modules restate the crate's own tests as lemmas and a method.
`NameExamples`, in `name_examples.dfy`, covers the `create_pointer` test.
`MessageExamples`, in `message_examples.dfy`, covers the integration tests on
the captive.apple.com query.

### Values and state

- **Integers.** Bytes and integers are `int` subset types (`u8`, `u16`,
  `u32`). The header's flag bits are computed on `bv8`, with the source's
  masks and shifts.
- **Cursors.** A reader that moves a `&mut usize` cursor becomes a function
  returning the value it read and the new cursor. On failure the cursor it
  returns is the old one.
- **Loops.** Code written as a loop becomes a method whose loop carries its
  invariants. Each such method is proved equal to a function that states
  what the loop computes:
  - `Name::read` becomes `ReadName`, proved against `NameRead`/`Walk`;
  - `equal_from` becomes `EqualFrom`;
  - `create_pointer` becomes `CreatePointer`, against `PointerSearch`;
  - `Name == str` becomes `EqStr`;
  - `parse`, `questions_end` and `answers_end` are proved against
    `ParsedLen` and `Skip`;
  - `insert` becomes `Insert`, against `Splice`;
  - `add_name` becomes `AddName`, against `NameBytes`.
- **Mutable state.** `Message`, `MessageBuilder`, `Labels`, `Questions` and
  `Answers` are classes. A message's buffer is an `array<u8>`. The borrowed
  slices of names, labels and the iterators are `seq<u8>` values.

### Quirks kept as the source has them

- **Length bytes.** `LabelType::read` treats a first byte whose top bits are
  `01` or `10` as a length and keeps its low six bits (`LenBits`). But
  `Label::len` returns the raw byte (`Label.Len`). So `add_name` copies the
  raw byte back out, and `Label::as_bytes` slices by the raw byte too.
- **MAILA and MAILB.** `QueryKind::from` maps 253 to `MAILA` and 254 to
  `MAILB`, the reverse of the enum's discriminants. So these two kinds come
  back swapped after a round trip through the wire (`KindRoundTrip`). A
  `Reserved` kind is written as 256, and a `Reserved` class as 5.
- **Response codes.** `set_response_code` cuts the 16-bit code to its low
  byte with `as u8` (`Wire.LowByte`, the value modulo 256). It ORs that
  byte into the second flag byte after clearing only the low nibble. RCODE
  then reads back as the code modulo 16, and bits 4 to 7 of the low byte
  land in the RA and Z bits. So no code from 16 to 255 reads back as
  itself, the codes 16 to 31 set the low Z bit, and `BadKey` (17) reads
  back as `FormatError` (`SetResponseCodeSpillsIntoZ`).
- **Answers in `parse`.** `parse` never walks the answers. The length it
  settles on ends after the questions, even when the header counts answers.
- **`add_rdata`.** The data length is written as `len as u16`, wrapped
  modulo 65536.

## Model

| member | source | states |
|---|---|---|
| `Wire.U16ToBe` | src/query_kind.rs:75-77 | the two big-endian bytes of a `u16` decode back to it |
| `Wire.U16BeRoundTrip` | src/query_kind.rs:66 | encoding the value of two big-endian bytes gives back those bytes |
| `Wire.U32ToBe` | src/message.rs:151-153 | the four big-endian bytes of a TTL decode back to it |
| `Wire.LowByte` | src/header.rs:221-224 | `as u8` on a code: the byte whose value is the code modulo 256 |
| `Wire.AsciiLower` | src/name.rs:151 | only `A`..`Z` are folded, each to its lower-case letter; every other byte is kept |
| `Wire.EqIgnoreAsciiCaseIsLowerEq` | src/name.rs:44 | two byte strings are equal ignoring ASCII case iff their lower-cased forms are equal |
| `QueryKinds.QueryKind.ToBeBytes` | src/query_kind.rs:75-77 | the two bytes written for a kind are the big-endian form of its discriminant |
| `QueryKinds.FromU16` | src/query_kind.rs:35-61 | a code gives `Reserved` iff it is not one of the twenty named codes; every named code other than 253 and 254 gives the kind with that discriminant |
| `QueryKinds.KindRoundTrip` | src/query_kind.rs:11-61 | writing a kind and reading it back returns the same kind iff it is neither MAILA nor MAILB (those two swap) |
| `QueryKinds.CodeRoundTrip` | src/query_kind.rs:35-77 | a named code other than 253/254 is written back as itself, 253 and 254 are written back swapped, every other code is written as 256 |
| `QueryKinds.Read` | src/query_kind.rs:64-73 | reading succeeds iff two bytes remain; it then moves the cursor by 2 and converts the big-endian value; on failure the cursor is unchanged |
| `QueryKinds.ReadToBeBytes` | src/query_kind.rs:64-77 | reading the bytes written for a kind gives the kind after the round trip, and moves the cursor by 2 |
| `QueryClasses.QueryClass.ToBeBytes` | src/query_class.rs:32-34 | the two bytes written for a class are the big-endian form of its discriminant (`Reserved` is 5) |
| `QueryClasses.FromU16` | src/query_class.rs:37-46 | a code gives `Reserved` iff it is outside 1..4; codes 1..4 give the class with that discriminant |
| `QueryClasses.ClassRoundTrip` | src/query_class.rs:8-46 | every class, `Reserved` included, survives the trip through its code |
| `QueryClasses.CodeRoundTrip` | src/query_class.rs:32-46 | codes 1..4 are written back as themselves, every other code as 5 |
| `QueryClasses.Read` | src/query_class.rs:21-30 | reading succeeds iff two bytes remain; it then moves the cursor by 2 and converts the value; on failure the cursor is unchanged |
| `QueryClasses.ReadToBeBytes` | src/query_class.rs:21-34 | reading the bytes written for a class gives that class back, cursor moved by 2 |
| `Header.ResponseCodeFromU16` | src/header.rs:81-104 | converting back to `u16` gives the code itself; the result is `Reserved` iff the code is not one of the seventeen named ones |
| `Header.ResponseCodeVariantRoundTrip` | src/header.rs:56-104 | a response code survives the trip through `u16` iff it is not a `Reserved` that carries a named code |
| `Header.OpCodeFromU8` | src/header.rs:154-164 | converting back gives the code; below 16, `Reserved` iff the code is 3 or at least 6 |
| `Header.Header.SetId` | src/header.rs:132-135 | the id reads back as set; every other field is unchanged |
| `Header.Header.SetKind` | src/header.rs:146-152 | the kind reads back as set; the other seven bits of the first flag byte and the second flag byte are unchanged |
| `Header.Header.Opcode` | src/header.rs:154-164 | the opcode is `Reserved` iff bits 3..6 of the first flag byte are 3 or at least 6; it converts back to those bits |
| `Header.Header.SetOpcode` | src/header.rs:166-176 | a code below 16 reads back through `opcode`; the QR, AA, TC and RD bits, the second flag byte and every other field are unchanged |
| `Header.Header.SetRecursionDesired` | src/header.rs:193-200 | RD reads back as set; the other seven bits of that flag byte, the other flag byte and every other field are unchanged |
| `Header.Header.SetRecursionAvailable` | src/header.rs:207-214 | RA reads back as set; the other seven bits of that flag byte, the first flag byte and every other field are unchanged |
| `Header.Header.ResponseCode` | src/header.rs:216-219 | the response code is `Reserved` iff the low nibble of the second flag byte is not a named code, and it converts back to that nibble |
| `Header.Header.SetResponseCode` | src/header.rs:221-224 | a code below 16 reads back as the low nibble with the high nibble unchanged; the first flag byte and every other field are unchanged |
| `Header.SetResponseCodeSpillsIntoZ` | src/header.rs:221-224 | for any code and any flag byte: RCODE reads back as the code modulo 16; bits 4-7 of the code's low byte are OR-ed into the RA and Z bits; no code from 16 to 255 reads back as itself; the codes 16-31 set the low Z bit; `BadKey` reads back as `FormatError` |
| `Header.Header.SetQuestionCount` | src/header.rs:235-238 | the question count reads back as set; every other field is unchanged |
| `Header.Header.SetAnswerCount` | src/header.rs:249-252 | the answer count reads back as set; every other field is unchanged |
| `Header.Header.SetNameServerCount` | src/header.rs:263-266 | the name server count reads back as set; every other field is unchanged |
| `Header.Header.SetAdditionalRecordsCount` | src/header.rs:277-280 | the additional records count reads back as set; every other field is unchanged |
| `Header.FromBytes` | src/message.rs:98-100 | the header read from a buffer writes back as the buffer's first 12 bytes |
| `Header.FromBytesPrefix` | src/message.rs:98-100 | the header depends only on the first 12 bytes of the buffer |
| `Header.HeaderBytesRoundTrip` | src/header.rs:6-13 | reading a header's own 12 bytes gives the header back |
| `Header.NewHeaderBuilder` | src/header.rs:291-308 | a new builder's header is twelve zero bytes |
| `Header.ZeroBytesHeader` | src/message.rs:49-55 | twelve zero bytes read as the header a new builder builds |
| `Header.NewHeaderFlags` | src/header.rs:291-302 | a new header has id 0, kind Query, opcode Query, AA, TC, RD and RA clear, and response code NoError |
| `Header.NewHeaderCounts` | src/header.rs:291-302 | a new header counts no records in any section |
| `Header.BuiltQueryHeader` | src/header.rs:306-337 | a builder with id 7932 and recursion desired builds the bytes `30 252 1 0` followed by zeros |
| `Header.CaptiveAppleComHeader` | tests/main.rs:33-104 | the test query's header reads as id 7932, a Query with opcode Query, only RD set, NoError, one question and no other records |
| `Names.LenBits` | src/name.rs:229 | a length is the low six bits of its byte: below 64 and never above the byte |
| `Names.ReadLabelType` | src/name.rs:233-249 | fails iff the cursor is past the end, or at a pointer byte with no byte after it; a pointer moves the cursor by 2 and carries the 14-bit target; a length moves it past the label; on failure the cursor is unchanged |
| `Names.PointerBytes` | src/name.rs:25-26 | a pointer is two bytes whose first carries both flag bits |
| `Names.ReadPointerBytes` | src/name.rs:25-26 | reading the two pointer bytes back gives a pointer to the same target |
| `Names.NameRead` | src/name.rs:55-98 | on failure the cursor is unchanged; on success the name starts at the old cursor and the cursor moves forward inside the buffer |
| `Names.ReadName` | src/name.rs:55-98 | the loop of `Name::read` returns exactly the name and cursor of `NameRead` |
| `Names.WalkNext` | src/name.rs:62-95 | the cursor stays put while a pointer is followed, and ends inside the buffer past the start otherwise |
| `Names.WalkTargetsDecrease` | src/name.rs:65-75 | the pointer targets a decoded name follows are strictly decreasing and all below its start, so reading terminates |
| `Names.WalkLabels` | src/name.rs:76-93 | every label of a decoded name lies in the buffer with a length of 1 to 63, and the lengths add up to at most 255 |
| `Names.LabelsFromBounds` | src/name.rs:87-92 | the same bounds for a whole name read from its start |
| `Names.WalkFromPointer` | src/name.rs:63-74 | after a pointer, the walk's labels and targets are those of a fresh walk from the pointer's target |
| `Names.WalkMonotone` | src/name.rs:69-73 | a walk that succeeds under a bound on targets and lengths still succeeds, with the same result, under a looser bound |
| `Names.StepLabels` | src/name.rs:174-196 | one step of the label iterator on a decodable name: a pointer goes strictly back to an offset with the same labels, a zero ends the name, any other length is the first label |
| `Names.FirstLabelStep` | src/name.rs:174-196 | after yielding the first label, the iterator stands where the rest of the labels decode |
| `Names.Label.AsBytes` | src/name.rs:207-209 | a label's bytes are as many as its raw length byte says |
| `Names.LabelAt` | src/name.rs:207-219 | the k-th label of a name is in bounds, non-empty, and its bytes are the k-th entry of the name's contents |
| `Names.Contents` | src/name.rs:205-219 | the contents of a name are, label by label, the bytes `as_bytes` returns |
| `Names.Labels.constructor` | src/name.rs:109-114 | the iterator starts at the name's start in the name's buffer |
| `Names.Labels.Next` | src/name.rs:174-196 | yields nothing iff no labels remain; otherwise yields the first remaining label and drops it from the remaining ones |
| `Names.NameAgrees` | src/name.rs:55-98 | a name that reads nothing below an offset reads the same, with the same labels, in a buffer that agrees from that offset on |
| `Names.PointerSearchAgrees` | src/name.rs:17-36 | `create_pointer` finds the same target in such a buffer |
| `Names.Name.Split` | src/name.rs:100-107 | the first label and the name of the remaining labels, none when the first was the last |
| `Names.EqualLabelsCons` | src/name.rs:42-50 | two label lists are equal iff their first labels agree ignoring ASCII case and so do the rest |
| `Names.Name.EqualFrom` | src/name.rs:38-53 | true iff the labels from offset `i` equal the sub-name's labels ignoring ASCII case, with the same count |
| `Names.FirstMatch` | src/name.rs:17-36 | the first suffix index found lies within the labels |
| `Names.FirstMatchIsFirst` | src/name.rs:17-36 | the suffix found matches, no earlier suffix matches, and when none is found no non-empty suffix matches |
| `Names.FirstMatchStep` | src/name.rs:20-30 | skipping a first label that does not start a match shifts the found suffix index by one |
| `Names.PointerSearch` | src/name.rs:17-36 | the offset `create_pointer` finds lies inside the buffer |
| `Names.PointerSearchFindsFirstSuffix` | src/name.rs:17-36 | the search finds an offset iff some suffix of the labels equals the sub-name; the offset starts the first such suffix |
| `Names.PointerSearchMatches` | src/name.rs:17-36 | the offset found starts a name whose labels equal the sub-name's, ignoring ASCII case |
| `Names.PointerSearchStep` | src/name.rs:20-30 | a non-matching first label passes the search on to the labels after it |
| `Names.Name.CreatePointer` | src/name.rs:17-36 | returns the pointer bytes for the first matching suffix found by `PointerSearch`, or none |
| `Names.DottedPrefixMatch` | src/name.rs:141-159 | a string that matches the dotted name also matches each join of its first labels on a prefix |
| `Names.DottedParts` | src/name.rs:141-158 | in a string that matches the dotted name, the k-th label follows a dot (unless k is 0) and matches the bytes there |
| `Names.DottedMatchStep` | src/name.rs:141-158 | a matched prefix plus a matched dot and label matches the longer prefix; a failed dot or label rules out the whole match |
| `Names.MatchLabel` | src/name.rs:142-158 | one round of `eq` succeeds iff the expected dot is there and the label matches the bytes after it, and it moves past them |
| `Names.MatchLabelStep` | src/name.rs:141-159 | a failed round rules out equality with the dotted name; a successful one extends the matched prefix by one label |
| `Names.NextLabelMatch` | src/name.rs:141-159 | the same step stated on the label the iterator hands out |
| `Names.MatchedAll` | src/name.rs:161 | once all labels are matched, the string equals the dotted name iff nothing of it is left |
| `Names.Name.EqStr` | src/name.rs:135-162 | true iff the labels joined with dots equal the string ignoring ASCII case |
| `Names.EncodeLabelsAppend` | src/message.rs:135-138 | spelling out two label lists in turn is spelling out their concatenation |
| `Names.EncodeCons` | src/message.rs:135-140 | a spelled-out name is the first label's length byte and bytes, then the rest spelled out |
| `Names.EncodeHead` | src/message.rs:136-137 | a spelled-out name starts with a length byte below 64, then that label's bytes |
| `Names.LiteralHead` | src/name.rs:233-249 | reading at a spelled-out name finds a zero length for no labels, else the first label's length |
| `Names.LiteralTail` | src/message.rs:135-140 | after the first label, the rest of a spelled-out name is the rest spelled out |
| `Names.LiteralFirstLabel` | src/name.rs:207-219 | the label at a spelled-out name has the first label's bytes |
| `Names.WalkLiteral` | src/name.rs:55-98 | a spelled-out name within the 255 cap decodes to its labels at their offsets and ends just past its zero; over the cap it fails |
| `Names.LiteralName` | src/name.rs:55-98 | a spelled-out name within the cap is readable and its label contents are the labels written |
| `Names.LiteralContents` | src/name.rs:205-219 | at the offsets of a spelled-out name lie exactly the labels written |
| `Names.NameWritten` | src/name.rs:55-98 | what `add_name` spells out reads back: the name's labels are those written and the cursor lands just past it |
| `QuestionRecord.Read` | src/question.rs:24-34 | on failure the cursor is unchanged; on success the name starts at the old cursor and the cursor moves forward inside the buffer |
| `QuestionRecord.ReadFields` | src/question.rs:28-31 | after the name, kind and class take four bytes; on failure the cursor is unchanged |
| `QuestionRecord.End` | src/question.rs:24-34 | where a question ends lies past its start and inside the buffer |
| `QuestionRecord.ReadEnd` | src/question.rs:24-34 | a question reads iff it has an end, and reading stops at that end |
| `QuestionRecord.Decoded` | src/question.rs:24-34 | a question read is its name, then the kind and the class decoded from the four bytes after the name |
| `QuestionRecord.Skip` | src/message.rs:187-196 | skipping questions never moves backwards, and stays inside the buffer |
| `QuestionRecord.SkipStep` | src/message.rs:191-193 | skipping one more question ends where that question ends |
| `QuestionRecord.SkipCons` | src/message.rs:191-193 | skipping `n + 1` questions is reading one question, then skipping `n` |
| `QuestionRecord.ReadOver` | src/question.rs:24-34 | reports whether a question reads, and moves the cursor to its end only then |
| `QuestionRecord.SkipOver` | src/message.rs:187-196 | the loop over the questions ends where `Skip` says |
| `QuestionRecord.ReadWritten` | src/question.rs:24-34 | a name followed by the bytes of a kind and a class reads as that question, with the kind after the round trip |
| `QuestionRecord.AfterName` | src/question.rs:27-31 | once the name reads, the question reads as its fields after the name |
| `QuestionRecord.FieldsWritten` | src/question.rs:28-31 | the written bytes of a kind and a class read back as those fields |
| `QuestionRecord.Questions.constructor` | src/message.rs:178-185 | the iterator starts at its first question with the given count, buffer and cursor |
| `QuestionRecord.Questions.Next` | src/question.rs:64-77 | once the count is reached, yields nothing and changes nothing; otherwise yields what `Read` reads at the cursor, and only on success advances the count and moves the cursor to the question's end |
| `AnswerRecord.ReadTtl` | src/answer.rs:15-23 | succeeds iff four bytes remain, then moves the cursor by 4 and decodes them big-endian; on failure the cursor is unchanged |
| `AnswerRecord.ReadRdata` | src/answer.rs:25-37 | succeeds iff the length prefix and that many bytes fit; yields exactly those bytes and moves past them; on failure the cursor is unchanged |
| `AnswerRecord.ReadTtlOfBytes` | src/answer.rs:15-23 | the bytes of a TTL read back as that TTL |
| `AnswerRecord.ReadRdataOfBytes` | src/answer.rs:25-37 | length-prefixed data reads back as that data |
| `AnswerRecord.Read` | src/answer.rs:40-52 | on failure the cursor is unchanged; on success the name starts at the old cursor and the cursor moves forward inside the buffer |
| `AnswerRecord.ReadFields` | src/answer.rs:44-49 | after the name, the fields end past the name inside the buffer; on failure the cursor is unchanged |
| `AnswerRecord.End` | src/answer.rs:40-52 | where an answer ends lies past its start and inside the buffer |
| `AnswerRecord.ReadEnd` | src/answer.rs:40-52 | an answer reads iff it has an end, and reading stops at that end |
| `AnswerRecord.Decoded` | src/answer.rs:40-52 | an answer read is its name, then the kind, the class, the TTL and the data decoded after the name |
| `AnswerRecord.FieldsDecoded` | src/answer.rs:44-49 | the fields after the name decode as kind, class, TTL and length-prefixed data |
| `AnswerRecord.Skip` | src/message.rs:207-216 | skipping answers never moves backwards, and stays inside the buffer |
| `AnswerRecord.SkipStep` | src/message.rs:211-213 | skipping one more answer ends where that answer ends |
| `AnswerRecord.SkipCons` | src/message.rs:211-213 | skipping `n + 1` answers is reading one answer, then skipping `n` |
| `AnswerRecord.ReadOver` | src/answer.rs:40-52 | reports whether an answer reads, and moves the cursor to its end only then |
| `AnswerRecord.SkipOver` | src/message.rs:207-216 | the loop over the answers ends where `Skip` says |
| `AnswerRecord.FieldBytes` | src/message.rs:119-122 | the fields of an answer take ten bytes plus the data, and end with the data |
| `AnswerRecord.FieldBytesParts` | src/message.rs:119-122 | the field bytes are kind, class, TTL, then the length (modulo 65536) and the data |
| `AnswerRecord.FieldsWritten` | src/answer.rs:44-49 | the written fields read back as those fields, with the kind after the round trip |
| `AnswerRecord.FieldsReadBack` | src/answer.rs:44-49 | each written field reads back on its own, at the offset where the previous one ended |
| `AnswerRecord.ReadFieldsOf` | src/answer.rs:44-49 | four field readers that succeed in turn make the answer's fields |
| `AnswerRecord.ReadWritten` | src/answer.rs:40-52 | a name followed by written fields reads as that answer, with the kind after the round trip |
| `AnswerRecord.AfterName` | src/answer.rs:43-49 | once the name reads, the answer reads as its fields after the name |
| `AnswerRecord.Answers.constructor` | src/message.rs:198-205 | the iterator starts at its first answer with the given count, buffer and cursor |
| `AnswerRecord.Answers.Next` | src/answer.rs:87-100 | once the count is reached, yields nothing and changes nothing; otherwise yields what `Read` reads at the cursor, and only on success advances the count and moves the cursor to the answer's end |
| `Messages.Splice` | src/message.rs:160-172 | inserting keeps the buffer's length |
| `Messages.SpliceAt` | src/message.rs:160-172 | byte by byte: before `i` unchanged, then the new bytes, then the old message shifted up, then the old buffer past the grown message |
| `Messages.SpliceMessage` | src/message.rs:160-172 | the grown message is the old prefix, the new bytes, then the old rest of the message |
| `Messages.SpliceTwice` | src/message.rs:160-172 | two inserts in a row, the second where the first left the cursor, are one insert of both byte strings |
| `Messages.SpliceKeepsHeader` | src/message.rs:160-172 | an insert at or after byte 12 leaves the header unchanged |
| `Messages.ParsedLen` | src/message.rs:57-76 | fails iff the buffer is outside 12..512 bytes or a counted question does not read; the length is then at least 12 and within the buffer |
| `Messages.PointerTarget` | src/message.rs:129-133 | the target found lies inside the message |
| `Messages.PointerTargetMatches` | src/message.rs:129-133 | the target starts a name whose labels equal the new name's, ignoring ASCII case |
| `Messages.PointerTargetFound` | src/message.rs:129-133 | the loop finds a target iff some counted question's name ends in the new name's labels, ignoring ASCII case: no question it reaches is missed |
| `Messages.PointerTargetFirst` | src/message.rs:129-133 | the target is what `create_pointer` finds in the first question whose name matches |
| `Messages.QuestionMatchesHere` | src/name.rs:17-36 | a question's name matches the new name iff `create_pointer` finds a target in it |
| `Messages.PointerTargetStep` | src/message.rs:129-133 | the first question's match wins; otherwise the search goes on with the next question |
| `Messages.NamesReadableStep` | src/message.rs:129 | one question further, the remaining names are still readable |
| `Messages.LabelsByteSized` | src/message.rs:136 | every label of a decoded name has a length that fits a byte |
| `Messages.NameBytesCases` | src/message.rs:128-141 | when some counted question's name ends in the new name's labels, `add_name` writes two bytes starting with a pointer byte; when none does, it writes the labels spelled out, each of a length that fits a byte |
| `Messages.SpelledQuestionBytes` | src/message.rs:106-114 | with no pointer, a question is written as its name spelled out, then its kind and class |
| `Messages.SpelledAnswerBytes` | src/message.rs:116-126 | with no pointer, an answer is written as its name spelled out, then its fields |
| `Messages.QuestionReadsBack` | src/message.rs:106-114 | a question written with its name spelled out reads back as that question, up to the MAILA/MAILB swap |
| `Messages.AnswerReadsBack` | src/message.rs:116-126 | an answer written with its name spelled out reads back as that answer, up to the MAILA/MAILB swap |
| `Messages.PointerTargetAgrees` | src/message.rs:129-133 | the target found does not change when bytes outside the question section change |
| `Messages.TargetKept` | src/message.rs:129-133 | the target lies inside the question section and keeps its labels in any buffer that keeps that section |
| `Messages.NameAdded` | src/message.rs:128-141 | what `add_name` writes after the question section reads back as a name with the new name's labels, ignoring ASCII case, exactly when spelled out, and ends where the written bytes end |
| `Messages.QuestionsAgree` | src/message.rs:187-196 | the questions read the same and end at the same offset when bytes outside them change |
| `Messages.BareHeaderSections` | src/message.rs:49-55 | a header counting no records has empty question and answer sections |
| `Messages.QuestionSectionEnds` | src/message.rs:187-196 | the question section's end is where `questions_end` stops, and every question name there can be walked label by label |
| `Messages.SectionsEnd` | src/message.rs:207-216 | the answer section's end is where `answers_end` stops |
| `Messages.RewrittenParts` | src/message.rs:106-126 | a rewritten message reads its new header and holds the inserted bytes at the insertion point, with everything else shifted |
| `Messages.QuestionAdded` | src/message.rs:106-114 | after a question's bytes go in at the end of the questions and the count grows by one, the question section ends just past it; it reads back as that question, up to the MAILA/MAILB swap, with the name's labels equal ignoring ASCII case, exactly equal when spelled out |
| `Messages.AnswerAdded` | src/message.rs:116-126 | the same for an answer: the sections end just past it, and it reads back with its kind (up to the swap), class, TTL and data |
| `Messages.WithQuestionReadsBack` | src/message.rs:106-114 | the message `add_question` makes counts one more question, keeps every other header field, and the new question reads back as `QuestionAdded` says; every answer section after the questions whose answer names read nothing in it (`AnswersPointBack`) now lies as many bytes further up as the question took, its answers read back with the same kind, class, TTL and data, and their names still read nothing in it (`AnswersKeptMoved`) |
| `Messages.WithAnswerReadsBack` | src/message.rs:116-126 | the message `add_answer` makes counts one more answer, keeps every other header field, and the new answer reads back as `AnswerAdded` says; if no answer name read anything in the answer section before, none does after, the new one included |
| `Messages.WithQuestionShifted` | src/message.rs:106-114 | past the 12-byte header, `add_question` keeps the questions in place, moves everything past it up by the question's length, ends the question section past the new question and counts the same answers |
| `Messages.ShiftKeepsAllAnswers` | src/message.rs:106-114 | with the bytes past the questions moved up by `d` and a question section ending `d` further up, every answer section whose names point back is kept, moved (`AnswersKeptMoved`) |
| `Messages.ShiftKeepsAnswers` | src/message.rs:106-114 | the same for one answer section ending at `aend`: it ends at `aend + d`, its names still point back, and each answer reads back with the same fields |
| `Messages.QuestionKeepsAnswers` | src/message.rs:106-114 | the same, given the bytes up to the answers' end shifted |
| `Messages.AnswersShift` | src/message.rs:207-216 | answers whose names read nothing past `at` still read one after another once bytes are inserted at `at`, end as many bytes further up, keep that shape, and each reads back the same fields |
| `Messages.AnswerKeepsPointBack` | src/message.rs:116-126 | inserting an answer written by `add_answer` at the end of the answers keeps every answer name, the new one included, reading nothing in the answer section |
| `AnswerRecord.ReadMoved` | src/answer.rs:40-52 | an answer whose name reads nothing past `at` reads back from `d` places up, once `d` bytes are inserted at `at`, with the same kind, class, TTL and data and the same end moved by `d` |
| `Names.NameShift` | src/name.rs:55-98 | a name reading nothing past `at` decodes after `d` bytes are inserted at `at` exactly when it did before, follows the same pointers, and ends `d` bytes further up |
| `Messages.EncodePrefix` | src/message.rs:135-138 | spelling out one more label appends its length byte and bytes |
| `Messages.EncodeFirstStep` | src/message.rs:135-138 | the same, for the bytes written so far |
| `Messages.EncodeFirstPrefix` | src/message.rs:135-138 | the bytes written so far are the first labels spelled out, always short of the whole name |
| `Messages.NextLabelBytes` | src/message.rs:135-138 | the label the iterator hands out extends the bytes written so far by its length byte and bytes |
| `Messages.Message.constructor` | src/message.rs:15-18 | a message of `len` bytes over the buffer |
| `Messages.Message.AsBytes` | src/message.rs:174-176 | the message is the first `len` bytes of the buffer |
| `Messages.Message.Header` | src/message.rs:98-100 | the header is the buffer's first 12 bytes |
| `Messages.Message.WriteHeader` | src/message.rs:102-104 | storing a header replaces the first 12 bytes and nothing else; the header reads back |
| `Messages.Message.Builder` | src/message.rs:49-55 | the first 12 bytes become zero, the rest of the buffer is unchanged; the header is the one a new builder builds; the length is 12 |
| `Messages.Message.Parse` | src/message.rs:57-76 | fails iff `ParsedLen` fails; otherwise a message over the same buffer with the length `ParsedLen` gives |
| `Messages.Message.QuestionsEnd` | src/message.rs:187-196 | the offset after the counted questions, as `Skip` computes it, inside the message |
| `Messages.Message.AnswersEnd` | src/message.rs:207-216 | the offset after the counted answers that follow the questions, inside the message |
| `Messages.Message.Questions` | src/message.rs:178-185 | an iterator over the message's bytes, at byte 12, with the header's question count |
| `Messages.Message.Answers` | src/message.rs:198-205 | an iterator over the message's bytes, at the end of the questions, with the header's answer count |
| `Messages.Message.Insert` | src/message.rs:160-172 | the buffer becomes the splice of the bytes at `i`; the length and the cursor grow by their count |
| `Messages.Message.AddQuestion` | src/message.rs:106-114 | the header counts one more question, and the message becomes `WithQuestion` of the old one: the question's bytes spliced in at the end of the questions, so it, and the answers after it, read back as `WithQuestionReadsBack` says; the buffer past the message is unchanged |
| `Messages.Message.InsertQuestion` | src/message.rs:107-110 | the name, kind and class inserted in turn make one splice of the question's bytes; the header is unchanged |
| `Messages.Message.AddKindAndClass` | src/message.rs:109-110 | the kind and class bytes are spliced in, four bytes |
| `Messages.Message.CountQuestion` | src/message.rs:112-113 | only the header changes, and it counts one more question |
| `Messages.Message.AddAnswer` | src/message.rs:116-126 | the header counts one more answer, and the message becomes `WithAnswer` of the old one: the answer's bytes spliced in at the end of the answers, so it reads back as `WithAnswerReadsBack` says; the buffer past the message is unchanged |
| `Messages.Message.InsertAnswer` | src/message.rs:117-122 | the name and fields inserted in turn make one splice of the answer's bytes; the header is unchanged |
| `Messages.Message.AddFields` | src/message.rs:119-122 | the kind, class, TTL and data inserted in turn make one splice of the field bytes |
| `Messages.Message.AddTtlAndRdata` | src/message.rs:121-122 | the TTL, the data length modulo 65536 and the data are spliced in |
| `Messages.Message.CountAnswer` | src/message.rs:124-125 | only the header changes, and it counts one more answer |
| `Messages.Message.AddName` | src/message.rs:128-141 | splices in exactly what `NameBytes` says: a pointer to the first matching question name, or the labels spelled out |
| `Messages.Message.PointerFor` | src/message.rs:129-133 | the pointer bytes to `PointerTarget`, or none when no question name matches |
| `Messages.Message.InsertLabel` | src/message.rs:136-137 | one label's raw length byte and bytes are spliced in |
| `Messages.Message.InsertLabels` | src/message.rs:135-138 | the labels inserted one by one make one splice of all of them spelled out |
| `Messages.Message.AddKind` | src/message.rs:143-145 | the kind's two bytes are spliced in |
| `Messages.Message.AddClass` | src/message.rs:147-149 | the class's two bytes are spliced in |
| `Messages.Message.AddTtl` | src/message.rs:151-153 | the TTL's four big-endian bytes are spliced in |
| `Messages.Message.AddRdata` | src/message.rs:155-158 | the data length modulo 65536, big-endian, then the data are spliced in |
| `Messages.MessageBuilder.constructor` | src/message.rs:22-25 | a builder over the buffer with the given length |
| `Messages.MessageBuilder.Header` | src/message.rs:28-34 | the first 12 bytes become the header's and the rest is unchanged; the header reads back; the length is 12 |
| `Messages.MessageBuilder.Build` | src/message.rs:40-43 | a message over the same buffer with the same length |
| `NameExamples.AbcAt0` | src/name.rs:258 | the name `a.b.c` decodes to its three one-letter labels |
| `NameExamples.CreatePointerExampleSelf` | src/name.rs:263 | a name finds itself at offset 0, pointer `0xC0 0` |
| `NameExamples.LowerMatchesUpper` | src/name.rs:264-265 | `a.b.c` and `A.B.C` are equal labels both ways |
| `NameExamples.CreatePointerExamplesCase` | src/name.rs:264-265 | the upper- and lower-case names find each other at offset 0 |
| `NameExamples.CreatePointerExampleBcInAbc` | src/name.rs:266 | `b.c` is found in `a.b.c` at offset 2, pointer `0xC0 2` |
| `NameExamples.CreatePointerExampleCInBc` | src/name.rs:268 | `c` is found in `b.c` at offset 2 |
| `NameExamples.CreatePointerExampleCInAbc` | src/name.rs:269 | `c` is found in `a.b.c` at offset 4, pointer `0xC0 4` |
| `NameExamples.CreatePointerExamplesNone` | src/name.rs:267-271 | a longer name is never found in a shorter one |
| `MessageExamples.CaptiveEncoding` | tests/main.rs:10-13 | the test's name bytes spell out captive, apple, com |
| `MessageExamples.CaptiveQuestionAt` | tests/main.rs:10-15 | those bytes at offset 12 read as one question for captive.apple.com, kind A, class IN, ending at 35 |
| `MessageExamples.CaptiveQuestionCount` | tests/main.rs:82-86 | the test header counts one question |
| `MessageExamples.CaptiveParsedLen` | tests/main.rs:26-31 | parsing the 48-byte query, padding included, gives length 35 |
| `MessageExamples.CaptivePrefix` | tests/main.rs:3-15 | the first 35 bytes of the test query are its header, the spelled-out name, then the kind and class bytes |
| `MessageExamples.BuiltCaptive` | src/message.rs:106-114 | adding the captive.apple.com question, kind A and class IN, to a bare header that builds to the test's header gives the first 35 bytes of the test query |
| `MessageExamples.CaptiveQueryParses` | src/message.rs:57-76 | those 35 bytes parse with length 35 |
| `MessageExamples.BuildCaptive` | src/message.rs:22-55 | a builder with id 7932 and recursion desired, then `add_question`, writes the 35 bytes of the test query into the buffer, and they parse back with that length |
| `MessageExamples.CaptiveAnswerPointsBack` | src/message.rs:128-141 | in the test query, `add_name` writes a name whose labels equal captive, apple, com (ignoring ASCII case) as the pointer `0xC0 12` to the question's name |
| `MessageExamples.CaptiveNameComparisons` | tests/main.rs:114-118 | the name equals `captive.apple.com` in either case, and not the strings with a leading dot, a trailing dot or dashes |
| `MessageExamples.ParseCaptive` | tests/main.rs:106-134 | parsing gives length 35, `as_bytes` is the first 35 bytes, and the questions iterator yields that one question and then nothing |

## Left out

- Error kinds: `Error::MessageTooShort` and the `()` error of `parse` both
  become `None`. The model tells success from failure, not one error from
  another.
- Display and Debug for names, messages, headers and records, together
  with `Label::as_str`, produce text only and are not modelled.
  `Name::from_bytes` exists only for the tests and is used in its place.
- `Message::BUFFER`, `MessageBuffer` and `Deref` for `Message` are constants
  and a borrow. They are not modelled.
- The `unsafe` header casts (`header`, `header_mut`) are modelled as reading
  and writing the first 12 bytes of the buffer. The aliasing between the
  cast header and the buffer is not modelled.
- Names.Labels.Next: the iterator is only specified on a cursor where a
  name decodes. The source's iterator has no cycle guard, and on other
  bytes it can loop forever; the model does not cover that behaviour.
- Messages.Message.Insert: requires `i <= len` and room in the buffer.
  Every caller in the source inserts at a cursor inside the message, so
  `i <= len` holds at each call. Without room in the buffer the source
  panics on an out-of-range slice index. For `i > len` with room, the
  source's shifting loop does nothing, the bytes land at `i`, and the
  length still grows by their count. The message then ends in whatever
  the buffer held past the old length, with the new bytes partly or
  wholly beyond it. The model does not cover that case.
- Messages.Message.AddQuestion and Messages.Message.AddAnswer: require
  the count to be below 65535, because the source's `+ 1` overflows there
  (a panic in debug builds, a wrap in release builds). They also require
  the message to be at most 16384 bytes, so that every pointer target fits
  in 14 bits.
- Names.Name.CreatePointer: requires the buffer to be at most 16384
  bytes. The source casts the offset with `as u16` and ORs in the flag
  bits, which would corrupt larger offsets. That case is not modelled.
- Messages.Message.QuestionsEnd and Messages.Message.AnswersEnd: require
  the counted records to decode. The source asserts each read and panics
  otherwise.
- Messages.Message.AddName and Messages.Message.PointerFor: require every
  question name the iterator reaches to be walkable label by label, that
  is, every label's bytes in the buffer. On a name that decodes but whose
  raw length byte points past the buffer, `Label::as_bytes` panics
  slicing it. `Messages.PointerTarget` finds no target at a name it cannot
  walk.
- Names.Name.EqualFrom, Names.Name.CreatePointer, Names.Name.EqStr,
  Names.Name.Split and Names.PointerSearch: cover only names whose labels
  can all be sliced out of the buffer. Some names decode but cannot be: in
  the bytes `0x41 0x61 0`, the length byte `0x41` keeps 1 as its length
  (`LenBits`), but `as_bytes` slices 65 bytes. On such names the source
  returns false or none, or panics in `as_bytes`. The model does not
  describe those outcomes.
- Messages.Message.Builder and Messages.MessageBuilder.Header: require a
  buffer of at least 12 bytes. The source panics slicing `buf[..HEADER_SIZE]`
  on a shorter one.
- Messages.QuestionReadsBack and Messages.AnswerReadsBack: the read-back
  is proved for names written out in full, with labels of 1 to 63 bytes
  whose lengths add up to at most 255. A name written as a compression
  pointer reads back through `Messages.QuestionAdded` and
  `Messages.WithQuestionReadsBack` (and their answer counterparts), up to
  ASCII case. Spelled out, a name with a label of 64 bytes or more does
  not read back, since its length byte reads as something else; those
  lemmas require the labels to be found among the questions or to be 1 to
  63 bytes long.
- Messages.Message.AddQuestion and Messages.Message.AddAnswer are proved
  through helper methods for the separate inserts (`InsertQuestion`,
  `AddKindAndClass`, `CountQuestion`, `InsertAnswer`, `AddFields`,
  `AddTtlAndRdata`, `CountAnswer`). The result is the same sequence of
  inserts as in the source.
- Messages.WithQuestionReadsBack: states what happens to the answers only
  when no answer name reads anything at or past the end of the questions
  (`AnswersPointBack`), which holds for every answer `add_answer` writes.
  `add_question` does not adjust compression pointers, so an answer name
  from elsewhere that points into the answer section would read other
  bytes after the insert. The model does not describe what it reads then.
- Names.Name.Split: requires the name to have at least one label. The
  source calls `unwrap` on the first label.
- Iterator adaptors beyond `next` (`for` loops, `map`, `ok()?`) appear only
  through `next`.
