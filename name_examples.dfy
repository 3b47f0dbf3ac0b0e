/** The crate's own unit test for the compression search, stated about the
    model: four small names, each alone in its buffer. */
module NameExamples {
  import opened Wire
  import opened Names

  /** The names a.b.c, A.B.C, b.c and c, each alone in its own buffer. */
  const ABC: seq<u8> := [1, 97, 1, 98, 1, 99, 0]
  const ABC_UPPER: seq<u8> := [1, 65, 1, 66, 1, 67, 0]
  const BC: seq<u8> := [1, 98, 1, 99, 0]
  const C: seq<u8> := [1, 99, 0]

  /** a.b.c read from offset 0. */
  lemma AbcAt0()
    ensures Readable(ABC, 0) && LabelsFrom(ABC, 0) == [0, 2, 4] && Contents(ABC, [0, 2, 4]) == [[97], [98], [99]]
  {
    assert ABC[0..7] == Encode([[97], [98], [99]]);
    LiteralName(ABC, 0, [[97], [98], [99]]);
  }

  /** Its tail b.c, read from offset 2. */
  lemma AbcAt2()
    ensures Readable(ABC, 2) && LabelsFrom(ABC, 2) == [2, 4] && Contents(ABC, [2, 4]) == [[98], [99]]
  {
    assert ABC[2..7] == Encode([[98], [99]]);
    LiteralName(ABC, 2, [[98], [99]]);
  }

  /** Its tail c, read from offset 4. */
  lemma AbcAt4()
    ensures Readable(ABC, 4) && LabelsFrom(ABC, 4) == [4] && Contents(ABC, [4]) == [[99]]
  {
    assert ABC[4..7] == Encode([[99]]);
    LiteralName(ABC, 4, [[99]]);
  }

  /** A.B.C read from offset 0. */
  lemma AbcUpperAt0()
    ensures Readable(ABC_UPPER, 0) && LabelsFrom(ABC_UPPER, 0) == [0, 2, 4] && Contents(ABC_UPPER, [0, 2, 4]) == [[65], [66], [67]]
  {
    assert ABC_UPPER[0..7] == Encode([[65], [66], [67]]);
    LiteralName(ABC_UPPER, 0, [[65], [66], [67]]);
  }

  /** b.c read from offset 0. */
  lemma BcAt0()
    ensures Readable(BC, 0) && LabelsFrom(BC, 0) == [0, 2] && Contents(BC, [0, 2]) == [[98], [99]]
  {
    assert BC[0..5] == Encode([[98], [99]]);
    LiteralName(BC, 0, [[98], [99]]);
  }

  /** Its tail c, read from offset 2. */
  lemma BcAt2()
    ensures Readable(BC, 2) && LabelsFrom(BC, 2) == [2] && Contents(BC, [2]) == [[99]]
  {
    assert BC[2..5] == Encode([[99]]);
    LiteralName(BC, 2, [[99]]);
  }

  /** c read from offset 0. */
  lemma CAt0()
    ensures Readable(C, 0) && LabelsFrom(C, 0) == [0] && Contents(C, [0]) == [[99]]
  {
    assert C[0..3] == Encode([[99]]);
    LiteralName(C, 0, [[99]]);
  }

  /** From the crate's unit test: a.b.c matches itself at offset 0. */
  lemma CreatePointerExampleSelf()
    ensures Readable(ABC, 0)
    ensures PointerSearch(ABC, 0, Name(ABC, 0)) == Some(0)
    ensures PointerBytes(0) == [0xC0, 0]
  {
    AbcAt0();
  }

  /** From the crate's unit test: matching ignores case on either side. */
  lemma CreatePointerExamplesCase()
    ensures Readable(ABC, 0) && Readable(ABC_UPPER, 0)
    ensures PointerSearch(ABC_UPPER, 0, Name(ABC, 0)) == Some(0)
    ensures PointerSearch(ABC, 0, Name(ABC_UPPER, 0)) == Some(0)
  {
    AbcAt0();
    AbcUpperAt0();
    LowerMatchesUpper();
  }

  /** a.b.c and A.B.C have equal labels, ignoring case, either way round. */
  lemma LowerMatchesUpper()
    ensures EqualLabels([[97], [98], [99]], [[65], [66], [67]])
    ensures EqualLabels([[65], [66], [67]], [[97], [98], [99]])
  {
    SingleByteLabels(97, 65);
    SingleByteLabels(98, 66);
    SingleByteLabels(99, 67);
    var lower: seq<seq<u8>> := [[97], [98], [99]];
    var upper: seq<seq<u8>> := [[65], [66], [67]];
    assert forall k :: 0 <= k < 3 ==> EqIgnoreAsciiCase(lower[k], upper[k]) && EqIgnoreAsciiCase(upper[k], lower[k]);
  }

  /** From the crate's unit test: b.c is found in a.b.c at offset 2. */
  lemma CreatePointerExampleBcInAbc()
    ensures Readable(ABC, 0) && Readable(BC, 0)
    ensures PointerSearch(ABC, 0, Name(BC, 0)) == Some(2)
    ensures PointerBytes(2) == [0xC0, 2]
  {
    AbcAt0();
    AbcAt2();
    BcAt0();
    assert AfterFirst(ABC, 0) == 2;
    SingleByteLabels(97, 98);
  }

  /** From the crate's unit test: c is found in b.c at offset 2. */
  lemma CreatePointerExampleCInBc()
    ensures Readable(BC, 0) && Readable(C, 0)
    ensures PointerSearch(BC, 0, Name(C, 0)) == Some(2)
  {
    BcAt0();
    BcAt2();
    CAt0();
    assert AfterFirst(BC, 0) == 2;
  }

  /** From the crate's unit test: c is found in a.b.c at offset 4. */
  lemma CreatePointerExampleCInAbc()
    ensures Readable(ABC, 0) && Readable(C, 0)
    ensures PointerSearch(ABC, 0, Name(C, 0)) == Some(4)
    ensures PointerBytes(4) == [0xC0, 4]
  {
    AbcAt0();
    AbcAt2();
    AbcAt4();
    CAt0();
    assert AfterFirst(ABC, 0) == 2 && AfterFirst(ABC, 2) == 4;
  }

  /** From the crate's unit test: a shorter name never contains a longer
      one, and c does not contain b.c. */
  lemma CreatePointerExamplesNone()
    ensures Readable(ABC, 0) && Readable(BC, 0) && Readable(C, 0)
    ensures PointerSearch(BC, 0, Name(ABC, 0)) == None
    ensures PointerSearch(C, 0, Name(ABC, 0)) == None
    ensures PointerSearch(C, 0, Name(BC, 0)) == None
  {
    AbcAt0();
    BcAt0();
    CAt0();
    PointerSearchFindsFirstSuffix(BC, 0, Name(ABC, 0));
    PointerSearchFindsFirstSuffix(C, 0, Name(ABC, 0));
    PointerSearchFindsFirstSuffix(C, 0, Name(BC, 0));
  }

  /** Two one-byte labels match exactly when their bytes agree after lower-casing. */
  lemma SingleByteLabels(a: u8, b: u8)
    ensures EqIgnoreAsciiCase([a], [b]) <==> AsciiLower(a) == AsciiLower(b)
  {
    assert [a][0] == a && [b][0] == b;
  }
}
