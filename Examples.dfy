/** Concrete vectors: the documented renderings and index mappings. */
module BitwiseExamples {
  import opened Bitwise

  lemma ByteFiveText()
    ensures ByteText(5) == "00000101"
  {
  }

  /** In [0x01, 0x00] global bit 8 is the low bit of element 0 and bit 0 the
      low bit of element 1. */
  lemma TwoByteIndexing()
    ensures IsSetIn(8, [1, 0])
    ensures !IsSetIn(0, [1, 0])
    ensures WithSet([0, 0], 8) == [1, 0]
  {
  }

  lemma TwoByteRendering()
    ensures Render([0x0A, 0xFF], ",", "", 0) == "00001010,11111111"
  {
    var v: seq<bv8> := [0x0A, 0xFF];
    assert Render(v, ",", "", 0) == RenderPrefix(v, 1, ",", "", 0) + ByteText(0xFF);
    assert RenderPrefix(v, 1, ",", "", 0) == ByteText(0x0A) + ",";
    TwoByteTexts();
  }

  lemma TwoByteTexts()
    ensures ByteText(0x0A) == "00001010" && ByteText(0xFF) == "11111111"
  {
  }

  /** With groups of two, the group separator follows element 0 (two elements
      still to come) and the byte separator follows element 1. */
  lemma GroupedRendering()
    ensures Render([1, 2, 3], ",", ";", 2) == "00000001;00000010,00000011"
  {
    var v: seq<bv8> := [1, 2, 3];
    assert Render(v, ",", ";", 2) == RenderPrefix(v, 2, ",", ";", 2) + ByteText(3);
    GroupedPrefixes();
    SmallTexts();
  }

  lemma GroupedPrefixes()
    ensures RenderPrefix([1, 2, 3], 2, ",", ";", 2) == "00000001;00000010,"
  {
    var v: seq<bv8> := [1, 2, 3];
    assert RenderPrefix(v, 2, ",", ";", 2) == RenderPrefix(v, 1, ",", ";", 2) + ByteText(2) + ",";
    assert RenderPrefix(v, 1, ",", ";", 2) == ByteText(1) + ";";
    SmallTexts();
  }

  lemma SmallTexts()
    ensures ByteText(1) == "00000001" && ByteText(2) == "00000010" && ByteText(3) == "00000011"
  {
  }
}
