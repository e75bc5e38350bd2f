/** The compressor and the decompressor, from bytes to bytes. */
module HuffmanCodec {
  import opened BitStreams
  import opened HuffmanTrees
  import opened HuffmanForests
  import opened HuffmanBuild
  import opened HuffmanCodes
  import opened HuffmanFile
  import opened HuffmanQuality

  // ----- The frequency table of a text -----

  lemma {:induction false} OccursCounts(text: seq<Byte>, c: Byte)
    ensures c in text <==> CountIn(text, c) > 0
  {
    if text != [] {
      OccursCounts(text[..|text| - 1], c);
    }
  }

  lemma {:induction false} SumOneMore(f: Table, g: Table, c: Byte, i: nat)
    requires g == f[c := f[c] + 1]
    ensures SumFrom(g, i) == SumFrom(f, i) + if i <= c then 1 else 0
    decreases 256 - i
  {
    if i < 256 {
      SumOneMore(f, g, c, i + 1);
    }
  }

  lemma {:induction false} SumOfNothing(i: nat)
    ensures SumFrom(FreqTable([]), i) == 0
    decreases 256 - i
  {
    if i < 256 {
      SumOfNothing(i + 1);
    }
  }

  /** The table counts every byte of the text once. */
  lemma {:induction false} TableSum(text: seq<Byte>)
    ensures SumFrom(FreqTable(text), 0) == |text|
  {
    if text == [] {
      SumOfNothing(0);
    } else {
      var front, last := text[..|text| - 1], text[|text| - 1];
      assert text == front + [last];
      TableSum(front);
      CountOneMore(front, last);
      SumOneMore(FreqTable(front), FreqTable(text), last, 0);
    }
  }

  lemma {:induction false} NoneOccur(f: Table, i: nat)
    requires Distinct(f, i) == 0
    ensures SumFrom(f, i) == 0
    decreases 256 - i
  {
    if i < 256 {
      NoneOccur(f, i + 1);
    }
  }

  lemma {:induction false} SomeOccur(f: Table, i: nat)
    requires SumFrom(f, i) == 0
    ensures Distinct(f, i) == 0
    decreases 256 - i
  {
    if i < 256 {
      SomeOccur(f, i + 1);
    }
  }

  /** First pass: counting. */
  method CountFrequencies(text: seq<Byte>) returns (freqs: Table, totalChars: nat)
    ensures freqs == FreqTable(text) && totalChars == |text|
  {
    freqs, totalChars := seq(256, _ => 0), 0;
    assert freqs == FreqTable([]);
    for i := 0 to |text|
      invariant freqs == FreqTable(text[..i]) && totalChars == i
    {
      CountOneMore(text[..i], text[i]);
      assert text[..i + 1] == text[..i] + [text[i]];
      freqs := freqs[text[i] := freqs[text[i]] + 1];
      totalChars := totalChars + 1;
    }
    assert text[..|text|] == text;
  }

  // ----- The tree serves the text -----

  /** What the tree builder promises for a text that is not empty. */
  ghost predicate IsTreeFor(root: Tree, f: Table) {
    || (Distinct(f, 0) >= 2 && IsHuffman(root, f))
    || (Distinct(f, 0) == 1 && exists c: Byte :: IsSingle(root, f, c))
  }

  lemma SingleServes(root: Tree, f: Table, s: Byte, c: Byte)
    requires Distinct(f, 0) == 1 && IsSingle(root, f, s) && f[c] > 0
    ensures Leads(root, CodeTable(root)[c], c)
  {
    if c != s {
      RankBound(f, 0, if c < s then c else s);
      RankBound(f, c, if c < s then s else 256);
      RankBound(f, s, if s < c then c else 256);
    }
    assert Proper(root.left) && Proper(root.right);
    CodesLead(root, [], NoCodes(), c);
    assert CodeTable(root)[c][0..] == CodeTable(root)[c];
  }

  /** The tree for a text's table, with the codes read off it, serves the text. */
  lemma TreeServes(root: Tree, text: seq<Byte>)
    requires text != [] && IsTreeFor(root, FreqTable(text))
    ensures Serves(root, CodeTable(root), text) && TreeHeight(root) <= 255
  {
    var f := FreqTable(text);
    forall c | c in text
      ensures f[c] > 0
    {
      OccursCounts(text, c);
    }
    assert f[text[0]] > 0;
    if Distinct(f, 0) >= 2 {
      HuffmanWord(root, f, text[0]);
      CodeLengthBound(root, f, text[0]);
      forall c | c in text
        ensures Leads(root, CodeTable(root)[c], c)
      {
        HuffmanWord(root, f, c);
      }
    } else {
      var s: Byte :| IsSingle(root, f, s);
      forall c | c in text
        ensures Leads(root, CodeTable(root)[c], c)
      {
        SingleServes(root, f, s, c);
      }
    }
  }

  // ----- Compression -----

  /** Eight bytes, most significant first. */
  method WriteSize(totalChars: nat) returns (out: seq<Byte>)
    ensures out == BigEndian(totalChars, 8)
  {
    out := [];
    var i := 8;
    while i > 0
      invariant 0 <= i <= 8 && out == BigEndian(totalChars, 8)[..8 - i]
    {
      i := i - 1;
      ShiftReadsByte(totalChars, 8, i);
      out := out + [totalChars / Pow2(8 * i) % 256];
    }
  }

  /** One code word, bit by bit. */
  method WriteWord(bw: BitWriter, word: seq<bool>)
    requires bw.Valid()
    modifies bw
    ensures bw.Valid() && bw.Bits() == old(bw.Bits()) + word
  {
    for i := 0 to |word|
      invariant bw.Valid() && bw.Bits() == old(bw.Bits()) + word[..i]
    {
      bw.WriteBit(word[i]);
      assert word[..i + 1] == word[..i] + [word[i]];
    }
    assert word[..|word|] == word;
  }

  /** Second pass: the code words of the text. */
  method WritePayload(bw: BitWriter, codeTable: Codes, text: seq<Byte>)
    requires bw.Valid()
    modifies bw
    ensures bw.Valid() && bw.Bits() == old(bw.Bits()) + Encode(codeTable, text)
  {
    assert text[..0] == [];
    for k := 0 to |text|
      invariant bw.Valid() && bw.Bits() == old(bw.Bits()) + Encode(codeTable, text[..k])
    {
      WriteWord(bw, codeTable[text[k]]);
      EncodeOneMore(codeTable, text, k);
    }
    assert text[..|text|] == text;
  }

  lemma EncodeOneMore(code: Codes, text: seq<Byte>, k: nat)
    requires k < |text|
    ensures Encode(code, text[..k + 1]) == Encode(code, text[..k]) + code[text[k]]
  {
    assert text[..k + 1] == text[..k] + [text[k]];
    EncodeAppend(code, text[..k], [text[k]]);
    assert Encode(code, [text[k]]) == code[text[k]];
  }

  /** Header bits and payload bits share one bit stream. */
  method WriteBody(root: Tree, codes: Codes, text: seq<Byte>) returns (body: seq<Byte>)
    ensures IsPacked(Serialize(root) + Encode(codes, text), body)
  {
    var bw := new BitWriter();
    SerializeTreePreorder(root, bw);
    WritePayload(bw, codes, text);
    assert bw.Bits() == Serialize(root) + Encode(codes, text);
    bw.Flush();
    body := bw.out;
  }

  function CeilDiv8(n: nat): nat {
    (n + 7) / 8
  }

  lemma BodySize(root: Tree, codes: Codes, text: seq<Byte>, body: seq<Byte>)
    requires Proper(root) && IsPacked(Serialize(root) + Encode(codes, text), body)
    ensures Leaves(root) >= 1
    ensures |body| == CeilDiv8(10 * Leaves(root) - 1 + PayloadBits(FreqTable(text), codes, 256))
  {
    SerializedLength(root);
    EncodedLength(codes, text);
  }

  /** What the compressor writes for a text that is not empty. */
  ghost predicate IsCompressed(file: seq<Byte>, text: seq<Byte>, root: Tree, codes: Codes) {
    && IsTreeFor(root, FreqTable(text))
    && codes == CodeTable(root)
    && Leaves(root) >= 1
    && |file| == 12 + CeilDiv8(10 * Leaves(root) - 1 + PayloadBits(FreqTable(text), codes, 256))
  }

  method CompressFile(text: seq<Byte>) returns (file: seq<Byte>, root: Tree, codes: Codes)
    ensures Stores(file, text, root, codes)
    ensures HasMagic(file) && |file| >= 12 && (|text| < Pow2(64) ==> SizeField(file) == |text|)
    ensures text == [] ==> root == Nil && |file| == 12
    ensures text != [] ==> IsCompressed(file, text, root, codes)
  {
    var freqs, totalChars := CountFrequencies(text);
    var distinctCount;
    root, distinctCount := BuildHuffmanTree(freqs);
    TableSum(text);
    if text == [] {
      SomeOccur(freqs, 0);
    } else {
      if distinctCount == 0 {
        NoneOccur(freqs, 0);
      }
      TreeServes(root, text);
    }
    codes := CodesFor(root);
    var size := WriteSize(totalChars);
    file := MAGIC + size;
    assert file[..12] == file;
    if totalChars > 0 {
      var body := WriteBody(root, codes, text);
      BodySize(root, codes, text, body);
      file := file + body;
      assert file[12..] == body && file[..12] == MAGIC + size;
    }
    StoredHeader(file, |text|);
  }

  method CodesFor(root: Tree) returns (codes: Codes)
    requires TreeHeight(root) <= 255
    ensures codes == CodeTable(root)
  {
    var codeTable := new seq<bool>[256](_ => []);
    GenerateCodes(root, codeTable);
    codes := codeTable[..];
  }

  // ----- Decompression -----

  /** The big-endian size field. */
  method ReadSize(field: seq<Byte>) returns (size: nat)
    ensures size == FromBigEndian(field)
  {
    size := 0;
    for i := 0 to |field|
      invariant size == FromBigEndian(field[..i])
    {
      size := 256 * size + field[i];
      assert field[..i + 1][..i] == field[..i];
    }
    assert field[..|field|] == field;
  }

  /** The decoding loop: walks the tree bit by bit until the stored number of bytes is out. */
  method DecodePayload(br: BitReader, root: Tree, origSize: nat) returns (out: seq<Byte>)
    requires br.Valid() && root.Node? && !IsLeaf(root)
    modifies br
    ensures out == Decode(root, root, old(br.Remaining()), origSize)
  {
    out := [];
    var curr := root;
    while |out| < origSize
      invariant br.Valid() && curr.Node? && |out| <= origSize
      invariant out + Decode(root, curr, br.Remaining(), origSize - |out|)
        == Decode(root, root, old(br.Remaining()), origSize)
      decreases |br.Remaining()|
    {
      var bit := br.ReadBit();
      if bit == -1 {
        break;
      }
      var next := if bit == 0 then curr.left else curr.right;
      if next.Nil? {
        break;
      }
      curr := next;
      if IsLeaf(curr) {
        out := out + [curr.data];
        curr := root;
      }
    }
  }

  /** Any file: the stored text, or the error that is reported. */
  method DecompressFile(file: seq<Byte>) returns (r: Result)
    ensures r == Decompressed(file) && Answers(file, r)
  {
    DecompressedAnswers(file);
    if |file| < 4 || file[..4] != MAGIC {
      return Err(NotHuf);
    }
    if |file| < 12 {
      return Err(NoSize);
    }
    var origSize := ReadSize(file[4..12]);
    if origSize == 0 {
      return Ok([]);
    }
    var br := new BitReader(file[12..]);
    var root := DeserializeTreePreorder(br);
    if root.Nil? {
      return Err(NoTree);
    }
    if IsLeaf(root) {
      return Ok(seq(origSize, _ => root.data));
    }
    var out := DecodePayload(br, root, origSize);
    return Ok(out);
  }

  /** The automated demonstration: compress, decompress, compare. It always passes. */
  method RunAutomatedDemo(text: seq<Byte>) returns (file: seq<Byte>, restored: seq<Byte>, identical: bool)
    requires |text| < Pow2(64)
    ensures HasMagic(file) && |file| >= 12 && SizeField(file) == |text| && Decompressed(file) == Ok(restored)
    ensures identical && restored == text
  {
    restored, identical := [], false;
    var root, codes;
    file, root, codes := CompressFile(text);
    RoundTrip(file, text, root, codes);
    var r := DecompressFile(file);
    if r.Ok? {
      restored := r.text;
      identical := restored == text;
    }
  }
}
