/** The .huf file format: compressing a text into it and getting the text back. */
module HuffmanFile {
  import opened BitStreams
  import opened HuffmanTrees
  import opened HuffmanBuild
  import opened HuffmanCodes

  const MAGIC: seq<Byte> := [72, 85, 70, 49]

  datatype Error = NotHuf | NoSize | NoTree

  datatype Result = Ok(text: seq<Byte>) | Err(error: Error)

  // ----- The size field -----

  /** The n low bytes of v, most significant first. */
  function BigEndian(v: nat, n: nat): (s: seq<Byte>)
    ensures |s| == n
  {
    if n == 0 then [] else BigEndian(v / 256, n - 1) + [v % 256]
  }

  function FromBigEndian(s: seq<Byte>): nat {
    if s == [] then 0 else 256 * FromBigEndian(s[..|s| - 1]) + s[|s| - 1]
  }

  lemma {:induction false} FromBigEndianInverts(v: nat, n: nat)
    requires v < Pow2(8 * n)
    ensures FromBigEndian(BigEndian(v, n)) == v
  {
    if n > 0 {
      Pow2Byte(n - 1);
      FromBigEndianInverts(v / 256, n - 1);
      assert BigEndian(v, n)[..n - 1] == BigEndian(v / 256, n - 1);
    }
  }

  lemma Pow2Byte(n: nat)
    ensures Pow2(8 * n + 8) == 256 * Pow2(8 * n)
  {
    var m := 8 * n;
    assert Pow2(m + 8) == 4 * Pow2(m + 6) && Pow2(m + 6) == 4 * Pow2(m + 4);
    assert Pow2(m + 4) == 4 * Pow2(m + 2) && Pow2(m + 2) == 4 * Pow2(m);
  }

  /** Shifting right by 8k and masking reads byte n - 1 - k. */
  lemma {:induction false} ShiftReadsByte(v: nat, n: nat, k: nat)
    requires k < n
    ensures v / Pow2(8 * k) % 256 == BigEndian(v, n)[n - 1 - k]
  {
    if k > 0 {
      ShiftReadsByte(v / 256, n - 1, k - 1);
      Pow2Byte(k - 1);
      DivideTwice(v, Pow2(8 * k - 8));
    }
  }

  lemma DivideTwice(v: nat, b: nat)
    requires b > 0
    ensures v / 256 / b == v / (256 * b)
  {
    var q, r := v / 256 / b, v / 256 % b;
    assert q * (256 * b) == 256 * (q * b);
    DivideUnique(v, 256 * b, q, 256 * r + v % 256);
  }

  // ----- What a compressed file is -----

  /** The number of bytes c in the text. */
  function CountIn(text: seq<Byte>, c: nat): nat {
    if text == [] then 0 else (if text[|text| - 1] == c then 1 else 0) + CountIn(text[..|text| - 1], c)
  }

  function FreqTable(text: seq<Byte>): Table {
    seq(256, c requires 0 <= c => CountIn(text, c))
  }

  /** The tree and the codes serve every byte of the text. */
  ghost predicate Serves(root: Tree, code: Codes, text: seq<Byte>) {
    Proper(root) && !IsLeaf(root) && forall c :: c in text ==> Leads(root, code[c], c)
  }

  /** The file stores the text by this tree and these codes. */
  ghost predicate Stores(file: seq<Byte>, text: seq<Byte>, root: Tree, code: Codes) {
    && |file| >= 12
    && file[..12] == MAGIC + BigEndian(|text|, 8)
    && if text == [] then file[12..] == []
       else Serves(root, code, text) && IsPacked(Serialize(root) + Encode(code, text), file[12..])
  }

  /** What the decompressor makes of any file. */
  function Decompressed(file: seq<Byte>): Result {
    if |file| < 4 || file[..4] != MAGIC then Err(NotHuf)
    else if |file| < 12 then Err(NoSize)
    else
      var size := FromBigEndian(file[4..12]);
      if size == 0 then Ok([])
      else
        var (root, bits) := Parse(Unpack(file[12..]));
        if root.Nil? then Err(NoTree)
        else if IsLeaf(root) then Ok(seq(size, _ => root.data))
        else Ok(Decode(root, root, bits, size))
  }

  // ----- The format, byte by byte -----

  /** The file begins with HUF1. */
  ghost predicate HasMagic(file: seq<Byte>) {
    |file| >= 4 && file[0] == 72 && file[1] == 85 && file[2] == 70 && file[3] == 49
  }

  /** Bytes 4 to 11 hold the size, most significant byte first. */
  ghost function SizeField(file: seq<Byte>): nat
    requires |file| >= 12
  {
    0x100_0000_0000_0000 * ByteAt(file, 4) + 0x1_0000_0000_0000 * ByteAt(file, 5) + 0x100_0000_0000 * ByteAt(file, 6)
      + 0x1_0000_0000 * ByteAt(file, 7) + 0x100_0000 * ByteAt(file, 8) + 0x1_0000 * ByteAt(file, 9)
      + 0x100 * ByteAt(file, 10) + ByteAt(file, 11)
  }

  ghost function ByteAt(file: seq<Byte>, i: nat): nat
    requires i < |file|
  {
    file[i]
  }

  lemma OneMoreByte(s: seq<Byte>, i: nat)
    requires i < |s|
    ensures FromBigEndian(s[..i + 1]) == 256 * FromBigEndian(s[..i]) + s[i]
  {
    assert s[..i + 1][..i] == s[..i];
  }

  lemma SizeFieldIs(file: seq<Byte>)
    requires |file| >= 12
    ensures SizeField(file) == FromBigEndian(file[4..12])
  {
    var s := file[4..12];
    OneMoreByte(s, 0);
    OneMoreByte(s, 1);
    OneMoreByte(s, 2);
    OneMoreByte(s, 3);
    OneMoreByte(s, 4);
    OneMoreByte(s, 5);
    OneMoreByte(s, 6);
    OneMoreByte(s, 7);
    assert s[..8] == s && s[..0] == [];
  }

  lemma HasMagicIs(file: seq<Byte>)
    ensures HasMagic(file) <==> |file| >= 4 && file[..4] == MAGIC
  {}

  /** What follows the size field holds no tree: nothing, or one byte that announces a leaf. */
  ghost predicate HasNoTree(file: seq<Byte>)
    requires |file| >= 12
  {
    |file| == 12 || (|file| == 13 && file[12] >= 128)
  }

  /** The tree is a single leaf: a one, and the eight bits of its symbol. */
  ghost predicate HasOneLeaf(file: seq<Byte>, c: nat)
    requires |file| >= 12
  {
    |file| >= 14 && file[12] >= 128 && c == file[12] % 128 * 2 + file[13] / 128
  }

  lemma ByteBits(b: Byte, n: nat)
    requires n == 7
    ensures ToBits(b, n + 1) == [b >= 128] + ToBits(b % 128, n)
    ensures FromBits(ToBits(b % 128, n)) == b % 128
  {
    Pow2Of7(n);
    var low: nat := b % 128;
    TopBit(low, n);
    FromToBits(low, n);
    assert b == if b >= 128 then low + 128 else low;
  }

  lemma Pow2Of7(n: nat)
    requires n == 7
    ensures Pow2(n) == 128
  {
    assert Pow2(7) == 128;
  }

  lemma NoTreeIff(file: seq<Byte>)
    requires |file| >= 12
    ensures Parse(Unpack(file[12..])).0.Nil? <==> HasNoTree(file)
  {
    var body := file[12..];
    if body != [] {
      ByteBits(body[0], 7);
    }
  }

  lemma UnpackTwo(body: seq<Byte>)
    requires |body| >= 2
    ensures Unpack(body) == ToBits(body[0], 8) + (ToBits(body[1], 8) + Unpack(body[2..]))
  {
    assert body[1..][1..] == body[2..];
  }

  lemma LeafBits(p: bool, low: seq<bool>, q: bool, more: seq<bool>, bits: seq<bool>)
    requires |low| == 7 && bits == ([p] + low) + (([q] + more))
    ensures bits[0] == p && FromBits(bits[1..9]) == 2 * FromBits(low) + if q then 1 else 0
  {
    assert bits[1..9] == low + [q];
  }

  lemma OneLeafRead(file: seq<Byte>, c: nat)
    requires |file| >= 12 && HasOneLeaf(file, c)
    ensures c < 256 && Parse(Unpack(file[12..])).0 == Leaf(c, 0)
  {
    var body := file[12..];
    UnpackTwo(body);
    ByteBits(body[0], 7);
    ByteBits(body[1], 7);
    var more := ToBits(body[1] % 128, 7) + Unpack(body[2..]);
    Regroup([body[1] >= 128], ToBits(body[1] % 128, 7), Unpack(body[2..]), []);
    LeafBits(body[0] >= 128, ToBits(body[0] % 128, 7), body[1] >= 128, more, Unpack(body));
  }

  /** The answer for every file, in terms of its bytes. */
  ghost predicate Answers(file: seq<Byte>, r: Result) {
    && (r == Err(NotHuf) <==> !HasMagic(file))
    && (r == Err(NoSize) <==> HasMagic(file) && |file| < 12)
    && (HasMagic(file) && |file| >= 12 ==>
         && (SizeField(file) == 0 ==> r == Ok([]))
         && (r == Err(NoTree) <==> SizeField(file) > 0 && HasNoTree(file))
         && (r.Ok? ==> |r.text| <= SizeField(file))
         && forall c: Byte :: HasOneLeaf(file, c) ==> r == Ok(seq(SizeField(file), _ => c)))
  }

  lemma DecompressedAnswers(file: seq<Byte>)
    ensures Answers(file, Decompressed(file))
  {
    HasMagicIs(file);
    if HasMagic(file) && |file| >= 12 {
      SizeFieldIs(file);
      NoTreeIff(file);
      forall c: Byte | HasOneLeaf(file, c)
        ensures Decompressed(file) == Ok(seq(SizeField(file), _ => c))
      {
        OneLeafRead(file, c);
      }
    }
  }

  lemma StoredFields(file: seq<Byte>, size: seq<Byte>)
    requires |file| >= 12 && |size| == 8 && file[..12] == MAGIC + size
    ensures file[..4] == MAGIC && file[4..12] == size
  {
    assert file[..4] == file[..12][..4] && file[4..12] == file[..12][4..];
  }

  /** A compressed file, byte by byte, before the tree. */
  lemma StoredHeader(file: seq<Byte>, size: nat)
    requires |file| >= 12 && file[..12] == MAGIC + BigEndian(size, 8)
    ensures HasMagic(file)
    ensures size < Pow2(64) ==> SizeField(file) == size
  {
    StoredFields(file, BigEndian(size, 8));
    SizeFieldIs(file);
    if size < Pow2(64) {
      FromBigEndianInverts(size, 8);
    }
  }

  function ByBit(payload: seq<bool>, a: Byte, b: Byte, n: nat): (text: seq<Byte>)
    requires n <= |payload|
    ensures |text| == n && forall i :: 0 <= i < n ==> text[i] == if payload[i] then b else a
  {
    seq(n, i requires 0 <= i < n => if payload[i] then b else a)
  }

  lemma {:induction false} DecodeTwo(root: Tree, a: Byte, b: Byte, payload: seq<bool>, n: nat)
    requires root == Node(DOLLAR, 0, Leaf(a, 0), Leaf(b, 0)) && n <= |payload|
    ensures Decode(root, root, payload, n) == ByBit(payload, a, b, n)
  {
    if n > 0 {
      DecodeTwo(root, a, b, payload[1..], n - 1);
      assert ByBit(payload, a, b, n) == [if payload[0] then b else a] + ByBit(payload[1..], a, b, n - 1);
    }
  }

  /** With two symbols the format is plain: a zero for the root, a one and eight bits for each symbol, then one bit for
      each byte of the text, zero for the first symbol. */
  lemma TwoSymbolsRead(file: seq<Byte>, a: Byte, b: Byte, payload: seq<bool>)
    requires HasMagic(file) && |file| >= 12 && SizeField(file) <= |payload|
    requires Unpack(file[12..]) == [false] + ([true] + ToBits(a, 8)) + ([true] + ToBits(b, 8)) + payload
    ensures Decompressed(file) == Ok(ByBit(payload, a, b, SizeField(file)))
  {
    var root := Node(DOLLAR, 0, Leaf(a, 0), Leaf(b, 0));
    HasMagicIs(file);
    SizeFieldIs(file);
    assert Proper(root.left) && Proper(root.right);
    assert Serialize(root) == [false] + ([true] + ToBits(a, 8)) + ([true] + ToBits(b, 8));
    ParseSerialize(root, payload);
    DecodeTwo(root, a, b, payload, SizeField(file));
  }

  /** Lossless: whatever tree and codes were used, decompressing a stored text returns it. */
  lemma RoundTrip(file: seq<Byte>, text: seq<Byte>, root: Tree, code: Codes)
    requires Stores(file, text, root, code) && |text| < Pow2(64)
    ensures Decompressed(file) == Ok(text)
  {
    StoredFields(file, BigEndian(|text|, 8));
    FromBigEndianInverts(|text|, 8);
    if text != [] {
      var header, payload := Serialize(root), Encode(code, text);
      var bits := Unpack(file[12..]);
      var padding := bits[|header + payload|..];
      assert bits == header + (payload + padding) by {
        assert bits == bits[..|header + payload|] + padding;
      }
      ParseSerialize(root, payload + padding);
      forall c | c in text
        ensures Leads(Erase(root), code[c], c)
      {
        LeadsErased(root, code[c], c);
      }
      DecodeEncode(Erase(root), code, text, padding);
    }
  }

  // ----- Compressing -----

  /** Payload bits by symbol, as the storage comparison adds them up. */
  ghost function PayloadBits(f: Table, code: Codes, n: nat): nat
    requires n <= 256
  {
    if n == 0 then 0 else
      PayloadBits(f, code, n - 1) + if f[n - 1] > 0 then f[n - 1] * |code[n - 1]| else 0
  }

  lemma {:induction false} PayloadOfNothing(code: Codes, n: nat)
    requires n <= 256
    ensures PayloadBits(FreqTable([]), code, n) == 0
  {
    if n > 0 {
      PayloadOfNothing(code, n - 1);
    }
  }

  lemma {:induction false} PayloadOfOneMore(f: Table, g: Table, code: Codes, c: Byte, n: nat)
    requires n <= 256 && g == f[c := f[c] + 1]
    ensures PayloadBits(g, code, n) == PayloadBits(f, code, n) + if c < n then |code[c]| else 0
  {
    if n > 0 {
      PayloadOfOneMore(f, g, code, c, n - 1);
      OneMoreTime(f[c], |code[c]|);
    }
  }

  lemma OneMoreTime(k: nat, len: nat)
    ensures (k + 1) * len == k * len + len
  {}

  lemma {:induction false} EncodeAppend(code: Codes, a: seq<Byte>, b: seq<Byte>)
    ensures Encode(code, a + b) == Encode(code, a) + Encode(code, b)
  {
    if a == [] {
      assert a + b == b;
    } else {
      EncodeAppend(code, a[1..], b);
      assert (a + b)[1..] == a[1..] + b;
    }
  }

  lemma CountOneMore(text: seq<Byte>, c: Byte)
    ensures FreqTable(text + [c]) == FreqTable(text)[c := FreqTable(text)[c] + 1]
  {
    assert (text + [c])[..|text|] == text;
  }

  /** The payload is as long as the frequencies and code lengths say. */
  lemma {:induction false} EncodedLength(code: Codes, text: seq<Byte>)
    ensures |Encode(code, text)| == PayloadBits(FreqTable(text), code, 256)
  {
    if text == [] {
      PayloadOfNothing(code, 256);
    } else {
      var front, last := text[..|text| - 1], text[|text| - 1];
      assert text == front + [last];
      EncodedLength(code, front);
      EncodeAppend(code, front, [last]);
      assert Encode(code, [last]) == code[last];
      CountOneMore(front, last);
      PayloadOfOneMore(FreqTable(front), FreqTable(text), code, last, 256);
    }
  }
}
