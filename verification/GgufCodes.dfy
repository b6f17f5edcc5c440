/** The numbers of the GGUF format, written out: type codes, sizes, and the bytes the writer produces for an item. */
module GgufCodes {
  import opened Wrappers
  import opened LittleEndian
  import opened GgufFormat
  import opened GgufWriter
  import opened GgufRoundTrip
  import opened GgufBounds

  /** Sizes of scalar metadata values by type code. */
  lemma ScalarSizes(typ: nat)
    ensures ScalarSize(typ)
      == if typ in {0, 1, 7} then 1 else if typ in {2, 3} then 2 else if typ in {4, 5, 6} then 4
         else if typ in {10, 11, 12} then 8 else 0
  {
  }

  /** Unquantized tensor types: one element to a block, of 4, 2, 1, 2, 4, 8, 8 and 2 bytes. */
  lemma PlainTypes()
    ensures BlockInfo(0) == Some((1, 4)) && BlockInfo(1) == Some((1, 2)) && BlockInfo(24) == Some((1, 1))
    ensures BlockInfo(25) == Some((1, 2)) && BlockInfo(26) == Some((1, 4)) && BlockInfo(27) == Some((1, 8))
    ensures BlockInfo(28) == Some((1, 8)) && BlockInfo(30) == Some((1, 2))
  {
  }

  /** Types of 32 elements to a block: a scale, for some a minimum and high bits, and 4, 5 or 8 bits an element. */
  lemma SmallBlocks()
    ensures BlockInfo(2) == Some((32, 2 + 16)) && BlockInfo(3) == Some((32, 2 + 2 + 16))
    ensures BlockInfo(6) == Some((32, 2 + 4 + 16)) && BlockInfo(7) == Some((32, 2 + 2 + 4 + 16))
    ensures BlockInfo(8) == Some((32, 2 + 32)) && BlockInfo(9) == Some((32, 4 + 4 + 32))
    ensures BlockInfo(39) == Some((32, 1 + 16))
  {
  }

  /** K types of 256 elements to a block: scales, low bits and high bits. */
  lemma LargeBlocks()
    ensures BlockInfo(10) == Some((256, 16 + 64 + 4)) && BlockInfo(11) == Some((256, 32 + 64 + 12 + 2))
    ensures BlockInfo(12) == Some((256, 2 + 2 + 12 + 128)) && BlockInfo(13) == Some((256, 2 + 2 + 12 + 32 + 128))
    ensures BlockInfo(14) == Some((256, 128 + 64 + 16 + 2)) && BlockInfo(15) == Some((256, 4 + 256 + 32))
  {
  }

  /** The other types of 256 elements to a block. */
  lemma OtherBlocks()
    ensures BlockInfo(16) == Some((256, 66)) && BlockInfo(17) == Some((256, 74)) && BlockInfo(18) == Some((256, 98))
    ensures BlockInfo(19) == Some((256, 110)) && BlockInfo(20) == Some((256, 50)) && BlockInfo(21) == Some((256, 110))
    ensures BlockInfo(22) == Some((256, 82)) && BlockInfo(23) == Some((256, 136)) && BlockInfo(29) == Some((256, 56))
  {
  }

  lemma UnknownTypes(typ: nat)
    requires typ in {4, 5} || 31 <= typ <= 38 || typ >= 40
    ensures BlockInfo(typ) == None
  {
  }

  /** Within 64 bits the size is that of the least number k of blocks that holds all elements. */
  lemma SizeRoundsUp(typ: nat, elements: nat) returns (k: nat)
    requires BlockInfo(typ).Some? && elements + BlockInfo(typ).value.0 <= U64_MODULUS
    ensures var (n, size) := BlockInfo(typ).value;
      && elements <= k * n && (k > 0 ==> (k - 1) * n < elements)
      && TypeBytes(typ, elements) == if k * size <= U64_MAX then Some(k * size) else None
  {
    BlocksNotEmpty(typ);
    hide BlockInfo;
    var (n, size) := BlockInfo(typ).value;
    k := (elements + n - 1) / n;
    Ceiling(elements, n);
    Bounded(k, size);
  }

  lemma BlocksNotEmpty(typ: nat)
    requires BlockInfo(typ).Some?
    ensures BlockInfo(typ).value.0 > 0 && BlockInfo(typ).value.1 > 0
  {
  }

  lemma Ceiling(e: nat, n: nat)
    requires n > 0
    ensures var k := (e + n - 1) / n; e <= k * n && (k > 0 ==> (k - 1) * n < e)
  {
    var k := (e + n - 1) / n;
    assert e + n - 1 == k * n + (e + n - 1) % n;
    assert k > 0 ==> (k - 1) * n == k * n - n;
  }

  lemma Bounded(k: nat, size: nat)
    requires size > 0
    ensures k > U64_MAX / size <==> k * size > U64_MAX
  {
    var q := U64_MAX / size;
    assert q * size <= U64_MAX < q * size + size;
    if k > q {
      MulMonotone(q + 1, k, size);
      assert (q + 1) * size == q * size + size;
    } else {
      MulMonotone(k, q, size);
    }
  }

  // ---------------------------------------------------------------- the bytes of a metadata item

  /** Key length, key, type code, and the value: a number, a flag, or a text with its length. */
  lemma WrittenItem(m: Meta)
    requires MetaOk(m)
    ensures m.MetaU32? ==> EncodeMeta(m) == LE(|m.key|, 8) + m.key + [4, 0, 0, 0] + LE(m.u32, 4)
    ensures m.MetaF32? ==> EncodeMeta(m) == LE(|m.key|, 8) + m.key + [6, 0, 0, 0] + LE(m.bits, 4)
    ensures m.MetaText? ==> EncodeMeta(m) == LE(|m.key|, 8) + m.key + [8, 0, 0, 0] + (LE(|m.text|, 8) + m.text)
    ensures m.MetaBool? ==> EncodeMeta(m) == LE(|m.key|, 8) + m.key + [7, 0, 0, 0] + [if m.flag then 1 else 0]
    ensures m.MetaTexts? ==>
      EncodeMeta(m) == LE(|m.key|, 8) + m.key + [9, 0, 0, 0]
        + ([8, 0, 0, 0] + LE(|m.texts|, 8) + EncodeValues(TextValues(m.texts)))
    ensures m.MetaInts? ==>
      EncodeMeta(m) == LE(|m.key|, 8) + m.key + [9, 0, 0, 0] + ([5, 0, 0, 0] + LE(|m.ints|, 8) + EncodeInts(m.ints))
  {
    hide LE;
    FourBytes(4);
    FourBytes(5);
    FourBytes(6);
    FourBytes(7);
    FourBytes(8);
    FourBytes(9);
  }
}
