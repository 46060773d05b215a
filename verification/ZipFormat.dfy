/** The records of a zip file, as sections 4.3.7 to 4.3.16 of the ZIP application note lay them out. */
module ZipFormat {
  import opened Bits
  import opened WordSizes

  const LFH_SIGNATURE: nat := 0x04034b50
  const CDR_SIGNATURE: nat := 0x02014b50
  const EOCD_SIGNATURE: nat := 0x06054b50
  const DD_SIGNATURE: nat := 0x08074b50
  const DD_FLAG: nat := 0x0008
  const LFH_SIZE: nat := 30
  const CDR_SIZE: nat := 46
  const EOCD_SIZE: nat := 22

  /** A stored entry. */
  datatype FileEntry = FileEntry(path: seq<Byte>, crc32: nat, compressed_size: nat, uncompressed_size: nat,
                                 last_mod_time: nat, last_mod_date: nat, padding_length: nat,
                                 local_file_header_offset: nat)

  /** All fields fit where they are written. */
  predicate InRange(e: FileEntry) {
    && |e.path| <= UINT16_MAX && e.crc32 <= UINT32_MAX && e.compressed_size <= UINT32_MAX
    && e.uncompressed_size <= UINT32_MAX
    && e.last_mod_time <= UINT16_MAX && e.last_mod_date <= UINT16_MAX && e.padding_length <= UINT16_MAX
  }

  function Zeros(n: nat): seq<Byte> {
    seq(n, _ => 0)
  }

  // ----- writing

  /** The fields of a record, each a number of two or four bytes. */
  datatype Fields = End | Two(v: nat, rest: Fields) | Four(v: nat, rest: Fields)

  function Encode(fields: Fields): seq<Byte> {
    match fields
    case End => []
    case Two(v, rest) => Bytes(2, v) + Encode(rest)
    case Four(v, rest) => Bytes(4, v) + Encode(rest)
  }

  function LocalFields(e: FileEntry, dd: bool): Fields {
    Four(LFH_SIGNATURE, Two(0, Two(if dd then DD_FLAG else 0, Two(0, Two(e.last_mod_time, Two(e.last_mod_date,
    Four(if dd then 0 else e.crc32, Four(if dd then 0 else e.compressed_size,
    Four(if dd then 0 else e.uncompressed_size, Two(|e.path|, Two(e.padding_length, End)))))))))))
  }

  function LocalHeader(e: FileEntry, dd: bool): seq<Byte> {
    Encode(LocalFields(e, dd))
  }

  function DescriptorFields(e: FileEntry): Fields {
    Four(DD_SIGNATURE, Four(e.crc32, Four(e.compressed_size, Four(e.uncompressed_size, End))))
  }

  function Descriptor(e: FileEntry): seq<Byte> {
    Encode(DescriptorFields(e))
  }

  function DirectoryFields(e: FileEntry, dd: bool): Fields {
    Four(CDR_SIGNATURE, Two(0, Two(0, Two(if dd then DD_FLAG else 0, Two(0, Two(e.last_mod_time, Two(e.last_mod_date,
    Four(e.crc32, Four(e.compressed_size, Four(e.uncompressed_size, Two(|e.path|, Two(0, Two(0, Two(0, Two(0, Four(0,
    Four(e.local_file_header_offset, End)))))))))))))))))
  }

  function DirectoryRecord(e: FileEntry, dd: bool): seq<Byte> {
    Encode(DirectoryFields(e, dd))
  }

  function EndFields(count: nat, cd_size: nat, cd_start: nat): Fields {
    Four(EOCD_SIGNATURE, Two(0, Two(0, Two(count, Two(count, Four(cd_size, Four(cd_start, Two(0, End))))))))
  }

  function EndRecord(count: nat, cd_size: nat, cd_start: nat): seq<Byte> {
    Encode(EndFields(count, cd_size, cd_start))
  }

  // ----- reading

  function U16(file: seq<Byte>, o: nat): nat
    requires o + 2 <= |file|
  {
    ValueOf(file[o..o + 2])
  }

  function U32(file: seq<Byte>, o: nat): nat
    requires o + 4 <= |file|
  {
    ValueOf(file[o..o + 4])
  }

  /** The bytes stand in the file at this offset. */
  ghost predicate At(file: seq<Byte>, o: nat, bytes: seq<Byte>) {
    o + |bytes| <= |file| && file[o..o + |bytes|] == bytes
  }

  lemma AtParts(file: seq<Byte>, o: nat, a: seq<Byte>, b: seq<Byte>)
    requires At(file, o, a + b)
    ensures At(file, o, a) && At(file, o + |a|, b)
  {
    assert file[o..o + |a|] == file[o..o + |a + b|][..|a|] == a;
    assert file[o + |a|..o + |a| + |b|] == file[o..o + |a + b|][|a|..] == b;
  }

  lemma AtWithin(file: seq<Byte>, o: nat, part: seq<Byte>, p: nat, bytes: seq<Byte>)
    requires At(file, o, part) && At(part, p, bytes)
    ensures At(file, o + p, bytes)
  {
    forall k | 0 <= k < |bytes|
      ensures file[o + p..o + p + |bytes|][k] == bytes[k]
    {
      assert file[o..o + |part|][p + k] == part[p + k] && part[p..p + |bytes|][k] == bytes[k];
    }
  }

  lemma AtGrows(part: seq<Byte>, more: seq<Byte>, p: nat, bytes: seq<Byte>)
    requires At(part, p, bytes)
    ensures At(part + more, p, bytes)
  {
    assert (part + more)[p..p + |bytes|] == part[p..p + |bytes|];
  }

  lemma AtEnd(part: seq<Byte>, bytes: seq<Byte>)
    ensures At(part + bytes, |part|, bytes)
  {
  }

  lemma AtIs(file: seq<Byte>, o: nat, bytes: seq<Byte>)
    requires At(file, o, bytes)
    ensures o + |bytes| <= |file| && file[o..o + |bytes|] == bytes
  {
  }

  lemma AtJoin(file: seq<Byte>, o: nat, a: seq<Byte>, b: seq<Byte>)
    requires At(file, o, a) && At(file, o + |a|, b)
    ensures At(file, o, a + b)
  {
    assert file[o..o + |a| + |b|] == file[o..o + |a|] + file[o + |a|..o + |a| + |b|];
  }

  /** The next two bytes are a number, and the rest of the record stands after it. */
  lemma Take16(file: seq<Byte>, o: nat, v: nat, rest: Fields)
    requires At(file, o, Encode(Two(v, rest))) && v <= UINT16_MAX
    ensures o + 2 <= |file| && U16(file, o) == v && At(file, o + 2, Encode(rest))
  {
    Pow2Known();
    BytesAre(2, v);
    AtParts(file, o, Bytes(2, v), Encode(rest));
  }

  lemma Take32(file: seq<Byte>, o: nat, v: nat, rest: Fields)
    requires At(file, o, Encode(Four(v, rest))) && v <= UINT32_MAX
    ensures o + 4 <= |file| && U32(file, o) == v && At(file, o + 4, Encode(rest))
  {
    Pow2Known();
    BytesAre(4, v);
    AtParts(file, o, Bytes(4, v), Encode(rest));
  }

  /** Two bytes before the rest of a record are its first number. */
  lemma Put16(file: seq<Byte>, o: nat, rest: Fields)
    requires o + 2 <= |file| && At(file, o + 2, Encode(rest))
    ensures At(file, o, Encode(Two(U16(file, o), rest))) && U16(file, o) <= UINT16_MAX
  {
    hide Encode;
    Pow2Known();
    ValueBack(file[o..o + 2]);
    ValueFits(file[o..o + 2]);
    AtJoin(file, o, Bytes(2, U16(file, o)), Encode(rest));
    EncodeStep(Two(U16(file, o), rest));
  }

  lemma Put32(file: seq<Byte>, o: nat, rest: Fields)
    requires o + 4 <= |file| && At(file, o + 4, Encode(rest))
    ensures At(file, o, Encode(Four(U32(file, o), rest))) && U32(file, o) <= UINT32_MAX
  {
    hide Encode;
    Pow2Known();
    ValueBack(file[o..o + 4]);
    ValueFits(file[o..o + 4]);
    AtJoin(file, o, Bytes(4, U32(file, o)), Encode(rest));
    EncodeStep(Four(U32(file, o), rest));
  }

  lemma EncodeStep(fields: Fields)
    requires !fields.End?
    ensures Encode(fields) == Bytes(if fields.Two? then 2 else 4, fields.v) + Encode(fields.rest)
  {
  }

  lemma EncodeEnd()
    ensures Encode(End) == []
  {
  }

  function Size(fields: Fields): nat {
    match fields
    case End => 0
    case Two(_, rest) => 2 + Size(rest)
    case Four(_, rest) => 4 + Size(rest)
  }

  lemma {:induction false} EncodeSize(fields: Fields)
    ensures |Encode(fields)| == Size(fields)
  {
    hide Bytes;
    match fields
    case End =>
    case Two(v, rest) =>
      EncodeSize(rest);
      BytesLength(2, v);
    case Four(v, rest) =>
      EncodeSize(rest);
      BytesLength(4, v);
  }

  lemma LocalHeaderSize(e: FileEntry, dd: bool)
    ensures |LocalHeader(e, dd)| == LFH_SIZE
  {
    hide Encode;
    var r10 := Two(e.padding_length, End);
    var r9 := Two(|e.path|, r10);
    var r8 := Four(if dd then 0 else e.uncompressed_size, r9);
    var r7 := Four(if dd then 0 else e.compressed_size, r8);
    var r6 := Four(if dd then 0 else e.crc32, r7);
    var r5 := Two(e.last_mod_date, r6);
    var r4 := Two(e.last_mod_time, r5);
    var r3 := Two(0, r4);
    var r2 := Two(if dd then DD_FLAG else 0, r3);
    var r1 := Two(0, r2);
    EncodeSize(LocalFields(e, dd));
    assert Size(r10) == 2;
    assert Size(r9) == 4;
    assert Size(r8) == 8;
    assert Size(r7) == 12;
    assert Size(r6) == 16;
    assert Size(r5) == 18;
    assert Size(r4) == 20;
    assert Size(r3) == 22;
    assert Size(r2) == 24;
    assert Size(r1) == 26;
  }

  lemma DirectoryRecordSize(e: FileEntry, dd: bool)
    ensures |DirectoryRecord(e, dd)| == CDR_SIZE
  {
    hide Encode;
    var r16 := Four(e.local_file_header_offset, End);
    var r15 := Four(0, r16);
    var r14 := Two(0, r15);
    var r13 := Two(0, r14);
    var r12 := Two(0, r13);
    var r11 := Two(0, r12);
    var r10 := Two(|e.path|, r11);
    var r9 := Four(e.uncompressed_size, r10);
    var r8 := Four(e.compressed_size, r9);
    var r7 := Four(e.crc32, r8);
    var r6 := Two(e.last_mod_date, r7);
    var r5 := Two(e.last_mod_time, r6);
    var r4 := Two(0, r5);
    var r3 := Two(if dd then DD_FLAG else 0, r4);
    var r2 := Two(0, r3);
    var r1 := Two(0, r2);
    EncodeSize(DirectoryFields(e, dd));
    assert Size(r16) == 4;
    assert Size(r15) == 8;
    assert Size(r14) == 10;
    assert Size(r13) == 12;
    assert Size(r12) == 14;
    assert Size(r11) == 16;
    assert Size(r10) == 18;
    assert Size(r9) == 22;
    assert Size(r8) == 26;
    assert Size(r7) == 30;
    assert Size(r6) == 32;
    assert Size(r5) == 34;
    assert Size(r4) == 36;
    assert Size(r3) == 38;
    assert Size(r2) == 40;
    assert Size(r1) == 42;
  }

  lemma EndRecordSize(count: nat, cd_size: nat, cd_start: nat)
    ensures |EndRecord(count, cd_size, cd_start)| == EOCD_SIZE
  {
    hide Encode;
    var r7 := Two(0, End);
    var r6 := Four(cd_start, r7);
    var r5 := Four(cd_size, r6);
    var r4 := Two(count, r5);
    var r3 := Two(count, r4);
    var r2 := Two(0, r3);
    var r1 := Two(0, r2);
    EncodeSize(EndFields(count, cd_size, cd_start));
    assert Size(r7) == 2;
    assert Size(r6) == 6;
    assert Size(r5) == 10;
    assert Size(r4) == 12;
    assert Size(r3) == 14;
    assert Size(r2) == 16;
    assert Size(r1) == 18;
  }

  lemma DescriptorSize(e: FileEntry)
    ensures |Descriptor(e)| == 16
  {
    hide Encode;
    var r3 := Four(e.uncompressed_size, End);
    var r2 := Four(e.compressed_size, r3);
    var r1 := Four(e.crc32, r2);
    EncodeSize(DescriptorFields(e));
    assert Size(r3) == 4;
    assert Size(r2) == 8;
    assert Size(r1) == 12;
  }
}
