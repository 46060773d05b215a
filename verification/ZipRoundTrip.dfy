/** What the writer writes, the reader reads back. */
module ZipRoundTrip {
  import opened A = ZipArchive
  import opened Bits
  import CdEntryMap
  import opened EntryNames
  import opened OrderedKeys
  import opened W = ZipWriter
  import opened WordSizes
  import opened Z = ZipFormat
  import opened ZipLayout
  import opened R = ZipReading

  // ----- where the parts of an archive are

  /** The sections of the archive: the entries, the directory and the end record. */
  lemma Sections(files: seq<FileEntry>, contents: seq<Content>, dd: bool)
    requires |files| == |contents|
    ensures var locals, cd, file := Locals(files, contents, dd), Directory(files, dd), Archive(files, contents, dd);
            && At(file, 0, locals) && At(file, |locals|, cd)
            && At(file, |locals| + |cd|, EndRecord(|files|, |cd|, |locals|))
            && |file| == |locals| + |cd| + EOCD_SIZE
  {
    hide Locals, Directory, EndRecord;
    var locals, cd := Locals(files, contents, dd), Directory(files, dd);
    var end := EndRecord(|files|, |cd|, |locals|);
    EndRecordSize(|files|, |cd|, |locals|);
    AtEnd(locals + cd, end);
    AtEnd(locals, cd);
    AtGrows(locals + cd, end, |locals|, cd);
  }

  /** Where the local part of an entry is. */
  lemma {:induction false} EntryAt(files: seq<FileEntry>, contents: seq<Content>, dd: bool, i: nat)
    requires AllDescribe(files, contents, dd) && i < |files|
    ensures At(Locals(files, contents, dd), files[i].local_file_header_offset,
               LocalPart(files[i], contents[i].data, dd))
    ensures Describes(files[i], contents[i], files[i].local_file_header_offset)
    ensures files[0].local_file_header_offset == 0
  {
    hide LocalPart, InRange, ValidName, Aligned;
    var n := |files| - 1;
    var fs, cs := files[..n], contents[..n];
    AtEnd(Locals(fs, cs, dd), LocalPart(files[n], contents[n].data, dd));
    if i < n {
      EntryAt(fs, cs, dd, i);
      AtGrows(Locals(fs, cs, dd), LocalPart(files[n], contents[n].data, dd), files[i].local_file_header_offset,
              LocalPart(files[i], contents[i].data, dd));
    } else if n > 0 {
      EntryAt(fs, cs, dd, 0);
    }
  }

  // ----- what the writer leaves behind

  /** A writer that is done has left a finished archive, if it wrote any entry. */
  lemma WriterFinishes(w: W.ZipWriter)
    requires w.Valid() && w.state == Done && w.files != []
    ensures Finished(w.file, w.files, w.contents, w.UsesDescriptor())
  {
    hide Archive, AllDescribe;
  }

  /** A finished archive, as the writer leaves it. */
  ghost predicate Finished(file: seq<Byte>, files: seq<FileEntry>, contents: seq<Content>, dd: bool) {
    && 1 <= |files| == |contents| <= UINT16_MAX && AllDescribe(files, contents, dd)
    && file == Archive(files, contents, dd) && |file| <= UINT32_MAX + EOCD_SIZE
  }

  // ----- a finished archive is laid out as the application note says

  /** The record of an entry that the writer writes: no extra field and no comment. */
  function MemberOf(e: FileEntry, dd: bool): Member {
    Member(e.path, 0, e.last_mod_time, e.last_mod_date, e.crc32, e.compressed_size, e.uncompressed_size,
           e.local_file_header_offset, [], [], Rest(0, 0, if dd then DD_FLAG else 0, 0, 0, 0))
  }

  /** What the writer writes before the directory: no extra field but the padding. */
  function LocalOf(e: FileEntry, data: seq<Byte>, dd: bool): Local {
    Local(0, if dd then DD_FLAG else 0, 0, e.last_mod_time, e.last_mod_date, if dd then 0 else e.crc32,
          if dd then 0 else e.compressed_size, if dd then 0 else e.uncompressed_size, Zeros(e.padding_length), data)
  }

  function MembersOf(files: seq<FileEntry>, dd: bool): seq<Member> {
    seq(|files|, i requires 0 <= i < |files| => MemberOf(files[i], dd))
  }

  function LayoutOf(files: seq<FileEntry>, dd: bool, start: nat): Layout {
    Layout(MembersOf(files, dd), start, [], [], Ending(0, 0, |files|, []))
  }

  /** Where the data of an entry starts. */
  function DataOffset(e: FileEntry): nat {
    e.local_file_header_offset + LFH_SIZE + |e.path| + e.padding_length
  }

  lemma PartIs(e: FileEntry, data: seq<Byte>, dd: bool)
    ensures LocalPart(e, data, dd) == LocalBytes(e.path, LocalOf(e, data, dd)) + (if dd then Descriptor(e) else [])
    ensures |LocalBytes(e.path, LocalOf(e, data, dd))| == LFH_SIZE + |e.path| + e.padding_length + |data|
  {
    hide Encode;
    LocalHeaderSize(e, dd);
    assert HeaderFields(e.path, LocalOf(e, data, dd)) == LocalFields(e, dd);
  }

  lemma RecordIs(e: FileEntry, dd: bool)
    ensures Record(MemberOf(e, dd)) == DirectoryRecord(e, dd) + e.path
    ensures |Record(MemberOf(e, dd))| >= CDR_SIZE
  {
    hide Encode;
    DirectoryRecordSize(e, dd);
    assert RecordFields(MemberOf(e, dd)) == DirectoryFields(e, dd);
  }

  lemma {:induction false} DirectoryIs(files: seq<FileEntry>, dd: bool)
    ensures DirectoryOf(MembersOf(files, dd)) == Directory(files, dd)
    ensures files != [] ==> |Directory(files, dd)| >= CDR_SIZE
  {
    hide Record, DirectoryRecord, MemberOf;
    if files != [] {
      var n := |files| - 1;
      DirectoryIs(files[..n], dd);
      RecordIs(files[n], dd);
      assert MembersOf(files, dd)[..n] == MembersOf(files[..n], dd);
    }
  }

  /** Every entry stands where its record says, and its descriptor after it. */
  lemma MemberAt(file: seq<Byte>, files: seq<FileEntry>, contents: seq<Content>, dd: bool, i: nat)
    requires Finished(file, files, contents, dd) && i < |files|
    ensures Describes(files[i], contents[i], files[i].local_file_header_offset)
    ensures var e, data, start := files[i], contents[i].data, |Locals(files, contents, dd)|;
            && MemberFits(MemberOf(e, dd), start) && Placed(file, MemberOf(e, dd), LocalOf(e, data, dd), start)
            && DataOffset(e) + |data| <= start && (dd ==> At(file, DataOffset(e) + |data|, Descriptor(e)))
            && start + |Directory(files, dd)| + EOCD_SIZE == |file| && |Directory(files, dd)| >= CDR_SIZE
  {
    hide AllDescribe, Locals, Archive, Directory, LocalPart, LocalBytes, Descriptor, At, MemberFits, LocalFits,
         MemberOf, LocalOf, ValidName;
    var e, data, locals := files[i], contents[i].data, Locals(files, contents, dd);
    Sections(files, contents, dd);
    EntryAt(files, contents, dd, i);
    PartIs(e, data, dd);
    DirectoryIs(files, dd);
    AtSize(locals, e.local_file_header_offset, LocalPart(e, data, dd));
    EntryFits(e, contents[i], dd, |locals|);
    AtWithin(file, 0, locals, e.local_file_header_offset, LocalPart(e, data, dd));
    AtParts(file, e.local_file_header_offset, LocalBytes(e.path, LocalOf(e, data, dd)),
            if dd then Descriptor(e) else []);
  }

  lemma EntryFits(e: FileEntry, c: Content, dd: bool, start: nat)
    requires Describes(e, c, e.local_file_header_offset)
    requires DataOffset(e) + |c.data| <= start < UINT32_MAX
    ensures MemberFits(MemberOf(e, dd), start) && LocalFits(MemberOf(e, dd), LocalOf(e, c.data, dd), start)
    ensures MemberOf(e, dd).offset == e.local_file_header_offset && MemberOf(e, dd).name == e.path
  {
    hide ValidName, Aligned;
  }

  lemma AtSize(file: seq<Byte>, o: nat, bytes: seq<Byte>)
    requires At(file, o, bytes)
    ensures o + |bytes| <= |file|
  {
  }

  /** A finished archive is one of those that the application note describes. */
  lemma IsLaid(file: seq<Byte>, files: seq<FileEntry>, contents: seq<Content>, dd: bool)
    requires Finished(file, files, contents, dd)
    ensures Laid(file, LayoutOf(files, dd, |Locals(files, contents, dd)|))
  {
    hide AllDescribe, Locals, Directory, Encode, DirectoryOf, MemberOf, Placed, MemberFits, LocalOf;
    var start := |Locals(files, contents, dd)|;
    var a := LayoutOf(files, dd, start);
    Sections(files, contents, dd);
    DirectoryIs(files, dd);
    MemberAt(file, files, contents, dd, 0);
    forall i | 0 <= i < |a.members|
      ensures MemberFits(a.members[i], start)
    {
      MemberAt(file, files, contents, dd, i);
    }
    assert DirectoryBytes(a) == Directory(files, dd);
    var ending := EndingBytes(|files|, |DirectoryBytes(a)|, start, a.ending);
    assert ending == EndRecord(|files|, |DirectoryBytes(a)|, start);
    AtJoin(file, start + |DirectoryBytes(a)|, [], ending);
    AtJoin(file, start, DirectoryBytes(a), [] + ending);
  }

  // ----- so it is accepted, and its entries are found

  ghost predicate DistinctPaths(files: seq<FileEntry>) {
    forall i, j :: 0 <= i < j < |files| ==> files[i].path != files[j].path
  }

  /** The names of the members are the paths, and they are valid. */
  lemma PathsAre(file: seq<Byte>, files: seq<FileEntry>, contents: seq<Content>, dd: bool)
    requires Finished(file, files, contents, dd)
    ensures AllValid(MembersOf(files, dd))
    ensures NamesDiffer(MembersOf(files, dd)) <==> DistinctPaths(files)
  {
    hide Finished, Locals, Directory, Placed, ValidName, LocalOf, MemberFits;
    var members := MembersOf(files, dd);
    forall i | 0 <= i < |members|
      ensures members[i].name == files[i].path && ValidName(members[i].name)
    {
      MemberAt(file, files, contents, dd, i);
    }
    if !NamesDiffer(members) {
      var i, j :| 0 <= i < j < |members| && members[i].name == members[j].name;
      assert files[i].path == files[j].path;
    }
  }

  /** The archive is accepted exactly if no two of its entries have the same name. */
  lemma Opens(file: seq<Byte>, files: seq<FileEntry>, contents: seq<Content>, dd: bool)
    requires Finished(file, files, contents, dd)
    ensures OpenError(file) == if DistinctPaths(files) then None else Some(DuplicateEntry)
  {
    hide Finished, Locals, OpenError, Laid, MembersOf, U32, AllValid, NamesDiffer, DistinctPaths;
    SectionsFit(file, files, contents, dd);
    IsLaid(file, files, contents, dd);
    PathsAre(file, files, contents, dd);
    OpensIf(file, LayoutOf(files, dd, |Locals(files, contents, dd)|));
    StartsWithHeader(file, files, contents, dd);
  }

  lemma SectionsFit(file: seq<Byte>, files: seq<FileEntry>, contents: seq<Content>, dd: bool)
    requires Finished(file, files, contents, dd)
    ensures 1 <= |files| == |contents| && |Locals(files, contents, dd)| <= |file|
  {
  }

  lemma StartsWithHeader(file: seq<Byte>, files: seq<FileEntry>, contents: seq<Content>, dd: bool)
    requires Finished(file, files, contents, dd)
    ensures |file| >= 4 && file[..4] == [0x50, 0x4b, 3, 4]
  {
    hide Locals, Archive, Directory, U32, U16, Encode, At;
    MemberAt(file, files, contents, dd, 0);
    EntryAt(files, contents, dd, 0);
    var m, l, start := MemberOf(files[0], dd), LocalOf(files[0], contents[0].data, dd), |Locals(files, contents, dd)|;
    PartsAre(file, m, l, start);
    ReadsHeader(file, 0, m.name, l);
    SignatureIs(file);
  }

  /** What should be found for an entry. */
  function EntryOf(e: FileEntry, dd: bool): ZipEntry {
    ZipEntry(0, e.last_mod_date * 0x10000 + e.last_mod_time, e.crc32, e.compressed_size, e.uncompressed_size, dd,
             DataOffset(e))
  }

  /** Only this is found where the directory leads to this entry. */
  lemma LeadsToEntry(file: seq<Byte>, e: FileEntry, c: Content, dd: bool, found: Result<ZipEntry>, start: nat)
    requires Placed(file, MemberOf(e, dd), LocalOf(e, c.data, dd), start) && Describes(e, c, e.local_file_header_offset)
    requires LeadsTo(file, found, MemberOf(e, dd), LocalOf(e, c.data, dd))
    ensures found == Success(EntryOf(e, dd)) && DataOffset(e) + |c.data| <= |file|
    ensures file[DataOffset(e)..DataOffset(e) + |c.data|] == c.data
  {
    hide At, Encode, ValidName;
  }

  /**
   An entry with a name is found under it: the reader is led to exactly the bytes
   that were written, at the alignment that was asked for.
   */
  lemma FindsEntry(file: seq<Byte>, files: seq<FileEntry>, contents: seq<Content>, dd: bool, i: nat)
    requires Finished(file, files, contents, dd) && DistinctPaths(files) && i < |files| && files[i].path != []
    ensures OpenError(file).None? && Lookup(file, files[i].path) == Success(EntryOf(files[i], dd))
    ensures var found, c := EntryOf(files[i], dd), contents[i];
            && found.uncompressed_length == found.compressed_length == |c.data| && found.offset + |c.data| <= |file|
            && file[found.offset..found.offset + |c.data|] == c.data
            && (c.alignment != 0 ==> found.offset % c.alignment == 0)
  {
    hide Finished, Directory, Locals, OpenError, Laid, Lookup, ValidName, LocalBytes, At, Placed, LocalOf,
         MemberFits, LeadsTo;
    SectionsFit(file, files, contents, dd);
    Opens(file, files, contents, dd);
    IsLaid(file, files, contents, dd);
    MemberAt(file, files, contents, dd, i);
    var start := |Locals(files, contents, dd)|;
    FindsMember(file, LayoutOf(files, dd, start), i);
    assert LayoutOf(files, dd, start).members[i] == MemberOf(files[i], dd);
    LeadsToEntry(file, files[i], contents[i], dd, Lookup(file, files[i].path), start);
  }

  /** The descriptor that the writer leaves after the data of an entry is accepted. */
  lemma DescriptorAccepted(file: seq<Byte>, files: seq<FileEntry>, contents: seq<Content>, dd: bool, i: nat)
    requires Finished(file, files, contents, dd) && i < |files| && dd
    ensures DescriptorError(file, EntryOf(files[i], dd)).None?
  {
    hide AllDescribe, Archive, Directory, Locals, At, ValidName, Descriptor, DescriptorError, Placed, Pow2,
         DescriptorBytes;
    Pow2Known();
    var e := files[i];
    MemberAt(file, files, contents, dd, i);
    DescriptorIs(e);
    DescriptorExactly(file, EntryOf(e, dd), true, e.crc32, e.compressed_size, e.uncompressed_size);
  }

  lemma DescriptorIs(e: FileEntry)
    ensures Descriptor(e) == DescriptorBytes(true, e.crc32, 4, e.compressed_size, e.uncompressed_size)
  {
    hide Encode, Bytes;
    var r3 := Four(e.uncompressed_size, End);
    EncodeEnd();
    EncodeStep(r3);
    EncodeStep(Four(e.compressed_size, r3));
    EncodeStep(Four(e.crc32, Four(e.compressed_size, r3)));
    EncodeStep(DescriptorFields(e));
  }

  /** A name that no entry has is not found. */
  lemma FindsNothingElse(file: seq<Byte>, files: seq<FileEntry>, contents: seq<Content>, dd: bool,
                         name: CdEntryMap.Name)
    requires Finished(file, files, contents, dd) && DistinctPaths(files)
    requires 0 < |name| <= UINT16_MAX && forall i :: 0 <= i < |files| ==> files[i].path != name
    ensures OpenError(file).None? && Lookup(file, name) == Failure(EntryNotFound)
  {
    hide Finished, Locals, OpenError, Laid, Lookup;
    SectionsFit(file, files, contents, dd);
    Opens(file, files, contents, dd);
    IsLaid(file, files, contents, dd);
    R.FindsNothingElse(file, LayoutOf(files, dd, |Locals(files, contents, dd)|), name);
  }

  /** An archive without entries is turned down. */
  lemma EmptyIsRefused(dd: bool)
    ensures OpenError(Archive([], [], dd)) == Some(EmptyArchive)
  {
    hide Encode, U16, U32;
    var file := Archive([], [], dd);
    Sections([], [], dd);
    ReadsEnding(file, 0, 0, 0, 0, Ending(0, 0, 0, []));
  }
}
