/**
 Writing a zip file of stored entries.

 The file is a sequence of bytes with a position, and writing and seeking
 succeed.  An entry that is discarded stays in the file until it is overwritten
 or cut off.
 */
module ZipWriter {
  import opened Bits
  import opened EntryNames
  import opened ZipFormat
  import opened WordSizes

  datatype State = WritingZip | WritingEntry | Done | Errored

  datatype Status = NoError | InvalidState | IoError | InvalidEntryName | InvalidAlign32Flag | InvalidAlignment

  /** What was asked for: the bytes of an entry, and their alignment. */
  datatype Content = Content(data: seq<Byte>, alignment: nat)

  // ----- the archive

  /** What follows the header of an entry: its name, the padding, and the data. */
  function Tail(e: FileEntry, data: seq<Byte>): seq<Byte> {
    e.path + (Zeros(e.padding_length) + data)
  }

  function LocalPart(e: FileEntry, data: seq<Byte>, dd: bool): seq<Byte> {
    LocalHeader(e, dd) + (Tail(e, data) + if dd then Descriptor(e) else [])
  }

  ghost function Locals(files: seq<FileEntry>, contents: seq<Content>, dd: bool): seq<Byte>
    requires |files| == |contents|
  {
    if files == [] then []
    else Locals(files[..|files| - 1], contents[..|files| - 1], dd)
         + LocalPart(files[|files| - 1], contents[|files| - 1].data, dd)
  }

  function Directory(files: seq<FileEntry>, dd: bool): seq<Byte> {
    if files == [] then []
    else Directory(files[..|files| - 1], dd) + (DirectoryRecord(files[|files| - 1], dd) + files[|files| - 1].path)
  }

  ghost function Archive(files: seq<FileEntry>, contents: seq<Content>, dd: bool): seq<Byte>
    requires |files| == |contents|
  {
    Locals(files, contents, dd) + Directory(files, dd) +
    EndRecord(|files|, |Directory(files, dd)|, |Locals(files, contents, dd)|)
  }

  predicate Aligned(e: FileEntry, alignment: nat) {
    alignment != 0 ==> (e.local_file_header_offset + LFH_SIZE + |e.path| + e.padding_length) % alignment == 0
  }

  /** An entry says of its content what is true. */
  predicate Describes(e: FileEntry, c: Content, start: nat) {
    && InRange(e) && ValidName(e.path) && e.compressed_size == e.uncompressed_size == |c.data|
    && e.local_file_header_offset == start && Aligned(e, c.alignment)
  }

  /** An entry that has a name and a time, and no data yet. */
  predicate Starts(e: FileEntry, path: seq<Byte>, mod_time: nat, mod_date: nat, alignment: nat) {
    && e.path == path && e.last_mod_time == mod_time && e.last_mod_date == mod_date
    && e.crc32 == e.compressed_size == e.uncompressed_size == 0 && Padded(e, alignment)
  }

  /** The padding is the one for where the entry stands. */
  predicate Padded(e: FileEntry, alignment: nat) {
    e.padding_length == Padding(e.local_file_header_offset + LFH_SIZE + |e.path|, alignment)
  }

  predicate GoodAlignment(alignment: nat) {
    (alignment == 0 || Bitwise(And, alignment, alignment - 1) == 0) && alignment <= UINT16_MAX
  }

  /** The first reason for which an entry cannot be started. */
  function StartStatus(state: State, count: nat, offset: nat, path: seq<Byte>, align32: bool, alignment: nat): Status {
    if state != WritingZip then InvalidState
    else if count == UINT16_MAX then IoError
    else if align32 then InvalidAlign32Flag
    else if !GoodAlignment(alignment) then InvalidAlignment
    else if offset > UINT32_MAX then IoError
    else if !ValidName(path) then InvalidEntryName
    else NoError
  }

  ghost predicate AllDescribe(files: seq<FileEntry>, contents: seq<Content>, dd: bool) {
    && |files| == |contents|
    && (files != [] ==>
          && AllDescribe(files[..|files| - 1], contents[..|files| - 1], dd)
          && Describes(files[|files| - 1], contents[|files| - 1],
                       |Locals(files[..|files| - 1], contents[..|files| - 1], dd)|))
  }

  // ----- alignment

  /** Padding up to the alignment makes the offset a multiple of it. */
  lemma PaddingAligns(offset: nat, alignment: nat)
    requires alignment > 0
    ensures (offset + (alignment - offset % alignment)) % alignment == 0
  {
    var q, r := Divides(offset, alignment);
    Distributes(q, 1, alignment);
    RemainderIs(offset + (alignment - r), alignment, q + 1, 0);
  }

  /** The padding of an entry whose data would start at the offset. */
  function Padding(offset: nat, alignment: nat): nat {
    if alignment != 0 && Bitwise(And, offset, alignment - 1) != 0 then alignment - offset % alignment else 0
  }

  lemma PaddingIs(offset: nat, alignment: nat)
    requires alignment == 0 || Bitwise(And, alignment, alignment - 1) == 0
    ensures Padding(offset, alignment) <= alignment
            && (alignment != 0 ==> (offset + Padding(offset, alignment)) % alignment == 0)
  {
    hide Bitwise;
    if alignment != 0 {
      var n := PowerOfTwo(alignment);
      AndWithMask(offset, n);
      PaddingAligns(offset, alignment);
    }
  }

  // ----- the file

  /** The file after bytes were written at a position. */
  function Overwritten(file: seq<Byte>, pos: nat, bytes: seq<Byte>): seq<Byte>
    requires pos <= |file|
  {
    file[..pos] + bytes + if pos + |bytes| < |file| then file[pos + |bytes|..] else []
  }

  lemma Extends(file: seq<Byte>, pos: nat, bytes: seq<Byte>)
    requires pos <= |file|
    ensures var f := Overwritten(file, pos, bytes); |f| >= pos + |bytes| && f[..pos + |bytes|] == file[..pos] + bytes
  {
  }

  /** Replacing a header in the middle by one of the same size. */
  lemma PartOf(file: seq<Byte>, n: nat, a: nat, b: nat)
    requires a <= b <= n <= |file|
    ensures file[..n][a..b] == file[a..b]
  {
  }

  lemma Parts(a: seq<Byte>, b: seq<Byte>, c: seq<Byte>)
    ensures (a + (b + c))[0..|a|] == a && (a + (b + c))[|a| + |b|..|a| + |b| + |c|] == c
  {
  }

  lemma Overwrites(file: seq<Byte>, pos: nat, bytes: seq<Byte>, n: nat)
    requires pos + |bytes| <= n <= |file|
    ensures |Overwritten(file, pos, bytes)| == |file|
    ensures Overwritten(file, pos, bytes)[..n] == file[0..pos] + bytes + file[pos + |bytes|..n]
  {
    assert file[..pos] == file[0..pos];
  }

  lemma Replaces(file: seq<Byte>, before: seq<Byte>, header: seq<Byte>, header': seq<Byte>, after: seq<Byte>)
    requires |header| == |header'| && |before| + |header| + |after| <= |file|
    requires file[..|before| + |header| + |after|] == before + (header + after)
    ensures var f := Overwritten(file, |before|, header');
            |f| == |file| && f[..|before| + |header| + |after|] == before + (header' + after)
  {
    var n := |before| + |header| + |after|;
    var f := Overwritten(file, |before|, header');
    PartOf(file, n, 0, |before|);
    PartOf(file, n, |before| + |header|, n);
    Parts(before, header, after);
    Overwrites(file, |before|, header', n);
    Associates(before, header', after);
  }

  // ----- what the file holds

  /** The finished entries stand at the start of the file. */
  ghost predicate HoldsFiles(file: seq<Byte>, offset: nat, files: seq<FileEntry>, contents: seq<Content>, dd: bool) {
    && |files| == |contents| <= UINT16_MAX && AllDescribe(files, contents, dd)
    && offset <= |file| && file[..offset] == Locals(files, contents, dd)
  }

  /** An entry that is being written: its header does not know its size yet. */
  function Opened(e: FileEntry, data: seq<Byte>): seq<Byte> {
    LocalHeader(e, true) + Tail(e, data)
  }

  /** After the finished entries stands the one that is being written. */
  ghost predicate HoldsOpen(file: seq<Byte>, offset: nat, files: seq<FileEntry>, contents: seq<Content>, dd: bool,
                            e: FileEntry, c: Content) {
    && |files| == |contents| < UINT16_MAX && AllDescribe(files, contents, dd)
    && Describes(e, c, |Locals(files, contents, dd)|)
    && offset <= |file| && file[..offset] == Locals(files, contents, dd) + Opened(e, c.data)
  }

  lemma Associates(a: seq<Byte>, b: seq<Byte>, c: seq<Byte>)
    ensures a + b + c == a + (b + c)
  {
  }

  lemma Opens(file: seq<Byte>, offset: nat, files: seq<FileEntry>, contents: seq<Content>, dd: bool, e: FileEntry,
              c: Content)
    requires HoldsFiles(file, offset, files, contents, dd) && |files| < UINT16_MAX && Describes(e, c, offset)
             && c.data == []
    ensures var bytes := LocalHeader(e, true) + e.path + Zeros(e.padding_length);
            HoldsOpen(Overwritten(file, offset, bytes), offset + |bytes|, files, contents, dd, e, c)
  {
    hide LocalHeader, AllDescribe, Describes, Locals, Overwritten;
    var bytes := LocalHeader(e, true) + e.path + Zeros(e.padding_length);
    assert Zeros(e.padding_length) + c.data == Zeros(e.padding_length);
    Associates(LocalHeader(e, true), e.path, Zeros(e.padding_length));
    Extends(file, offset, bytes);
  }

  lemma Stores(file: seq<Byte>, offset: nat, files: seq<FileEntry>, contents: seq<Content>, dd: bool,
               e: FileEntry, c: Content, bytes: seq<Byte>, e': FileEntry)
    requires HoldsOpen(file, offset, files, contents, dd, e, c) && |c.data| + |bytes| <= UINT32_MAX
             && e'.crc32 <= UINT32_MAX
    requires e' == e.(crc32 := e'.crc32, compressed_size := |c.data| + |bytes|, uncompressed_size := |c.data| + |bytes|)
    ensures HoldsOpen(Overwritten(file, offset, bytes), offset + |bytes|, files, contents, dd, e',
                      c.(data := c.data + bytes))
  {
    hide AllDescribe, Locals, Overwritten, ValidName, LocalHeader, Tail;
    Extends(file, offset, bytes);
    assert LocalHeader(e', true) == LocalHeader(e, true) by { HeaderWithoutSize(e, e'); }
    assert Tail(e', c.data + bytes) == Tail(e, c.data) + bytes by { TailGrows(e, e', c.data, bytes); }
    Associates(LocalHeader(e, true), Tail(e, c.data), bytes);
    Associates(Locals(files, contents, dd), Opened(e, c.data), bytes);
  }

  lemma HeaderWithoutSize(e: FileEntry, e': FileEntry)
    requires e' == e.(crc32 := e'.crc32, compressed_size := e'.compressed_size, uncompressed_size :=
                      e'.uncompressed_size)
    ensures LocalHeader(e', true) == LocalHeader(e, true)
  {
  }

  lemma TailGrows(e: FileEntry, e': FileEntry, data: seq<Byte>, bytes: seq<Byte>)
    requires e'.path == e.path && e'.padding_length == e.padding_length
    ensures Tail(e', data + bytes) == Tail(e, data) + bytes
  {
    var zeros := Zeros(e.padding_length);
    Associates(zeros, data, bytes);
    Associates(e.path, zeros + data, bytes);
  }

  lemma OneMoreFile(files: seq<FileEntry>, contents: seq<Content>, dd: bool, e: FileEntry, c: Content)
    requires AllDescribe(files, contents, dd) && Describes(e, c, |Locals(files, contents, dd)|)
    ensures AllDescribe(files + [e], contents + [c], dd)
    ensures Locals(files + [e], contents + [c], dd) == Locals(files, contents, dd) + LocalPart(e, c.data, dd)
  {
    hide LocalPart, Describes;
    var fs, cs := files + [e], contents + [c];
    assert fs[..|fs| - 1] == files && cs[..|cs| - 1] == contents;
  }

  /** A descriptor after the data finishes the entry. */
  lemma Finishes(file: seq<Byte>, offset: nat, files: seq<FileEntry>, contents: seq<Content>, e: FileEntry, c: Content)
    requires HoldsOpen(file, offset, files, contents, true, e, c)
    ensures HoldsFiles(Overwritten(file, offset, Descriptor(e)), offset + |Descriptor(e)|, files + [e], contents + [c],
                       true)
  {
    hide AllDescribe, Locals, Overwritten, LocalHeader, Descriptor, Describes, Tail;
    Extends(file, offset, Descriptor(e));
    OneMoreFile(files, contents, true, e, c);
    Associates(LocalHeader(e, true), Tail(e, c.data), Descriptor(e));
    Associates(Locals(files, contents, true), Opened(e, c.data), Descriptor(e));
  }

  /** Rewriting the header with the size finishes the entry. */
  lemma Rewrites(file: seq<Byte>, offset: nat, files: seq<FileEntry>, contents: seq<Content>, e: FileEntry, c: Content)
    requires HoldsOpen(file, offset, files, contents, false, e, c)
    ensures e.local_file_header_offset <= |file|
    ensures HoldsFiles(Overwritten(file, e.local_file_header_offset, LocalHeader(e, false)), offset, files + [e],
                       contents + [c], false)
  {
    hide AllDescribe, Locals, Overwritten, LocalHeader, Tail, InRange, ValidName, Aligned;
    LocalHeaderSize(e, true);
    LocalHeaderSize(e, false);
    var before := Locals(files, contents, false);
    assert |file[..offset]| == offset;
    Replaces(file, before, LocalHeader(e, true), LocalHeader(e, false), Tail(e, c.data));
    OneMoreFile(files, contents, false, e, c);
    assert Tail(e, c.data) + [] == Tail(e, c.data);
  }

  /** Going back to the header of the last entry leaves those before it. */
  lemma Discards(file: seq<Byte>, offset: nat, files: seq<FileEntry>, contents: seq<Content>, dd: bool)
    requires HoldsFiles(file, offset, files, contents, dd) && files != []
    ensures var start := files[|files| - 1].local_file_header_offset;
            start <= offset && HoldsFiles(file, start, files[..|files| - 1], contents[..|files| - 1], dd)
  {
    hide LocalPart, InRange, ValidName, Aligned;
    var start := files[|files| - 1].local_file_header_offset;
    assert |file[..offset]| == offset;
    assert file[..start] == file[..offset][..start];
  }

  class ZipWriter {
    const seekable: bool
    const crc: (nat, seq<Byte>) -> nat
    var file: seq<Byte>
    var pos: nat
    var current_offset: nat
    var state: State
    var files: seq<FileEntry>
    var current: FileEntry
    ghost var contents: seq<Content>
    ghost var content: Content

    predicate UsesDescriptor()
    {
      !seekable
    }

    ghost predicate Valid()
      reads this
    {
      match state
      case WritingZip => pos == current_offset && HoldsFiles(file, current_offset, files, contents, UsesDescriptor())
      case WritingEntry =>
        pos == current_offset && HoldsOpen(file, current_offset, files, contents, UsesDescriptor(), current, content)
      case Done =>
        && |files| == |contents| <= UINT16_MAX && AllDescribe(files, contents, UsesDescriptor())
        && file == Archive(files, contents, UsesDescriptor()) && |file| <= UINT32_MAX + EOCD_SIZE
      case Errored => true
    }

    constructor (seekable: bool, crc: (nat, seq<Byte>) -> nat)
      ensures Valid() && state == WritingZip && files == [] && contents == [] && this.seekable == seekable
              && this.crc == crc
    {
      this.seekable, this.crc, file, pos, current_offset, state, files := seekable, crc, [], 0, 0, WritingZip, [];
      current := FileEntry([], 0, 0, 0, 0, 0, 0, 0);
      contents, content := [], Content([], 0);
    }

    method HandleError(code: Status) returns (status: Status)
      modifies `state
      ensures state == Errored && status == code
    {
      state := Errored;
      return code;
    }

    method Write(bytes: seq<Byte>)
      requires pos <= |file|
      modifies `file, `pos
      ensures file == Overwritten(old(file), old(pos), bytes) && pos == old(pos) + |bytes| <= |file|
    {
      file := Overwritten(file, pos, bytes);
      pos := pos + |bytes|;
    }

    /** Starts an entry whose data will be aligned.  Zero means no alignment. */
    method StartAlignedEntryWithTime(path: seq<Byte>, align32: bool, mod_time: nat, mod_date: nat, alignment: nat)
      returns (status: Status)
      requires Valid() && mod_time <= UINT16_MAX && mod_date <= UINT16_MAX
      modifies this
      ensures Valid() && files == old(files) && contents == old(contents)
      ensures status == StartStatus(old(state), |old(files)|, old(current_offset), path, align32, alignment)
      ensures status == NoError <==> old(state) == WritingZip && |old(files)| < UINT16_MAX && !align32
                                     && GoodAlignment(alignment) && old(current_offset) <= UINT32_MAX && ValidName(path)
      ensures status == NoError ==> state == WritingEntry && content == Content([], alignment)
                                    && Starts(current, path, mod_time, mod_date, alignment)
      ensures status != NoError ==> state == if status == IoError then Errored else old(state)
      ensures status != NoError ==> current == old(current) && content == old(content)
    {
      hide HoldsFiles, HoldsOpen, Bitwise, ValidName, LocalHeader, Archive, AllDescribe, Overwritten, Padding, Zeros,
           Describes;
      if state != WritingZip { return InvalidState; }
      assert |files| <= UINT16_MAX && current_offset <= |file|
             by { FilesFit(file, current_offset, files, contents, UsesDescriptor()); }
      if |files| == UINT16_MAX { status := HandleError(IoError); return; }
      if align32 { return InvalidAlign32Flag; }
      if !(alignment == 0 || Bitwise(And, alignment, alignment - 1) == 0) { return InvalidAlignment; }
      if alignment > UINT16_MAX { return InvalidAlignment; }
      if current_offset > UINT32_MAX { status := HandleError(IoError); return; }
      var valid := IsValidEntryName(path);
      if !valid { return InvalidEntryName; }
      var offset := current_offset + LFH_SIZE + |path|;
      var e := FileEntry(path, 0, 0, 0, mod_time, mod_date, Padding(offset, alignment), current_offset);
      NewDescribes(e, alignment);
      Opens(file, current_offset, files, contents, UsesDescriptor(), e, Content([], alignment));
      Write(LocalHeader(e, true) + path + Zeros(e.padding_length));
      current, content := e, Content([], alignment);
      current_offset := offset + e.padding_length;
      state := WritingEntry;
      return NoError;
    }

    method StartEntry(path: seq<Byte>, align32: bool, mod_time: nat, mod_date: nat) returns (status: Status)
      requires Valid() && mod_time <= UINT16_MAX && mod_date <= UINT16_MAX
      modifies this
      ensures Valid() && files == old(files) && contents == old(contents)
      ensures status == NoError <==> old(state) == WritingZip && |old(files)| < UINT16_MAX
                                     && old(current_offset) <= UINT32_MAX && ValidName(path)
      ensures status == NoError ==> var alignment := if align32 then 4 else 0;
                                    && state == WritingEntry && content == Content([], alignment)
                                    && Starts(current, path, mod_time, mod_date, alignment)
    {
      assert Bitwise(And, 4, 3) == 0 by { PowerOfTwoIs(2); }
      status := StartAlignedEntryWithTime(path, false, mod_time, mod_date, if align32 then 4 else 0);
    }

    method DiscardLastEntry() returns (status: Status)
      requires Valid()
      modifies this
      ensures Valid() && status == if old(state) == WritingZip && old(files) != [] then NoError else InvalidState
      ensures if status == NoError then state == WritingZip && files == old(files)[..|old(files)| - 1]
              && contents == old(contents)[..|files|]
              else state == old(state) && files == old(files) && contents == old(contents)
      ensures current == old(current) && content == old(content)
    {
      hide HoldsFiles, HoldsOpen, Archive, AllDescribe;
      if state != WritingZip || files == [] { return InvalidState; }
      Discards(file, current_offset, files, contents, UsesDescriptor());
      assert current_offset <= |file| && |files| == |contents|
             by { FilesFit(file, current_offset, files, contents, UsesDescriptor()); }
      current_offset := files[|files| - 1].local_file_header_offset;
      pos := current_offset;
      contents := contents[..|files| - 1];
      files := files[..|files| - 1];
      return NoError;
    }

    /** The entry with more data. */
    function Longer(e: FileEntry, bytes: seq<Byte>): FileEntry {
      e.(crc32 := crc(e.crc32, bytes) % (UINT32_MAX + 1), compressed_size := e.compressed_size + |bytes|,
         uncompressed_size := e.uncompressed_size + |bytes|)
    }

    /** Appends to the data of the entry. */
    method WriteBytes(bytes: seq<Byte>) returns (status: Status)
      requires Valid()
      modifies this
      ensures Valid() && files == old(files) && contents == old(contents)
      ensures status == NoError <==> old(state) == WritingEntry && |old(content).data| + |bytes| <= UINT32_MAX
      ensures if status == NoError then state == WritingEntry
              && content == old(content).(data := old(content).data + bytes)
              else state == Errored
      ensures status == NoError ==> current == Longer(old(current), bytes)
      ensures status != NoError ==> status == if old(state) == WritingEntry then IoError else InvalidState
    {
      hide HoldsFiles, HoldsOpen, Archive, AllDescribe, Overwritten;
      if state != WritingEntry { status := HandleError(InvalidState); return; }
      OpenFits(file, current_offset, files, contents, UsesDescriptor(), current, content);
      if |bytes| + current.uncompressed_size > UINT32_MAX { status := HandleError(IoError); return; }
      var e := Longer(current, bytes);
      Stores(file, current_offset, files, contents, UsesDescriptor(), current, content, bytes, e);
      Write(bytes);
      current_offset := current_offset + |bytes|;
      current, content := e, content.(data := content.data + bytes);
      return NoError;
    }

    method FinishEntry() returns (status: Status)
      requires Valid()
      modifies this
      ensures Valid() && status == if old(state) == WritingEntry then NoError else InvalidState
      ensures if status == NoError then state == WritingZip && files == old(files) + [old(current)]
              && contents == old(contents) + [old(content)]
              else state == old(state) && files == old(files) && contents == old(contents)
      ensures current == old(current) && content == old(content)
    {
      hide HoldsFiles, HoldsOpen, Archive, AllDescribe, Overwritten, LocalHeader, Descriptor;
      if state != WritingEntry { return InvalidState; }
      OpenFits(file, current_offset, files, contents, UsesDescriptor(), current, content);
      if UsesDescriptor() {
        Finishes(file, current_offset, files, contents, current, content);
        Write(Descriptor(current));
        DescriptorSize(current);
        current_offset := current_offset + 16;
      } else {
        Rewrites(file, current_offset, files, contents, current, content);
        pos := current.local_file_header_offset;
        Write(LocalHeader(current, false));
        pos := current_offset;
      }
      contents := contents + [content];
      files := files + [current];
      state := WritingZip;
      return NoError;
    }

    /** Writes a record for each entry. */
    method WriteDirectory()
      requires pos == current_offset <= |file|
      modifies `file, `pos, `current_offset
      ensures pos == current_offset == old(current_offset) + |Directory(files, UsesDescriptor())| <= |file|
      ensures file[..current_offset] == old(file)[..old(current_offset)] + Directory(files, UsesDescriptor())
    {
      hide Directory, Overwritten, DirectoryRecord;
      ghost var locals := file[..current_offset];
      DirectoryBegins(files, UsesDescriptor(), locals);
      for i := 0 to |files|
        invariant pos == current_offset <= |file| && file[..current_offset] ==
                  locals + Directory(files[..i], UsesDescriptor())
      {
        DirectoryGrows(file, current_offset, files, i, UsesDescriptor(), locals);
        Write(DirectoryRecord(files[i], UsesDescriptor()) + files[i].path);
        DirectoryRecordSize(files[i], UsesDescriptor());
        current_offset := current_offset + CDR_SIZE + |files[i].path|;
      }
      assert files[..|files|] == files;
      assert |file[..current_offset]| == current_offset;
    }

    /** Writes the central directory and the end record, and cuts off what is left after them. */
    method Finish() returns (status: Status)
      requires Valid()
      modifies this
      ensures Valid() && files == old(files) && contents == old(contents)
      ensures status == NoError ==> state == Done && old(state) == WritingZip
      ensures status != NoError ==> state == old(state) || (state == Errored && old(state) == WritingZip)
      ensures status == if old(state) != WritingZip then InvalidState
                        else if old(current_offset) + |Directory(files, UsesDescriptor())| <= UINT32_MAX then NoError
                        else IoError
    {
      hide HoldsFiles, HoldsOpen, AllDescribe, Overwritten, Directory, Locals, EndRecord;
      if state != WritingZip { return InvalidState; }
      FilesFit(file, current_offset, files, contents, UsesDescriptor());
      var start_of_cdr := current_offset;
      WriteDirectory();
      if current_offset > UINT32_MAX { status := HandleError(IoError); return; }
      var end := EndRecord(|files|, current_offset - start_of_cdr, start_of_cdr);
      Extends(file, current_offset, end);
      EndRecordSize(|files|, current_offset - start_of_cdr, start_of_cdr);
      Write(end);
      current_offset := current_offset + EOCD_SIZE;
      file := file[..current_offset];
      state := Done;
      return NoError;
    }
  }

  /** A new entry is empty and aligned. */
  lemma NewDescribes(e: FileEntry, alignment: nat)
    requires ValidName(e.path) && alignment <= UINT16_MAX
             && (alignment == 0 || Bitwise(And, alignment, alignment - 1) == 0)
    requires e.crc32 == e.compressed_size == e.uncompressed_size == 0 && e.last_mod_time <= UINT16_MAX
             && e.last_mod_date <= UINT16_MAX
    requires e.padding_length == Padding(e.local_file_header_offset + LFH_SIZE + |e.path|, alignment)
    ensures Describes(e, Content([], alignment), e.local_file_header_offset)
    ensures |LocalHeader(e, true) + e.path + Zeros(e.padding_length)| == LFH_SIZE + |e.path| + e.padding_length
  {
    hide Bitwise, LocalHeader, Padding;
    PaddingIs(e.local_file_header_offset + LFH_SIZE + |e.path|, alignment);
    LocalHeaderSize(e, true);
  }

  lemma FilesFit(file: seq<Byte>, offset: nat, files: seq<FileEntry>, contents: seq<Content>, dd: bool)
    requires HoldsFiles(file, offset, files, contents, dd)
    ensures |files| == |contents| <= UINT16_MAX && offset <= |file| && AllDescribe(files, contents, dd)
    ensures file[..offset] == Locals(files, contents, dd) && offset == |Locals(files, contents, dd)|
  {
    assert |file[..offset]| == offset;
  }

  lemma OpenFits(file: seq<Byte>, offset: nat, files: seq<FileEntry>, contents: seq<Content>, dd: bool, e: FileEntry,
                 c: Content)
    requires HoldsOpen(file, offset, files, contents, dd, e, c)
    ensures offset <= |file| && e.compressed_size == e.uncompressed_size == |c.data| <= UINT32_MAX
  {
  }

  lemma DirectoryBegins(files: seq<FileEntry>, dd: bool, locals: seq<Byte>)
    ensures locals + Directory(files[..0], dd) == locals
  {
  }

  lemma DirectoryGrows(file: seq<Byte>, offset: nat, files: seq<FileEntry>, i: nat, dd: bool, locals: seq<Byte>)
    requires i < |files| && offset <= |file| && file[..offset] == locals + Directory(files[..i], dd)
    ensures var record := DirectoryRecord(files[i], dd) + files[i].path;
            && offset + |record| <= |Overwritten(file, offset, record)|
            && Overwritten(file, offset, record)[..offset + |record|] == locals + Directory(files[..i + 1], dd)
  {
    hide DirectoryRecord, Overwritten;
    var record := DirectoryRecord(files[i], dd) + files[i].path;
    Extends(file, offset, record);
    assert files[..i + 1][..i] == files[..i];
    Associates(locals, Directory(files[..i], dd), record);
  }
}
