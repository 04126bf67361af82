/** The kernel's file system (os-1k/kernel.c): the file table, the in-memory disk that
    mirrors it, and the file system calls, with the string and memory routines of common.c. */
module FileTable {
  import opened Basics
  import opened TarFormat

  /** The first slot whose name is the C string in filename, |fs| if there is none. */
  function FindName(fs: seq<File>, filename: seq<byte>): (i: nat)
    ensures i <= |fs|
    ensures i < |fs| ==> Str(fs[i].name) == Str(filename)
    ensures forall k :: 0 <= k < i ==> Str(fs[k].name) != Str(filename)
  {
    if fs == [] || Str(fs[0].name) == Str(filename) then 0 else 1 + FindName(fs[1..], filename)
  }

  /** Lengths beyond the file buffer are replaced by the file's size. */
  function EffectiveLength(f: File, len: nat): nat {
    if len > DATA_SIZE then f.size else len
  }

  /** SYS_WRITEFILE on an existing file. */
  function WriteAt(fs: seq<File>, i: nat, buf: seq<byte>, len: nat): (r: seq<File>)
    requires TableOk(fs) && i < |fs| && EffectiveLength(fs[i], len) <= |buf|
    ensures TableOk(r) && |r| == |fs|
    ensures forall k :: 0 <= k < |fs| ==> r[k].name == fs[k].name && r[k].inUse == fs[k].inUse
  {
    var n := EffectiveLength(fs[i], len);
    assert FileOk(fs[i]);
    fs[i := fs[i].(data := Put(fs[i].data, 0, buf[..n]), size := n)]
  }

  /** A write touches one file: its size becomes the length, and stays for a length beyond 1024;
      that many bytes at the start of its data come from the buffer, the rest stays. */
  lemma WriteChanges(fs: seq<File>, i: nat, buf: seq<byte>, len: nat)
    requires TableOk(fs) && i < |fs| && EffectiveLength(fs[i], len) <= |buf|
    ensures var r := WriteAt(fs, i, buf, len);
            && (forall k :: 0 <= k < |fs| && k != i ==> r[k] == fs[k])
            && r[i].name == fs[i].name && r[i].size == (if len > 1024 then fs[i].size else len) <= |buf|
            && |r[i].data| == |fs[i].data| == 1024
            && forall k :: 0 <= k < 1024 ==> r[i].data[k] == if k < r[i].size then buf[k] else fs[i].data[k]
  {
    assert FileOk(fs[i]);
    hide StrLen;
  }

  /** SYS_READFILE: the bytes copied out; None for a name that does not exist. */
  function Read(fs: seq<File>, filename: seq<byte>, len: nat): Content
    requires TableOk(fs)
  {
    var i := FindName(fs, filename);
    if i == |fs| then NotFound else assert FileOk(fs[i]); Bytes(fs[i].data[..EffectiveLength(fs[i], len)])
  }

  datatype Content = NotFound | Bytes(bytes: seq<byte>)

  /** A read finds nothing exactly if no slot has the name. Otherwise it gives the first such file's
      data: as many bytes as asked for, or the file's size for a length beyond 1024. */
  lemma ReadFinds(fs: seq<File>, filename: seq<byte>, len: nat)
    requires TableOk(fs)
    ensures Read(fs, filename, len) == NotFound <==> forall k :: 0 <= k < |fs| ==> Str(fs[k].name) != Str(filename)
    ensures forall k ::
              0 <= k < |fs| && Str(fs[k].name) == Str(filename)
              && (forall j :: 0 <= j < k ==> Str(fs[j].name) != Str(filename)) ==>
                && FileOk(fs[k])
                && Read(fs, filename, len) == Bytes(fs[k].data[..if len > 1024 then fs[k].size else len])
  {
    hide Str, FileOk;
    var i := FindName(fs, filename);
    forall k | 0 <= k < |fs| && Str(fs[k].name) == Str(filename)
               && forall j :: 0 <= j < k ==> Str(fs[j].name) != Str(filename)
      ensures k == i && FileOk(fs[k])
    {
      assert fs[k] in fs;
    }
  }

  // ---------------------------------------------------------------- runs of calls

  /** One SYS_WRITEFILE call with a length within the buffers. */
  datatype Write = Write(filename: seq<byte>, bytes: seq<byte>)

  predicate WriteOk(w: Write) { |w.bytes| <= DATA_SIZE }

  function Apply(fs: seq<File>, w: Write): (r: seq<File>)
    requires TableOk(fs) && WriteOk(w)
    ensures TableOk(r) && |r| == |fs|
    ensures forall k :: 0 <= k < |fs| ==> r[k].name == fs[k].name && r[k].inUse == fs[k].inUse
  {
    var i := FindName(fs, w.filename);
    if i == |fs| then fs else WriteAt(fs, i, w.bytes, |w.bytes|)
  }

  function ApplyAll(fs: seq<File>, ws: seq<Write>): (r: seq<File>)
    requires TableOk(fs) && forall w :: w in ws ==> WriteOk(w)
    ensures TableOk(r) && |r| == |fs|
    ensures forall k :: 0 <= k < |fs| ==> r[k].name == fs[k].name && r[k].inUse == fs[k].inUse
    decreases |ws|
  {
    if ws == [] then fs else Apply(ApplyAll(fs, ws[..|ws| - 1]), ws[|ws| - 1])
  }

  /** The bytes of the last write to that name. */
  function Latest(ws: seq<Write>, filename: seq<byte>): Content
    decreases |ws|
  {
    if ws == [] then NotFound
    else if Str(ws[|ws| - 1].filename) == Str(filename) then Bytes(ws[|ws| - 1].bytes)
    else Latest(ws[..|ws| - 1], filename)
  }

  lemma {:induction false} SameNamesSameSlot(fs: seq<File>, gs: seq<File>, filename: seq<byte>)
    requires |fs| == |gs| && forall k :: 0 <= k < |fs| ==> fs[k].name == gs[k].name
    ensures FindName(fs, filename) == FindName(gs, filename)
    decreases |fs|
  {
    if fs != [] {
      SameNamesSameSlot(fs[1..], gs[1..], filename);
    }
  }

  /** What a read of a file gives whose latest write was bytes, on top of older data. */
  function Over(bytes: seq<byte>, older: seq<byte>, len: nat): seq<byte>
    requires |bytes| <= DATA_SIZE == |older|
  {
    if len > DATA_SIZE then bytes else if len <= |bytes| then bytes[..len] else bytes + older[|bytes|..len]
  }

  /** A read right after a write to the same name gives the bytes written: as many as asked
      for, all of them if more than the file buffer is asked for; a request in between also
      gets what stood behind them before. */
  lemma ReadAfterWrite(fs: seq<File>, w: Write, filename: seq<byte>, len: nat)
    requires TableOk(fs) && WriteOk(w) && FindName(fs, filename) < |fs|
    requires Str(w.filename) == Str(filename)
    ensures FileOk(fs[FindName(fs, filename)])
    ensures Read(Apply(fs, w), filename, len) == Bytes(Over(w.bytes, fs[FindName(fs, filename)].data, len))
  {
    var f := fs[FindName(fs, filename)];
    assert f in fs;
    assert FileOk(f) && |f.data| == DATA_SIZE;
    hide FindName, Str, StrLen, FileOk, Put, Over, Apply;
    SameNamesSameSlot(fs, Apply(fs, w), filename);
    SameStringSameSlot(fs, w.filename, filename);
    Written(fs, w);
    PutOver(f.data, w.bytes, len);
  }

  lemma PutOver(older: seq<byte>, bytes: seq<byte>, len: nat)
    requires |bytes| <= DATA_SIZE == |older|
    ensures Put(older, 0, bytes)[..if len > DATA_SIZE then |bytes| else len] == Over(bytes, older, len)
  {
  }

  /** A write replaces the start of the named file's data, and its size. */
  lemma Written(fs: seq<File>, w: Write)
    requires TableOk(fs) && WriteOk(w) && FindName(fs, w.filename) < |fs|
    ensures var f := fs[FindName(fs, w.filename)];
            && |w.bytes| <= |f.data|
            && Apply(fs, w)[FindName(fs, w.filename)] == f.(data := Put(f.data, 0, w.bytes), size := |w.bytes|)
  {
    assert FileOk(fs[FindName(fs, w.filename)]);
    assert w.bytes[..|w.bytes|] == w.bytes;
    hide FindName, StrLen, Put;
  }

  /** A write to another name does not show. */
  lemma ReadAfterOtherWrite(fs: seq<File>, w: Write, filename: seq<byte>, len: nat)
    requires TableOk(fs) && WriteOk(w)
    requires Str(w.filename) != Str(filename)
    ensures Read(Apply(fs, w), filename, len) == Read(fs, filename, len)
  {
    SameNamesSameSlot(fs, Apply(fs, w), filename);
    hide FindName, Str, FileOk;
  }

  /** So what it gives is the start of the bytes written, or all of them, exactly if it asks for
      no more than those or for more than the file buffer. */
  lemma ReadAfterWriteExactly(fs: seq<File>, w: Write, filename: seq<byte>, len: nat)
    requires TableOk(fs) && WriteOk(w) && FindName(fs, filename) < |fs|
    requires Str(w.filename) == Str(filename)
    ensures var r := Read(Apply(fs, w), filename, len);
            && r.Bytes? && (r.bytes <= w.bytes <==> len <= |w.bytes| || len > DATA_SIZE)
            && (r.bytes <= w.bytes ==> r.bytes == if len > DATA_SIZE then w.bytes else w.bytes[..len])
  {
    ReadAfterWrite(fs, w, filename, len);
    hide Read, Apply, FindName, Str, FileOk;
  }

  /** After any run of writes, reading a file gives the start of the latest write to its name, or
      all of it, exactly if the read is no longer than that write, or asks for more than the file
      buffer. */
  lemma {:induction false} ReadsLatestWrite(fs: seq<File>, ws: seq<Write>, filename: seq<byte>, len: nat)
    requires TableOk(fs) && forall w :: w in ws ==> WriteOk(w)
    requires FindName(fs, filename) < |fs|
    requires Latest(ws, filename).Bytes?
    ensures var latest, r := Latest(ws, filename).bytes, Read(ApplyAll(fs, ws), filename, len);
            && r.Bytes? && (r.bytes <= latest <==> len <= |latest| || len > DATA_SIZE)
            && (r.bytes <= latest ==> r.bytes == if len > DATA_SIZE then latest else latest[..len])
    decreases |ws|
  {
    hide FindName, Str, FileOk, Read, Apply;
    var before, w := ws[..|ws| - 1], ws[|ws| - 1];
    assert w in ws && forall v :: v in before ==> v in ws;
    var mid := ApplyAll(fs, before);
    SameNamesSameSlot(fs, mid, filename);
    if Str(w.filename) == Str(filename) {
      ReadAfterWriteExactly(mid, w, filename, len);
    } else {
      ReadsLatestWrite(fs, before, filename, len);
      ReadAfterOtherWrite(mid, w, filename, len);
    }
  }

  lemma {:induction false} SameStringSameSlot(fs: seq<File>, a: seq<byte>, b: seq<byte>)
    requires Str(a) == Str(b)
    ensures FindName(fs, a) == FindName(fs, b)
    decreases |fs|
  {
    if fs != [] {
      SameStringSameSlot(fs[1..], a, b);
    }
  }

  // ---------------------------------------------------------------- flush and load

  /** fs_init's effect on one slot: name with its NUL, data, size; what stood behind stays. */
  function Install(f: File, e: Entry): File
    requires |f.name| == NAME_SIZE && |f.data| == DATA_SIZE && EntryOk(e)
  {
    File(true, Put(f.name, 0, e.name + [0]), Put(f.data, 0, e.data), |e.data|)
  }

  /** Whatever stood in the slot: it is in use, with exactly that name, size and data, and the rest of
      its data as before. */
  lemma InstalledIs(f: File, e: Entry)
    requires |f.name| == NAME_SIZE && |f.data| == DATA_SIZE && EntryOk(e)
    ensures var g := Install(f, e);
            && FileOk(g) && g.inUse && Str(g.name) == e.name
            && g.size == |e.data| <= 1024 && g.data == e.data + f.data[|e.data|..]
  {
    StrLenIs(Install(f, e).name, |e.name|);
  }

  function Unused(): File { File(false, Zeros(NAME_SIZE), Zeros(DATA_SIZE), 0) }

  /** A file installed in a zeroed slot is the file that was printed. */
  lemma InstallUnused(f: File)
    requires FileOk(f) && f.inUse
    ensures EntryOk(EntryOf(f))
    ensures var g := Install(Unused(), EntryOf(f)); FileOk(g) && g.inUse && EntryOf(g) == EntryOf(f)
  {
    var e := EntryOf(f);
    var g := Install(Unused(), e);
    StrLenIs(g.name, |e.name|);
  }

  lemma ArchiveAppend(fs: seq<File>, gs: seq<File>)
    requires TableOk(fs) && TableOk(gs)
    ensures TableOk(fs + gs) && Archive(fs + gs) == Archive(fs) + Archive(gs)
    decreases |fs|
  {
    if fs == [] {
      assert fs + gs == gs;
    } else {
      assert (fs + gs)[1..] == fs[1..] + gs;
      ArchiveAppend(fs[1..], gs);
      assert fs[0] in fs;
      hide Record, FileOk;
      if fs[0].inUse {
        assert Archive(fs + gs) == Record(fs[0]) + (Archive(fs[1..]) + Archive(gs));
      }
    }
  }

  /** The table after fs_init has read es. */
  function Installed(fs: seq<File>, es: seq<Entry>): (r: seq<File>)
    requires |es| <= |fs| && Sane(es) && forall f :: f in fs ==> |f.name| == NAME_SIZE && |f.data| == DATA_SIZE
    ensures |r| == |fs|
    ensures forall i :: 0 <= i < |fs| ==> r[i] == if i < |es| then Install(fs[i], es[i]) else fs[i]
  {
    seq(|fs|, i requires 0 <= i < |fs| => if i < |es| then Install(fs[i], es[i]) else fs[i])
  }

  /** Every slot stays a proper file or unused. */
  lemma InstalledOk(fs: seq<File>, es: seq<Entry>)
    requires |es| <= |fs| && Sane(es) && forall f :: f in fs ==> |f.name| == NAME_SIZE && |f.data| == DATA_SIZE
    ensures TableOk(fs) ==> TableOk(Installed(fs, es))
  {
    if TableOk(fs) {
      var r := Installed(fs, es);
      forall i | 0 <= i < |r|
        ensures FileOk(r[i])
      {
        assert FileOk(fs[i]);
        if i < |es| {
          assert EntryOk(es[i]);
          StrLenIs(r[i].name, |es[i].name|);
        }
      }
    }
  }

  function Preceded(done: seq<Entry>, p: Parsed): Parsed {
    match p
    case Files(es) => Files(done + es)
    case failed => failed
  }

  /** Loading a flushed disk into an unused table gives back the files that were in use. */
  lemma ReloadedTable(fs: seq<File>)
    requires TableOk(fs)
    ensures var empty := seq(|fs|, _ => Unused());
            && Sane(Entries(fs))
            && (forall f :: f in empty ==> |f.name| == NAME_SIZE && |f.data| == DATA_SIZE)
            && TableOk(Installed(empty, Entries(fs)))
            && Entries(Installed(empty, Entries(fs))) == Entries(fs)
  {
    var empty, es := seq(|fs|, _ => Unused()), Entries(fs);
    assert forall f :: f in empty ==> f == Unused();
    EntriesSane(fs);
    UnusedOk();
    var r := Installed(empty, es);
    forall k | 0 <= k < |r|
      ensures FileOk(r[k]) && (r[k].inUse <==> k < |es|) && (k < |es| ==> EntryOf(r[k]) == es[k])
    {
      if k < |es| {
        var f := EntryIsFile(fs, k);
        InstallUnused(f);
      }
    }
    LeadingEntries(r, es);
  }

  lemma UnusedOk()
    ensures FileOk(Unused())
  {
    StrLenIs(Zeros(NAME_SIZE), 0);
  }

  lemma {:induction false} LeadingEntries(r: seq<File>, es: seq<Entry>)
    requires |es| <= |r| && TableOk(r)
    requires forall k :: 0 <= k < |r| ==> (r[k].inUse <==> k < |es|) && (k < |es| ==> EntryOf(r[k]) == es[k])
    ensures Entries(r) == es
    decreases |r|
  {
    if r != [] {
      if es == [] {
        LeadingEntries(r[1..], []);
      } else {
        LeadingEntries(r[1..], es[1..]);
      }
    }
  }

  lemma {:induction false} EntryIsFile(fs: seq<File>, k: nat) returns (f: File)
    requires TableOk(fs) && k < |Entries(fs)|
    ensures FileOk(f) && f.inUse && Entries(fs)[k] == EntryOf(f)
    decreases |fs|
  {
    assert fs[0] in fs;
    if fs[0].inUse && k == 0 {
      f := fs[0];
    } else {
      f := EntryIsFile(fs[1..], if fs[0].inUse then k - 1 else k);
    }
  }

  lemma EntriesSane(fs: seq<File>)
    requires TableOk(fs)
    ensures Sane(Entries(fs))
  {
    forall e | e in Entries(fs)
      ensures EntryOk(e)
    {
      var k :| 0 <= k < |Entries(fs)| && Entries(fs)[k] == e;
      var f := EntryIsFile(fs, k);
    }
  }
}

module FileSystem {
  import opened Basics
  import opened PhysicalMemory
  import opened TarFormat
  import opened FileTable

  /** strcmp: zero exactly for equal strings. It reads s1 no further than s2 reaches. */
  method StrCmp(s1: seq<byte>, s2: seq<byte>) returns (r: int)
    requires StrLen(s2) < |s2| && (StrLen(s1) < |s1| || StrLen(s2) < |s1|)
    ensures r == 0 <==> Str(s1) == Str(s2)
    ensures exists i :: 0 <= i < |s1| && i < |s2| && s1[..i] == s2[..i] && (s1[i] != s2[i] || s1[i] == 0)
              && r == s1[i] as int - s2[i] as int
  {
    var i := 0;
    while s1[i] != 0 && s2[i] != 0
      invariant i <= StrLen(s1) && i <= StrLen(s2) && s1[..i] == s2[..i]
      decreases |s1| - i
    {
      if s1[i] != s2[i] {
        break;
      }
      i := i + 1;
    }
    r := s1[i] as int - s2[i] as int;
    if s1[i] == 0 && s2[i] == 0 {
      assert StrLen(s1) == i == StrLen(s2);
    } else if s1[i] != 0 && s2[i] != 0 {
      assert Str(s1)[i] == s1[i] && Str(s2)[i] == s2[i];
    }
  }

  /** strcpy(dst + at, src) */
  method StrCpy(dst: array<byte>, at: nat, src: seq<byte>)
    requires StrLen(src) < |src| && at + StrLen(src) + 1 <= dst.Length
    modifies dst
    ensures dst[..] == Put(old(dst[..]), at, Str(src) + [0])
  {
    var i := 0;
    while src[i] != 0
      invariant i <= StrLen(src)
      invariant dst[..] == Put(old(dst[..]), at, src[..i])
      decreases |src| - i
    {
      dst[at + i] := src[i];
      i := i + 1;
    }
    dst[at + i] := 0;
    assert i == StrLen(src);
    assert dst[..] == Put(old(dst[..]), at, src[..i] + [0]);
  }

  /** oct2int */
  method Oct2Int(oct: seq<byte>) returns (dec: nat)
    ensures dec == OctValue(oct)
  {
    dec := 0;
    var i := 0;
    while i < |oct|
      invariant i <= |oct| && OctValue(oct) == OctValue(oct[i..], dec)
    {
      if oct[i] < ZERO || oct[i] > ZERO + 7 {
        break;
      }
      assert oct[i..][1..] == oct[i + 1..];
      dec := dec * 8 + (oct[i] - ZERO);
      i := i + 1;
    }
  }

  /** The loops that print a field of octal digits, last digit first. */
  method PutOctal(dst: array<byte>, at: nat, digits: nat, v: nat)
    requires at + digits <= dst.Length
    modifies dst
    ensures dst[..] == Put(old(dst[..]), at, Octal(v, digits))
  {
    var i: nat, rest: nat := digits, v;
    ghost var done: seq<byte> := [];
    while i > 0
      invariant i <= digits && |done| == digits - i
      invariant Octal(v, digits) == Octal(rest, i) + done
      invariant dst[..] == Put(old(dst[..]), at + i, done)
    {
      dst[at + i - 1] := rest % 8 + ZERO;
      assert Octal(rest, i) == Octal(rest / 8, i - 1) + [rest % 8 + ZERO];
      done := [rest % 8 + ZERO] + done;
      rest := rest / 8;
      i := i - 1;
    }
    assert done == Octal(v, digits);
  }

  datatype HeaderRead = End | Corrupt | Found(e: Entry)

  lemma PrecededMore(done: seq<Entry>, e: Entry, p: Parsed)
    ensures Preceded(done, Preceded([e], p)) == Preceded(done + [e], p)
  {
    if p.Files? {
      assert done + ([e] + p.es) == done + [e] + p.es;
    }
  }

  class FileSystem {
    const files: array<File>
    const disk: array<byte>

    /** The tables have their sizes and every slot is a proper file or unused. */
    ghost predicate Valid()
      reads files
    {
      files.Length == FILES_MAX && disk.Length == DISK_SIZE && TableOk(files[..])
    }

    /** The disk holds what the file table says. */
    ghost predicate Mirrored()
      reads files, disk
    {
      Valid() && Fits(files[..]) && disk[..] == Image(files[..])
    }

    constructor ()
      ensures Valid() && forall i :: 0 <= i < FILES_MAX ==> files[i] == Unused()
      ensures forall i :: 0 <= i < 2 ==> files[i] == File(false, Zeros(100), Zeros(1024), 0)
      ensures Mirrored()
      ensures fresh(files) && fresh(disk)
    {
      UnusedOk();
      files := new File[FILES_MAX](_ => Unused());
      disk := new byte[DISK_SIZE](_ => 0);
      new;
      EmptyArchive(files[..]);
      assert disk[..] == Zeros(DISK_SIZE);
    }

    /** One round of fs_flush's loop: print file f at offset off. */
    method FlushFile(off: nat, f: File)
      requires disk.Length == DISK_SIZE && FileOk(f) && off + |Record(f)| <= DISK_SIZE
      requires forall i :: off <= i < DISK_SIZE ==> disk[i] == 0
      modifies disk
      ensures disk[..] == Put(old(disk[..]), off, Record(f))
    {
      SizesOk(f);
      ghost var d0 := disk[..];
      PrintHeader(off, f);
      hide FileOk, Header, Record, Put, SameOutside;
      ghost var d2 := disk[..];
      CopyBytes(disk, off + HEADER_SIZE, f.data[..f.size]);
      CopyIsPut(d2, disk[..], off + HEADER_SIZE, f.data[..f.size]);
      RecordBuilt(d0, off, f);
    }

    /** The header with its checksum. */
    method PrintHeader(off: nat, f: File)
      requires disk.Length == DISK_SIZE && FileOk(f) && off + HEADER_SIZE <= DISK_SIZE
      requires forall i :: off <= i < DISK_SIZE ==> disk[i] == 0
      modifies disk
      ensures disk[..] == Put(old(disk[..]), off, Header(f))
    {
      hide FileOk, Header, Bare, Put, SameOutside, ZeroWithin, Octal, Sum;
      ghost var d0 := disk[..];
      ClearBytes(disk, off, HEADER_SIZE);
      AlreadyZero(d0, disk[..], off, HEADER_SIZE);
      WriteBare(off, f);
      var checksum := SumHeader(off);
      HeaderBuilt(d0, off, f);
      assert disk[..][off..off + HEADER_SIZE] == disk[off..off + HEADER_SIZE];
      PutOctal(disk, off + CHECKSUM_AT, CHECKSUM_DIGITS, checksum);
    }

    method FsFlush()
      requires Valid() && Fits(files[..])
      modifies disk
      ensures Mirrored() && files[..] == old(files[..])
      ensures Parse(disk[..], 0, FILES_MAX) == Files(Entries(files[..]))
    {
      ghost var fs := files[..];
      FlushRoundTrip(fs);
      hide Flushed, FileOk, Record, Archive, Parse, Entries, Put, AlignUp, Fits, Image;
      ClearBytes(disk, 0, DISK_SIZE);
      NothingFlushed(disk[..], fs);
      var off: nat, i: nat := 0, 0;
      while i < FILES_MAX
        invariant i <= FILES_MAX && files[..] == fs && TableOk(fs[..i])
        invariant Flushed(disk[..], fs[..i], off)
      {
        ghost var before := disk[..];
        FlushReady(before, fs, i, off);
        if files[i].inUse {
          FlushFile(off, files[i]);
          FlushStep(before, disk[..], fs, i, off);
          off := off + AlignUp(HEADER_SIZE + files[i].size);
        } else {
          FlushStep(before, before, fs, i, off);
        }
        i := i + 1;
      }
      AllFlushed(disk[..], fs, off);
      assert fs[..i] == fs;
    }

    /** FILES_MAX stands for the null pointer. */
    method FsLookup(filename: seq<byte>) returns (i: nat)
      requires Valid() && StrLen(filename) < |filename|
      ensures i == FindName(files[..], filename)
    {
      hide Str;
      ghost var fs := files[..];
      i := 0;
      while i < FILES_MAX
        invariant i <= FILES_MAX
        invariant FindName(fs, filename) == i + FindName(fs[i..], filename)
      {
        assert fs[i] in fs;
        var differ := StrCmp(files[i].name, filename);
        if differ == 0 {
          return;
        }
        assert fs[i..][1..] == fs[i + 1..];
        i := i + 1;
      }
    }

    /** The SYS_WRITEFILE case: -1 for an unknown name, else the length written. */
    method WriteFile(filename: seq<byte>, buf: seq<byte>, len: nat) returns (eax: int)
      requires Valid() && StrLen(filename) < |filename|
      requires var i := FindName(files[..], filename);
               i < FILES_MAX ==> EffectiveLength(files[i], len) <= |buf| && Fits(WriteAt(files[..], i, buf, len))
      modifies files, disk
      ensures var i := FindName(old(files[..]), filename);
              if i == FILES_MAX then eax == -1 && files[..] == old(files[..]) && disk[..] == old(disk[..])
              else eax == EffectiveLength(old(files[..])[i], len)
                   && files[..] == WriteAt(old(files[..]), i, buf, len) && Mirrored()
                   && Parse(disk[..], 0, FILES_MAX) == Files(Entries(files[..]))
    {
      hide Fits, Image, Parse, Entries;
      var i := FsLookup(filename);
      if i == FILES_MAX {
        return -1;
      }
      ghost var fs := files[..];
      assert fs[i] in fs;
      var n := if len > DATA_SIZE then files[i].size else len;
      files[i] := files[i].(data := Put(files[i].data, 0, buf[..n]), size := n);
      assert files[..] == WriteAt(fs, i, buf, len);
      FsFlush();
      return n;
    }

    /** The SYS_READFILE case: the bytes copied to the caller's buffer. */
    method ReadFile(filename: seq<byte>, len: nat) returns (eax: int, bytes: seq<byte>)
      requires Valid() && StrLen(filename) < |filename|
      ensures match Read(files[..], filename, len)
              case NotFound => eax == -1 && bytes == []
              case Bytes(b) => eax == |b| && bytes == b
    {
      hide FindName;
      var i := FsLookup(filename);
      if i == FILES_MAX {
        return -1, [];
      }
      assert files[..][i] in files[..];
      var n := if len > DATA_SIZE then files[i].size else len;
      return n, files[i].data[..n];
    }

    /** False is the panic on a header that is no ustar header. */
    method FsInit() returns (ok: bool)
      requires files.Length == FILES_MAX && disk.Length == DISK_SIZE
      requires forall i :: 0 <= i < FILES_MAX ==> |files[i].name| == NAME_SIZE && |files[i].data| == DATA_SIZE
      requires !Parse(disk[..], 0, FILES_MAX).Overrun?
      modifies files
      ensures ok <==> Parse(disk[..], 0, FILES_MAX).Files?
      ensures ok ==> files[..] == Installed(old(files[..]), Parse(disk[..], 0, FILES_MAX).es)
      ensures ok && TableOk(old(files[..])) ==> Valid()
    {
      hide Parse, EntryOk, FileOk;
      ghost var d, fs, all := disk[..], files[..], Parse(disk[..], 0, FILES_MAX);
      ghost var done: seq<Entry> := [];
      assert Preceded([], all) == all;
      var off: nat, i: nat := 0, 0;
      while i < FILES_MAX
        invariant i <= FILES_MAX && |done| == i && disk[..] == d
        invariant Sane(done) && files[..] == Installed(fs, done)
        invariant all == Preceded(done, Parse(d, off, FILES_MAX - i))
      {
        var header := ReadHeader(off, FILES_MAX - i);
        match header {
          case End =>
            assert done + [] == done;
            InstalledOk(fs, done);
            return true;
          case Corrupt =>
            return false;
          case Found(e) =>
            files[i] := Install(files[i], e);
            assert files[..] == Installed(fs, done + [e]);
            PrecededMore(done, e, Parse(d, off + AlignUp(HEADER_SIZE + |e.data|), FILES_MAX - i - 1));
            off := off + AlignUp(HEADER_SIZE + |e.data|);
            done := done + [e];
            i := i + 1;
        }
      }
      assert Parse(d, off, 0) == Files([]) by { ParseNothing(d, off, 0); }
      assert done + [] == done;
      InstalledOk(fs, done);
      return true;
    }

    /** One round of fs_init's loop: what stands at offset off. */
    method ReadHeader(off: nat, ghost room: nat) returns (r: HeaderRead)
      requires room > 0 && !Parse(disk[..], off, room).Overrun?
      ensures match r
              case End => Parse(disk[..], off, room) == Files([])
              case Corrupt => Parse(disk[..], off, room) == BadMagic
              case Found(e) => EntryOk(e)
                               && Parse(disk[..], off, room) ==
                                    Preceded([e], Parse(disk[..], off + AlignUp(HEADER_SIZE + |e.data|), room - 1))
    {
      hide Parse, MagicOk, Str, StrLen, OctValue;
      ghost var d := disk[..];
      ParseInside(d, off, room);
      if disk[off] == 0 {
        ParseNothing(d, off, room);
        return End;
      }
      var h := disk[off..off + HEADER_SIZE];
      assert h == d[off..off + HEADER_SIZE];
      ConstStrings();
      MagicIsString(h);
      var magic := StrCmp(h[MAGIC_AT..MAGIC_AT + 6], MAGIC + [0]);
      if magic != 0 {
        return Corrupt;
      }
      var filesz := Oct2Int(h[SIZE_AT..SIZE_AT + SIZE_DIGITS]);
      var name := h[..NAME_SIZE];
      var data := disk[off + HEADER_SIZE..off + HEADER_SIZE + filesz];
      assert data == d[off + HEADER_SIZE..off + HEADER_SIZE + filesz];
      ParseStep(d, off, room, h);
      return Found(Entry(Str(name), data));
    }

    /** The fields of the header other than its checksum. */
    method WriteBare(off: nat, f: File)
      requires disk.Length == DISK_SIZE && FileOk(f) && off + HEADER_SIZE <= DISK_SIZE
      requires forall i :: off <= i < DISK_SIZE ==> disk[i] == 0
      modifies disk
      ensures disk[..] == Put(old(disk[..]), off, Bare(f))
    {
      ghost var d0 := disk[..];
      StrCpy(disk, off, f.name);
      ConstStrings();
      StrCpy(disk, off + MODE_AT, MODE + [0]);
      StrCpy(disk, off + MAGIC_AT, MAGIC + [0]);
      StrCpy(disk, off + VERSION_AT, VERSION + [0]);
      disk[off + TYPE_AT] := ZERO;
      PutOctal(disk, off + SIZE_AT, SIZE_DIGITS, f.size);
      BareBuilt(d0, off, f);
    }

    /** checksum = ' ' * 8 plus the unsigned bytes of the header */
    method SumHeader(off: nat) returns (checksum: nat)
      requires off + HEADER_SIZE <= disk.Length
      ensures checksum == Sum(disk[off..off + HEADER_SIZE]) + CHECKSUM_SIZE * BLANK
    {
      checksum := BLANK * CHECKSUM_SIZE;
      var i := 0;
      while i < HEADER_SIZE
        invariant i <= HEADER_SIZE && checksum == Sum(disk[off..off + i]) + CHECKSUM_SIZE * BLANK
      {
        assert disk[off..off + i + 1] == disk[off..off + i] + [disk[off + i]];
        checksum := checksum + disk[off + i];
        i := i + 1;
      }
    }
  }

  /** The disk holds the archive of done, up to off, and zeros. */
  ghost predicate Flushed(disk: seq<byte>, done: seq<File>, off: nat)
    requires TableOk(done)
  {
    off == |Archive(done)| <= DISK_SIZE && disk == Archive(done) + Zeros(DISK_SIZE - off)
  }

  lemma NothingFlushed(d: seq<byte>, fs: seq<File>)
    requires |d| == DISK_SIZE && ZeroWithin(d, 0, DISK_SIZE)
    ensures TableOk(fs[..0]) && Flushed(d, fs[..0], 0)
  {
    EmptyPrefix();
    assert fs[..0] == [];
  }

  /** There is room and zeros for the next file. */
  lemma FlushReady(d: seq<byte>, fs: seq<File>, i: nat, off: nat)
    requires TableOk(fs) && Fits(fs) && i < |fs| && TableOk(fs[..i]) && Flushed(d, fs[..i], off)
    ensures |d| == DISK_SIZE && FileOk(fs[i]) && forall k :: off <= k < DISK_SIZE ==> d[k] == 0
    ensures fs[i].inUse ==> off + |Record(fs[i])| <= DISK_SIZE
  {
    PrefixFits(fs, i);
    hide FileOk, Record, Archive;
  }

  lemma FlushStep(d: seq<byte>, d': seq<byte>, fs: seq<File>, i: nat, off: nat)
    requires TableOk(fs) && Fits(fs) && i < |fs| && TableOk(fs[..i]) && Flushed(d, fs[..i], off) && FileOk(fs[i])
    requires fs[i].inUse ==> off + |Record(fs[i])| <= |d| && d' == Put(d, off, Record(fs[i]))
    requires !fs[i].inUse ==> d' == d
    ensures TableOk(fs[..i + 1])
    ensures Flushed(d', fs[..i + 1], off + if fs[i].inUse then AlignUp(HEADER_SIZE + fs[i].size) else 0)
  {
    PrefixFits(fs, i);
    hide FileOk, Record, Archive, Put, AlignUp;
    if fs[i].inUse {
      PutPastArchive(Archive(fs[..i]), Record(fs[i]), DISK_SIZE);
    }
  }

  lemma AllFlushed(d: seq<byte>, fs: seq<File>, off: nat)
    requires TableOk(fs) && Fits(fs) && TableOk(fs[..|fs|]) && Flushed(d, fs[..|fs|], off)
    ensures d == Image(fs)
  {
    assert fs[..|fs|] == fs;
    hide FileOk, Archive;
  }

  lemma EmptyArchive(fs: seq<File>)
    requires forall f :: f in fs ==> f == Unused()
    ensures TableOk(fs) && Archive(fs) == []
    decreases |fs|
  {
    UnusedOk();
    if fs != [] {
      assert fs[0] in fs;
      assert forall f :: f in fs[1..] ==> f in fs;
      EmptyArchive(fs[1..]);
    }
  }

  lemma MagicIsString(h: seq<byte>)
    requires |h| == HEADER_SIZE
    ensures MagicOk(h) <==> Str(h[MAGIC_AT..MAGIC_AT + 6]) == MAGIC
  {
    var m := h[MAGIC_AT..MAGIC_AT + 6];
    assert m[..5] == h[MAGIC_AT..MAGIC_AT + 5] && m[5] == h[MAGIC_AT + 5];
    if MagicOk(h) {
      assert forall i :: 0 <= i < 5 ==> m[i] == m[..5][i];
      StrLenIs(m, 5);
    }
    if Str(m) == MAGIC {
      assert StrLen(m) == 5 && m[..5] == MAGIC;
    }
  }

  lemma EmptyPrefix()
    ensures TableOk([]) && Archive([]) == []
  {
  }

  lemma PrefixFits(fs: seq<File>, i: nat)
    requires TableOk(fs) && Fits(fs) && i < |fs|
    ensures TableOk(fs[..i]) && TableOk(fs[..i + 1]) && FileOk(fs[i])
    ensures Archive(fs[..i + 1]) == if fs[i].inUse then Archive(fs[..i]) + Record(fs[i]) else Archive(fs[..i])
    ensures |Archive(fs[..i + 1])| <= DISK_SIZE
  {
    assert fs[i] in fs;
    assert fs[..i + 1] == fs[..i] + [fs[i]];
    ArchiveAppend(fs[..i], [fs[i]]);
    assert [fs[i]][1..] == [];
    assert fs == fs[..i + 1] + fs[i + 1..];
    ArchiveAppend(fs[..i + 1], fs[i + 1..]);
    hide Record;
    assert Archive([fs[i]]) == if fs[i].inUse then Record(fs[i]) + [] else [];
  }

  lemma PutPastArchive(a: seq<byte>, r: seq<byte>, n: nat)
    requires |a| + |r| <= n
    ensures Put(a + Zeros(n - |a|), |a|, r) == (a + r) + Zeros(n - |a| - |r|)
  {
  }

  lemma ConstStrings()
    ensures Str(MODE + [0]) == MODE && Str(MAGIC + [0]) == MAGIC && Str(VERSION + [0]) == VERSION
    ensures StrLen(MODE + [0]) == 6 && StrLen(MAGIC + [0]) == 5 && StrLen(VERSION + [0]) == 2
  {
    StrLenIs(MODE + [0], 6);
    StrLenIs(MAGIC + [0], 5);
    StrLenIs(VERSION + [0], 2);
  }

  function BareSteps(d: seq<byte>, off: nat, f: File): seq<byte>
    requires FileOk(f) && off + HEADER_SIZE <= |d|
  {
    var d1 := Put(d, off, Str(f.name) + [0]);
    var d2 := Put(d1, off + MODE_AT, MODE + [0]);
    var d3 := Put(d2, off + MAGIC_AT, MAGIC + [0]);
    var d4 := Put(d3, off + VERSION_AT, VERSION + [0]);
    var d5 := d4[off + TYPE_AT := ZERO];
    Put(d5, off + SIZE_AT, Octal(f.size, SIZE_DIGITS))
  }

  /** Field by field, the header comes out as laid out. */
  lemma BareBuilt(d: seq<byte>, off: nat, f: File)
    requires FileOk(f) && off + HEADER_SIZE <= |d| && forall i :: off <= i < |d| ==> d[i] == 0
    ensures BareSteps(d, off, f) == Put(d, off, Bare(f))
  {
    var b, wanted := BareSteps(d, off, f), Put(d, off, Bare(f));
    hide BareSteps, Put;
    forall i | 0 <= i < |d|
      ensures b[i] == wanted[i]
    {
      BareByteBuilt(d, off, f, i);
    }
  }

  lemma BareByteBuilt(d: seq<byte>, off: nat, f: File, i: nat)
    requires FileOk(f) && off + HEADER_SIZE <= |d| && i < |d| && forall i :: off <= i < |d| ==> d[i] == 0
    ensures |BareSteps(d, off, f)| == |d| && BareSteps(d, off, f)[i] == Put(d, off, Bare(f))[i]
  {
    hide Octal, StrLen, Put;
    if off <= i < off + HEADER_SIZE {
      assert Bare(f)[i - off] == BareByte(f, i - off);
    }
    hide Bare;
  }

  /** Clearing zeros changes nothing. */
  lemma AlreadyZero(d: seq<byte>, d': seq<byte>, off: nat, n: nat)
    requires off + n <= |d| && ZeroWithin(d', off, off + n) && SameOutside(d, d', off, off + n)
    requires forall i :: off <= i < |d| ==> d[i] == 0
    ensures d' == d
  {
  }

  lemma CopyIsPut(d: seq<byte>, d': seq<byte>, at: nat, src: seq<byte>)
    requires at + |src| <= |d| && SameOutside(d, d', at, at + |src|) && d'[at..at + |src|] == src
    ensures d' == Put(d, at, src)
  {
    forall i | 0 <= i < |d|
      ensures d'[i] == Put(d, at, src)[i]
    {
      assert at <= i < at + |src| ==> d'[i] == d'[at..at + |src|][i - at];
    }
  }

  /** The checksum goes into the printed header and nowhere else. */
  lemma HeaderBuilt(d: seq<byte>, off: nat, f: File)
    requires FileOk(f) && off + HEADER_SIZE <= |d|
    ensures Put(d, off, Bare(f))[off..off + HEADER_SIZE] == Bare(f)
    ensures Put(Put(d, off, Bare(f)), off + CHECKSUM_AT, Octal(Sum(Bare(f)) + CHECKSUM_SIZE * BLANK, CHECKSUM_DIGITS))
            == Put(d, off, Header(f))
  {
    hide FileOk, Octal, Sum, Bare;
  }

  /** Header, then data, on zeros: the record, padding included. */
  lemma RecordBuilt(d: seq<byte>, off: nat, f: File)
    requires FileOk(f) && off + |Record(f)| <= |d| && forall i :: off <= i < |d| ==> d[i] == 0
    requires HEADER_SIZE + f.size <= |Record(f)|
    ensures Put(Put(d, off, Header(f)), off + HEADER_SIZE, f.data[..f.size]) == Put(d, off, Record(f))
  {
    hide Header, FileOk;
  }
}
