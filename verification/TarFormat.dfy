/** The tar archive that fs_flush prints and fs_init reads (os-1k/kernel.c, kernel.h), as
    byte sequences: header layout, octal fields, checksum, sector rounding. */
module TarFormat {
  import opened Basics

  const FILES_MAX := 2
  const SECTOR_SIZE := 512
  const HEADER_SIZE := 512
  const NAME_SIZE := 100
  const DATA_SIZE := 1024
  const DISK_SIZE := 2560      // two struct file of 1132 bytes, rounded up to sectors

  // struct tar_header, up to its flexible data member
  const MODE_AT := 100
  const SIZE_AT := 124
  const SIZE_DIGITS := 12
  const CHECKSUM_AT := 148
  const CHECKSUM_SIZE := 8
  const CHECKSUM_DIGITS := 6
  const TYPE_AT := 156
  const MAGIC_AT := 257
  const VERSION_AT := 263

  const MODE: seq<byte> := [48, 48, 48, 54, 52, 52]        // "000644"
  const MAGIC: seq<byte> := [117, 115, 116, 97, 114]       // "ustar"
  const VERSION: seq<byte> := [48, 48]                     // "00"

  // ---------------------------------------------------------------- C strings

  /** Length of the C string that starts at s[0]: bytes before the first NUL. */
  function StrLen(s: seq<byte>): (n: nat)
    ensures n <= |s| && (n < |s| ==> s[n] == 0)
    ensures forall i :: 0 <= i < n ==> s[i] != 0
  {
    if s == [] || s[0] == 0 then 0 else 1 + StrLen(s[1..])
  }

  function Str(s: seq<byte>): seq<byte> { s[..StrLen(s)] }

  /** There is no other length. */
  lemma StrLenIs(s: seq<byte>, n: nat)
    requires n <= |s| && (n < |s| ==> s[n] == 0) && forall i :: 0 <= i < n ==> s[i] != 0
    ensures StrLen(s) == n
  {
  }

  // ---------------------------------------------------------------- octal fields

  /** v in that many octal digits, most significant first. */
  function Octal(v: nat, digits: nat): (s: seq<byte>)
    ensures |s| == digits
    ensures forall i :: 0 <= i < digits ==> ZERO <= s[i] < ZERO + 8
  {
    if digits == 0 then [] else Octal(v / 8, digits - 1) + [v % 8 + ZERO]
  }

  /** oct2int: the value of the leading octal digits. */
  function OctValue(s: seq<byte>, dec: nat := 0): nat
    decreases |s|
  {
    if s == [] || s[0] < ZERO || s[0] > ZERO + 7 then dec else OctValue(s[1..], dec * 8 + (s[0] - ZERO))
  }

  lemma {:induction false} OctValueAppend(s: seq<byte>, d: byte, dec: nat)
    requires forall i :: 0 <= i < |s| ==> ZERO <= s[i] < ZERO + 8
    requires ZERO <= d < ZERO + 8
    ensures OctValue(s + [d], dec) == OctValue(s, dec) * 8 + (d - ZERO)
    decreases |s|
  {
    if s == [] {
      assert OctValue([d][1..], dec * 8 + (d - ZERO)) == dec * 8 + (d - ZERO);
    } else {
      assert (s + [d])[1..] == s[1..] + [d];
      OctValueAppend(s[1..], d, dec * 8 + (s[0] - ZERO));
    }
  }

  /** What is printed with enough digits is read back. */
  lemma {:induction false} OctalRoundTrip(v: nat, digits: nat)
    requires v < Pow(8, digits)
    ensures OctValue(Octal(v, digits)) == v
    decreases digits
  {
    if digits > 0 {
      OctalRoundTrip(v / 8, digits - 1);
      OctValueAppend(Octal(v / 8, digits - 1), v % 8 + ZERO, 0);
    }
  }

  // ---------------------------------------------------------------- byte sums

  function Sum(s: seq<byte>): nat {
    if s == [] then 0 else Sum(s[..|s| - 1]) + s[|s| - 1]
  }

  lemma {:induction false} SumBound(s: seq<byte>)
    ensures Sum(s) <= 255 * |s|
    decreases |s|
  {
    if s != [] {
      SumBound(s[..|s| - 1]);
    }
  }

  lemma {:induction false} SumAppend(s: seq<byte>, t: seq<byte>)
    ensures Sum(s + t) == Sum(s) + Sum(t)
    decreases |t|
  {
    if t == [] {
      assert s + t == s;
    } else {
      assert (s + t)[..|s + t| - 1] == s + t[..|t| - 1];
      SumAppend(s, t[..|t| - 1]);
    }
  }

  lemma {:induction false} SumConstant(s: seq<byte>, b: byte)
    requires forall i :: 0 <= i < |s| ==> s[i] == b
    ensures Sum(s) == b * |s|
    decreases |s|
  {
    if s != [] {
      SumConstant(s[..|s| - 1], b);
    }
  }

  // ---------------------------------------------------------------- one file

  /** struct file: name and data keep whatever stands behind their NUL and their size. */
  datatype File = File(inUse: bool, name: seq<byte>, data: seq<byte>, size: nat)

  /** A file as the kernel keeps it: the name is terminated, size is within data. A slot is
      in use exactly if it has a name. */
  predicate FileOk(f: File) {
    && |f.name| == NAME_SIZE && StrLen(f.name) < NAME_SIZE
    && |f.data| == DATA_SIZE && f.size <= DATA_SIZE
    && (f.inUse <==> StrLen(f.name) > 0)
  }

  /** The header with the checksum field still zero. */
  function BareByte(f: File, i: nat): byte
    requires FileOk(f) && i < HEADER_SIZE
  {
    if i < StrLen(f.name) then f.name[i]
    else if MODE_AT <= i < MODE_AT + 6 then MODE[i - MODE_AT]
    else if SIZE_AT <= i < SIZE_AT + SIZE_DIGITS then Octal(f.size, SIZE_DIGITS)[i - SIZE_AT]
    else if i == TYPE_AT then ZERO
    else if MAGIC_AT <= i < MAGIC_AT + 5 then MAGIC[i - MAGIC_AT]
    else if VERSION_AT <= i < VERSION_AT + 2 then VERSION[i - VERSION_AT]
    else 0
  }

  function Bare(f: File): (h: seq<byte>)
    requires FileOk(f)
    ensures |h| == HEADER_SIZE && forall i :: 0 <= i < HEADER_SIZE ==> h[i] == BareByte(f, i)
  {
    seq(HEADER_SIZE, i requires 0 <= i < HEADER_SIZE => BareByte(f, i))
  }

  /** s with its bytes from at on replaced by bs. */
  function Put(s: seq<byte>, at: nat, bs: seq<byte>): (r: seq<byte>)
    requires at + |bs| <= |s|
    ensures |r| == |s|
    ensures forall i :: 0 <= i < |s| ==> r[i] == if at <= i < at + |bs| then bs[i - at] else s[i]
  {
    s[..at] + bs + s[at + |bs|..]
  }

  /** The sum that a tar reader expects: every header byte, the checksum field as spaces. */
  function TarSum(h: seq<byte>): nat
    requires |h| == HEADER_SIZE
  {
    Sum(Put(h, CHECKSUM_AT, Blanks(CHECKSUM_SIZE)))
  }

  function Header(f: File): (h: seq<byte>)
    requires FileOk(f)
    ensures |h| == HEADER_SIZE
  {
    Put(Bare(f), CHECKSUM_AT, Octal(Sum(Bare(f)) + CHECKSUM_SIZE * BLANK, CHECKSUM_DIGITS))
  }

  lemma SumOfBlanks(h: seq<byte>)
    requires |h| == HEADER_SIZE && forall i :: CHECKSUM_AT <= i < CHECKSUM_AT + CHECKSUM_SIZE ==> h[i] == 0
    ensures TarSum(h) == Sum(h) + CHECKSUM_SIZE * BLANK
  {
    hide Sum;
    var a, z, b := h[..CHECKSUM_AT], h[CHECKSUM_AT..CHECKSUM_AT + CHECKSUM_SIZE], h[CHECKSUM_AT + CHECKSUM_SIZE..];
    SumOfThree(a, z, b);
    SumOfThree(a, Blanks(CHECKSUM_SIZE), b);
    SumConstant(z, 0);
    SumConstant(Blanks(CHECKSUM_SIZE), BLANK);
    assert h == a + z + b;
  }

  lemma SumOfThree(a: seq<byte>, b: seq<byte>, c: seq<byte>)
    ensures Sum(a + b + c) == Sum(a) + Sum(b) + Sum(c)
  {
    hide Sum;
    SumAppend(a + b, c);
    SumAppend(a, b);
  }

  lemma SumWithBlanks(h: seq<byte>)
    requires |h| == HEADER_SIZE
    ensures TarSum(h) == Sum(h[..148]) + 8 * 32 + Sum(h[156..])
  {
    hide Sum;
    SumOfThree(h[..CHECKSUM_AT], Blanks(CHECKSUM_SIZE), h[CHECKSUM_AT + CHECKSUM_SIZE..]);
    SumConstant(Blanks(CHECKSUM_SIZE), BLANK);
  }

  /** Every header carries six octal digits that decode to the unsigned sum of its bytes with
      the checksum field counted as spaces; the sum always fits. */
  lemma ChecksumCorrect(f: File)
    requires FileOk(f)
    ensures TarSum(Header(f)) < Pow(8, CHECKSUM_DIGITS)
    ensures OctValue(Header(f)[CHECKSUM_AT..CHECKSUM_AT + CHECKSUM_DIGITS]) == TarSum(Header(f))
    ensures OctValue(Header(f)[148..154]) == Sum(Header(f)[..148]) + 8 * 32 + Sum(Header(f)[156..])
  {
    SumWithBlanks(Header(f));
    var bare, h := Bare(f), Header(f);
    var v := Sum(bare) + CHECKSUM_SIZE * BLANK;
    assert Put(h, CHECKSUM_AT, Blanks(CHECKSUM_SIZE)) == Put(bare, CHECKSUM_AT, Blanks(CHECKSUM_SIZE));
    SumOfBlanks(bare);
    SumBound(bare);
    Pow8Values();
    OctalRoundTrip(v, CHECKSUM_DIGITS);
    assert h[CHECKSUM_AT..CHECKSUM_AT + CHECKSUM_DIGITS] == Octal(v, CHECKSUM_DIGITS);
  }

  lemma Pow8Values()
    ensures Pow(8, 4) == 4096 && Pow(8, 6) == 262144 && Pow(8, SIZE_DIGITS) > DATA_SIZE
  {
    assert Pow(8, 2) == 64 && Pow(8, 4) == 8 * (8 * Pow(8, 2)) && Pow(8, 6) == 8 * (8 * Pow(8, 4));
    assert Pow(8, 8) == 8 * (8 * Pow(8, 6)) && Pow(8, 10) == 8 * (8 * Pow(8, 8)) && Pow(8, 12) == 8 * (8 * Pow(8, 10));
  }

  // ---------------------------------------------------------------- the archive

  function AlignUp(n: nat): nat { (n + SECTOR_SIZE - 1) / SECTOR_SIZE * SECTOR_SIZE }

  /** Header, data, and zeros up to the next sector. */
  function Record(f: File): (r: seq<byte>)
    requires FileOk(f)
    ensures |r| == AlignUp(HEADER_SIZE + f.size)
  {
    Header(f) + f.data[..f.size] + Zeros(AlignUp(HEADER_SIZE + f.size) - HEADER_SIZE - f.size)
  }

  predicate TableOk(fs: seq<File>) { forall f :: f in fs ==> FileOk(f) }

  function Archive(fs: seq<File>): seq<byte>
    requires TableOk(fs)
  {
    if fs == [] then [] else if fs[0].inUse then Record(fs[0]) + Archive(fs[1..]) else Archive(fs[1..])
  }

  predicate Fits(fs: seq<File>)
    requires TableOk(fs)
  {
    |Archive(fs)| <= DISK_SIZE
  }

  /** The disk after a flush of fs. */
  function Image(fs: seq<File>): (d: seq<byte>)
    requires TableOk(fs) && Fits(fs)
    ensures |d| == DISK_SIZE
  {
    Archive(fs) + Zeros(DISK_SIZE - |Archive(fs)|)
  }

  /** One file always fits; two do exactly if one of them takes at most one sector of data. */
  lemma FitsExactly(f: File, g: File)
    requires FileOk(f) && FileOk(g)
    ensures Fits([f])
    ensures Fits([f, g]) <==> !(f.inUse && g.inUse && f.size > SECTOR_SIZE && g.size > SECTOR_SIZE)
  {
    assert [f][1..] == [] && [f, g][1..] == [g] && [g][1..] == [];
    assert Archive([g]) == (if g.inUse then Record(g) + Archive([]) else Archive([]));
    Sectors(f.size);
    Sectors(g.size);
  }

  lemma Sectors(size: nat)
    requires size <= DATA_SIZE
    ensures AlignUp(HEADER_SIZE + size) == if size == 0 then 512 else if size <= 512 then 1024 else 1536
  {
  }

  // ---------------------------------------------------------------- reading it back

  /** What fs_init installs in one slot. */
  datatype Entry = Entry(name: seq<byte>, data: seq<byte>)

  /** Overrun: a name or size that runs past its buffer or past the disk. */
  datatype Parsed = Files(es: seq<Entry>) | BadMagic | Overrun

  /** strcmp(header->magic, "ustar") == 0 */
  predicate MagicOk(h: seq<byte>)
    requires |h| == HEADER_SIZE
  {
    h[MAGIC_AT..MAGIC_AT + 5] == MAGIC && h[MAGIC_AT + 5] == 0
  }

  function HeaderSize(h: seq<byte>): nat
    requires |h| == HEADER_SIZE
  {
    OctValue(h[SIZE_AT..SIZE_AT + SIZE_DIGITS])
  }

  /** A name that is no empty string, and name and data that fit a slot. */
  predicate EntryOk(e: Entry) { NameOk(e.name) && |e.data| <= DATA_SIZE }

  predicate NameOk(name: seq<byte>) { 0 < |name| < NAME_SIZE && forall i :: 0 <= i < |name| ==> name[i] != 0 }

  lemma StrOk(s: seq<byte>)
    requires |s| == NAME_SIZE && s[0] != 0
    ensures StrLen(s) < NAME_SIZE ==> NameOk(Str(s))
  {
  }

  predicate Sane(es: seq<Entry>) { forall e :: e in es ==> EntryOk(e) }

  /** fs_init from offset off, with room slots left. */
  function Parse(disk: seq<byte>, off: nat, room: nat): (p: Parsed)
    ensures p.Files? ==> |p.es| <= room && Sane(p.es)
    decreases room
  {
    if room == 0 then Files([])
    else if off >= |disk| then Overrun
    else if disk[off] == 0 then Files([])
    else if off + HEADER_SIZE > |disk| then Overrun
    else
      var h := disk[off..off + HEADER_SIZE];
      StrOk(h[..NAME_SIZE]);
      if !MagicOk(h) then BadMagic
      else if StrLen(h[..NAME_SIZE]) == NAME_SIZE || HeaderSize(h) > DATA_SIZE
          || off + HEADER_SIZE + HeaderSize(h) > |disk| then Overrun
      else
        match Parse(disk, off + AlignUp(HEADER_SIZE + HeaderSize(h)), room - 1)
        case Files(es) => Files([Entry(Str(h[..NAME_SIZE]),
                                      disk[off + HEADER_SIZE..off + HEADER_SIZE + HeaderSize(h)])] + es)
        case failed => failed
  }

  function EntryOf(f: File): Entry
    requires FileOk(f)
  {
    Entry(Str(f.name), f.data[..f.size])
  }

  /** The files in use, in slot order. */
  function Entries(fs: seq<File>): (es: seq<Entry>)
    requires TableOk(fs)
    ensures |es| <= |fs|
  {
    if fs == [] then [] else if fs[0].inUse then [EntryOf(fs[0])] + Entries(fs[1..]) else Entries(fs[1..])
  }

  /** The whole disk after a flush: the records of the files in use, in slot order, then zeros; and
      what counts as the files in use. */
  lemma DiskLayout(f: File, g: File)
    requires FileOk(f) && FileOk(g) && Fits([f, g])
    ensures var records := (if f.inUse then Record(f) else []) + (if g.inUse then Record(g) else []);
            |records| <= 2560 && Image([f, g]) == records + Zeros(2560 - |records|)
    ensures Entries([f, g]) ==
            (if f.inUse then [Entry(Str(f.name), f.data[..f.size])] else [])
            + (if g.inUse then [Entry(Str(g.name), g.data[..g.size])] else [])
  {
    hide Record, FileOk, Str;
    assert [f, g][1..] == [g] && [g][1..] == [];
    assert Archive([g]) == if g.inUse then Record(g) + [] else [];
    assert Entries([g]) == if g.inUse then [EntryOf(g)] + [] else [];
  }

  lemma HeaderReadsBack(f: File)
    requires FileOk(f) && f.inUse
    ensures var h := Header(f);
            && h[0] != 0 && MagicOk(h) && HeaderSize(h) == f.size
            && StrLen(h[..NAME_SIZE]) == StrLen(f.name) && Str(h[..NAME_SIZE]) == Str(f.name)
  {
    var h := Header(f);
    StrLenIs(h[..NAME_SIZE], StrLen(f.name));
    assert Str(h[..NAME_SIZE]) == Str(f.name);
    assert h[SIZE_AT..SIZE_AT + SIZE_DIGITS] == Octal(f.size, SIZE_DIGITS);
    Pow8Values();
    OctalRoundTrip(f.size, SIZE_DIGITS);
  }

  /** The 512 bytes of a printed header: NUL-padded name, mode "000644", the size in twelve octal
      digits, six of checksum, type '0', magic "ustar", version "00", and NUL everywhere else. */
  lemma HeaderFields(f: File)
    requires FileOk(f)
    ensures var h := Header(f);
            && |h| == 512 && h[..StrLen(f.name)] == f.name[..StrLen(f.name)]
            && h[100..106] == [48, 48, 48, 54, 52, 52] && h[156] == 48
            && h[257..262] == [117, 115, 116, 97, 114] && h[263..265] == [48, 48]
            && (forall i :: 124 <= i < 136 || 148 <= i < 154 ==> 48 <= h[i] < 56)
            && OctValue(h[124..136]) == f.size
    ensures forall i ::
              (StrLen(f.name) <= i < 100 || 106 <= i < 124 || 136 <= i < 148 || 154 <= i < 156 || 157 <= i < 257
               || i == 262 || 265 <= i < 512) ==>
                Header(f)[i] == 0
  {
    var h := Header(f);
    assert h[SIZE_AT..SIZE_AT + SIZE_DIGITS] == Octal(f.size, SIZE_DIGITS);
    Pow8Values();
    OctalRoundTrip(f.size, SIZE_DIGITS);
    hide OctValue, Octal, StrLen;
    assert forall i :: 0 <= i < 512 && !(148 <= i < 154) ==> h[i] == BareByte(f, i);
  }

  /** A record is the header, the file's data, and zeros up to the next multiple of 512. */
  lemma RecordLayout(f: File)
    requires FileOk(f)
    ensures var r := Record(f);
            && |r| % 512 == 0 && 512 + f.size <= |r| < 512 + f.size + 512
            && r[..512] == Header(f) && r[512..512 + f.size] == f.data[..f.size]
            && forall i :: 512 + f.size <= i < |r| ==> r[i] == 0
  {
    Sectors(f.size);
    hide FileOk, Header, AlignUp;
  }

  lemma {:induction false} ParseArchive(disk: seq<byte>, off: nat, fs: seq<File>, room: nat)
    requires TableOk(fs) && off + |Archive(fs)| <= |disk|
    requires disk[off..off + |Archive(fs)|] == Archive(fs)
    requires forall i :: off + |Archive(fs)| <= i < |disk| ==> disk[i] == 0
    requires |Entries(fs)| <= room && (|Entries(fs)| == room || off + |Archive(fs)| < |disk|)
    ensures Parse(disk, off, room) == Files(Entries(fs))
    decreases |fs|
  {
    hide FileOk, Record, Parse;
    if fs == [] {
      ParseNothing(disk, off, room);
    } else if !fs[0].inUse {
      ParseArchive(disk, off, fs[1..], room);
    } else {
      var a := |Record(fs[0])|;
      assert |Archive(fs)| == a + |Archive(fs[1..])| && |Entries(fs)| == 1 + |Entries(fs[1..])|;
      Halves(disk, off, Record(fs[0]), Archive(fs[1..]));
      ParseArchive(disk, off + a, fs[1..], room - 1);
      ParseFirst(disk, off, fs, room);
    }
  }

  lemma ParseNothing(disk: seq<byte>, off: nat, room: nat)
    requires room == 0 || (off < |disk| && disk[off] == 0)
    ensures Parse(disk, off, room) == Files([])
  {
  }

  /** A parse that does not run over has a header to read, and what it announces is there. */
  lemma ParseInside(disk: seq<byte>, off: nat, room: nat)
    requires room > 0 && !Parse(disk, off, room).Overrun?
    ensures off < |disk|
    ensures disk[off] != 0 ==> off + HEADER_SIZE <= |disk|
    ensures disk[off] != 0 ==>
              var h := disk[off..off + HEADER_SIZE];
              if !MagicOk(h) then Parse(disk, off, room) == BadMagic
              else StrLen(h[..NAME_SIZE]) < NAME_SIZE && NameOk(Str(h[..NAME_SIZE])) && HeaderSize(h) <= DATA_SIZE
                   && off + HEADER_SIZE + HeaderSize(h) <= |disk|
  {
    hide MagicOk, HeaderSize;
    if disk[off] != 0 {
      StrOk(disk[off..off + HEADER_SIZE][..NAME_SIZE]);
    }
    hide StrLen;
  }

  /** What the parser takes from a sector that does not start with NUL, and where it goes on. */
  lemma ParsedHeader(disk: seq<byte>, off: nat, room: nat)
    requires room > 0 && off + 512 <= |disk| && disk[off] != 0 && Parse(disk, off, room).Files?
    ensures var es := Parse(disk, off, room).es;
            && disk[off + 257..off + 262] == [117, 115, 116, 97, 114] && disk[off + 262] == 0
            && es != [] && es[0].name == Str(disk[off..off + 100])
            && |es[0].data| == OctValue(disk[off + 124..off + 136])
            && off + 512 + |es[0].data| <= |disk| && es[0].data == disk[off + 512..off + 512 + |es[0].data|]
            && Parse(disk, off + (512 + |es[0].data| + 511) / 512 * 512, room - 1) == Files(es[1..])
  {
    hide Parse, Str, StrLen, OctValue;
    var h := disk[off..off + HEADER_SIZE];
    ParseInside(disk, off, room);
    HeaderPlaces(disk, off);
    ParseStep(disk, off, room, h);
    hide MagicOk, HeaderSize;
    var n := HeaderSize(h);
    assert AlignUp(HEADER_SIZE + n) == (512 + n + 511) / 512 * 512;
    var next := Parse(disk, off + AlignUp(HEADER_SIZE + n), room - 1);
    assert next.Files? && Parse(disk, off, room).es == [Entry(Str(h[..NAME_SIZE]),
        disk[off + HEADER_SIZE..off + HEADER_SIZE + n])] + next.es;
  }

  lemma HeaderPlaces(disk: seq<byte>, off: nat)
    requires off + HEADER_SIZE <= |disk|
    ensures var h := disk[off..off + HEADER_SIZE];
            && h[..NAME_SIZE] == disk[off..off + 100]
            && HeaderSize(h) == OctValue(disk[off + 124..off + 136])
            && (MagicOk(h) <==> disk[off + 257..off + 262] == [117, 115, 116, 97, 114] && disk[off + 262] == 0)
  {
    hide OctValue;
    var h := disk[off..off + HEADER_SIZE];
    Slice(disk, off, HEADER_SIZE, SIZE_AT, SIZE_AT + SIZE_DIGITS);
    Slice(disk, off, HEADER_SIZE, MAGIC_AT, MAGIC_AT + 5);
    Slice(disk, off, HEADER_SIZE, 0, NAME_SIZE);
  }

  lemma ParseFirst(disk: seq<byte>, off: nat, fs: seq<File>, room: nat)
    requires TableOk(fs) && fs != [] && fs[0].inUse && room > 0
    requires var r := Record(fs[0]); off + |r| <= |disk| && disk[off..off + |r|] == r
    requires Parse(disk, off + |Record(fs[0])|, room - 1) == Files(Entries(fs[1..]))
    ensures Parse(disk, off, room) == Files(Entries(fs))
  {
    hide Parse, Record, FileOk;
    ParseRecord(disk, off, fs[0], room);
  }

  lemma Halves(disk: seq<byte>, off: nat, r: seq<byte>, a: seq<byte>)
    requires off + |r + a| <= |disk| && disk[off..off + |r + a|] == r + a
    ensures disk[off..off + |r|] == r && disk[off + |r|..off + |r| + |a|] == a
  {
    var both := disk[off..off + |r + a|];
    assert disk[off..off + |r|] == both[..|r|];
    assert disk[off + |r|..off + |r| + |a|] == both[|r|..];
  }

  lemma ParseRecord(disk: seq<byte>, off: nat, f: File, room: nat)
    requires FileOk(f) && f.inUse && room > 0
    requires off + |Record(f)| <= |disk| && disk[off..off + |Record(f)|] == Record(f)
    ensures Parse(disk, off, room) == match Parse(disk, off + |Record(f)|, room - 1)
                                      case Files(es) => Files([EntryOf(f)] + es)
                                      case failed => failed
  {
    hide Parse, MagicOk, HeaderSize, Str, FileOk, StrLen, Record, Header;
    SizesOk(f);
    RecordParts(disk, off, f);
    HeaderReadsBack(f);
    ParseStep(disk, off, room, Header(f));
  }

  lemma RecordParts(disk: seq<byte>, off: nat, f: File)
    requires FileOk(f) && off + |Record(f)| <= |disk| && disk[off..off + |Record(f)|] == Record(f)
    ensures HEADER_SIZE + f.size <= |Record(f)|
    ensures disk[off..off + HEADER_SIZE] == Header(f) && disk[off] == Header(f)[0]
    ensures disk[off + HEADER_SIZE..off + HEADER_SIZE + f.size] == f.data[..f.size]
  {
    SizesOk(f);
    hide FileOk, Header;
    var data, pad := f.data[..f.size], Zeros(|Record(f)| - HEADER_SIZE - f.size);
    assert Record(f) == Header(f) + data + pad;
    hide Record;
    Halves(disk, off, Header(f) + data, pad);
    Halves(disk, off, Header(f), data);
    assert disk[off] == disk[off..off + HEADER_SIZE][0];
  }

  lemma SizesOk(f: File)
    requires FileOk(f)
    ensures f.size <= DATA_SIZE == |f.data| && StrLen(f.name) < NAME_SIZE && HEADER_SIZE + f.size <= |Record(f)|
  {
  }

  /** One header that passes every check. */
  lemma ParseStep(disk: seq<byte>, off: nat, room: nat, h: seq<byte>)
    requires room > 0 && off + HEADER_SIZE <= |disk| && h == disk[off..off + HEADER_SIZE] && disk[off] != 0
    requires MagicOk(h) && StrLen(h[..NAME_SIZE]) < NAME_SIZE && HeaderSize(h) <= DATA_SIZE
    requires off + HEADER_SIZE + HeaderSize(h) <= |disk|
    ensures Parse(disk, off, room) ==
            match Parse(disk, off + AlignUp(HEADER_SIZE + HeaderSize(h)), room - 1)
            case Files(es) => Files([Entry(Str(h[..NAME_SIZE]),
                                          disk[off + HEADER_SIZE..off + HEADER_SIZE + HeaderSize(h)])] + es)
            case failed => failed
  {
    hide MagicOk, HeaderSize, Str, StrLen;
  }

  /** Reading a flushed disk recovers exactly the files in use, in slot order. */
  lemma FlushRoundTrip(fs: seq<File>)
    requires TableOk(fs) && |fs| == FILES_MAX && Fits(fs)
    ensures Parse(Image(fs), 0, FILES_MAX) == Files(Entries(fs))
  {
    assert Image(fs)[..|Archive(fs)|] == Archive(fs);
    if |Entries(fs)| < FILES_MAX {
      ShortArchive(fs);
    }
    ParseArchive(Image(fs), 0, fs, FILES_MAX);
  }

  lemma ShortArchive(fs: seq<File>)
    requires TableOk(fs) && |fs| == 2 && |Entries(fs)| < 2
    ensures |Archive(fs)| < DISK_SIZE
  {
    assert fs[0] in fs && fs[1] in fs;
    assert fs[1..][1..] == [];
    assert Entries(fs[1..][1..]) == [] && Archive(fs[1..][1..]) == [];
    Sectors(fs[0].size);
    Sectors(fs[1].size);
  }
}
