/** The boot loader's segment loading (lab/boot/main.c). */
module Boot {
  import opened Machine
  import Memory

  const SECTSIZE := 512
  const ELFHDR := 0x10000
  const ELF_MAGIC := 0x464C457F
  const PAGE := 4096

  /** The bytes of the disk, from the boot sector on; the kernel image starts at sector 1. */
  type Disk = nat -> byte

  function RoundDown(a: nat): (r: nat)
    ensures r <= a < r + SECTSIZE && r % SECTSIZE == 0
  {
    a - a % SECTSIZE
  }

  function RoundUp(a: nat): (r: nat)
    ensures a <= r < a + SECTSIZE && r % SECTSIZE == 0
  {
    RoundDown(a + SECTSIZE - 1)
  }

  // ---------------------------------------------------------------------
  // Reading sectors
  // ---------------------------------------------------------------------

  /** The disk byte that reading a segment puts at byte k of it. */
  function Source(pa: nat, offset: nat, k: nat): nat {
    SECTSIZE + RoundDown(offset) + pa % SECTSIZE + k
  }

  /** The byte at address a after whole sectors have been read, from the rounded-down start to the rounded-up end. */
  function ReadByte(was: byte, disk: Disk, pa: nat, end: nat, offset: nat, a: nat): byte {
    if RoundDown(pa) <= a < RoundUp(end) then disk(SECTSIZE + RoundDown(offset) + (a - RoundDown(pa))) else was
  }

  ghost predicate ReadUpTo(was: seq<byte>, now: seq<byte>, disk: Disk, pa: nat, end: nat, offset: nat) {
    |now| == |was| && forall a :: 0 <= a < |was| ==> now[a] == ReadByte(was[a], disk, pa, end, offset, a)
  }

  /** Memory after a segment has been read. */
  ghost predicate Loaded(was: seq<byte>, now: seq<byte>, disk: Disk, pa: nat, count: nat, offset: nat) {
    ReadUpTo(was, now, disk, pa, pa + count, offset)
  }

  /** readsect: one sector, without the handshake with the disk controller. */
  method ReadSect(mem: array<byte>, disk: Disk, dst: nat, sector: nat)
    requires dst + SECTSIZE <= mem.Length
    modifies mem
    ensures forall a :: 0 <= a < mem.Length ==>
      mem[a] == if dst <= a < dst + SECTSIZE then disk(SECTSIZE * sector + (a - dst)) else old(mem[a])
  {
    forall i | dst <= i < dst + SECTSIZE {
      mem[i] := disk(SECTSIZE * sector + (i - dst));
    }
  }

  /** The end of a segment as the loader computes it, in 32 bits. */
  function EndOf(pa: u32, count: u32): u32 {
    (pa + count) % TWO_32
  }

  /** readseg: copies whole sectors, more than was asked for when the ends are not aligned. */
  method ReadSeg(mem: array<byte>, disk: Disk, pa0: u32, count: u32, offset0: u32)
    requires RoundUp(EndOf(pa0, count)) <= mem.Length < TWO_32
    modifies mem
    ensures ReadUpTo(old(mem[..]), mem[..], disk, pa0, EndOf(pa0, count), offset0)
  {
    var endPa := EndOf(pa0, count);
    var pa := RoundDown(pa0);
    var sector := offset0 / SECTSIZE + 1;
    ghost var start, first := pa, sector;
    ghost var limit := RoundUp(endPa);
    hide RoundUp;
    while pa < endPa
      invariant start <= pa && pa % SECTSIZE == 0 && (pa <= limit || pa == start)
      invariant pa - start == SECTSIZE * (sector - first)
      invariant forall a :: 0 <= a < mem.Length ==>
        mem[a] == if start <= a < pa then disk(SECTSIZE * first + (a - start)) else old(mem[a])
      decreases endPa - pa
    {
      NextSector(pa, endPa);
      ReadSect(mem, disk, pa, sector);
      pa := pa + SECTSIZE;
      sector := sector + 1;
    }
    if start <= limit {
      SameSector(pa, limit, endPa);
    }
    assert SECTSIZE * first == SECTSIZE + RoundDown(offset0);
  }

  lemma NextSector(pa: nat, end: nat)
    requires pa % SECTSIZE == 0 && pa < end
    ensures pa + SECTSIZE <= RoundUp(end)
  {
  }

  lemma SameSector(pa: nat, limit: nat, end: nat)
    requires pa % SECTSIZE == 0 && limit % SECTSIZE == 0 && end <= pa <= limit < end + SECTSIZE
    ensures pa == limit
  {
  }

  /** A segment whose end does not wrap around the address space is read to its end. */
  lemma EndsInSpace(was: seq<byte>, now: seq<byte>, disk: Disk, pa: u32, count: u32, offset: nat)
    requires pa + count < TWO_32 && ReadUpTo(was, now, disk, pa, EndOf(pa, count), offset)
    ensures Loaded(was, now, disk, pa, count, offset)
  {
    hide ReadUpTo;
  }

  /** One whose end wraps around is not read at all, unless it covers all but a sector of the address space. */
  lemma WrappedReadsNothing(was: seq<byte>, now: seq<byte>, disk: Disk, pa: u32, count: u32, offset: nat)
    requires TWO_32 <= pa + count && count <= TWO_32 - SECTSIZE
    requires ReadUpTo(was, now, disk, pa, EndOf(pa, count), offset)
    ensures now == was
  {
    assert RoundUp(EndOf(pa, count)) <= RoundDown(pa);
    hide RoundUp, RoundDown;
  }

  /** Every byte of a loaded segment comes from its source, whatever the over-copy did around it. */
  lemma LoadedBytes(was: seq<byte>, now: seq<byte>, disk: Disk, pa: nat, count: nat, offset: nat, k: nat)
    requires Loaded(was, now, disk, pa, count, offset) && k < count && pa + count <= |was|
    ensures now[pa + k] == disk(Source(pa, offset, k))
  {
  }

  /** The source is the byte the header names exactly when address and offset agree modulo the sector size. */
  lemma SourceIsNamed(pa: nat, offset: nat, k: nat)
    ensures Source(pa, offset, k) == SECTSIZE + offset + k <==> pa % SECTSIZE == offset % SECTSIZE
  {
  }

  /** A disk and the memory it leaves behind, in which byte k of a non-congruent segment is wrong. */
  lemma WrongByte(was: seq<byte>, pa: nat, count: nat, offset: nat, k: nat) returns (disk: Disk, now: seq<byte>)
    requires pa % SECTSIZE != offset % SECTSIZE && k < count && pa + count <= |was|
    ensures Loaded(was, now, disk, pa, count, offset) && now[pa + k] != disk(SECTSIZE + offset + k)
  {
    disk := x => if x == SECTSIZE + offset + k then 1 else 0;
    now := seq(|was|, a requires 0 <= a < |was| => ReadByte(was[a], disk, pa, pa + count, offset, a));
    assert Loaded(was, now, disk, pa, count, offset);
    hide ReadByte;
    SourceIsNamed(pa, offset, k);
    LoadedBytes(was, now, disk, pa, count, offset, k);
  }

  /** Loading puts the named bytes in place from every disk exactly when address and offset are congruent. */
  lemma CongruenceIff(was: seq<byte>, pa: nat, count: nat, offset: nat, k: nat)
    requires k < count && pa + count <= |was|
    ensures
      (forall disk: Disk, now: seq<byte> ::
         Loaded(was, now, disk, pa, count, offset) ==> now[pa + k] == disk(512 + offset + k)) <==>
      pa % 512 == offset % 512
  {
    hide ReadByte;
    if pa % SECTSIZE != offset % SECTSIZE {
      var disk, now := WrongByte(was, pa, count, offset, k);
    } else {
      SourceIsNamed(pa, offset, k);
      forall disk: Disk, now: seq<byte> | Loaded(was, now, disk, pa, count, offset)
        ensures now[pa + k] == disk(SECTSIZE + offset + k)
      {
        LoadedBytes(was, now, disk, pa, count, offset, k);
      }
    }
  }

  // ---------------------------------------------------------------------
  // The image
  // ---------------------------------------------------------------------

  function Half(b0: byte, b1: byte): nat {
    b0 + 0x100 * b1
  }

  /** A little-endian field of the image at an offset from its start. */
  function Field(disk: Disk, at: nat): u32 {
    Word(disk(SECTSIZE + at), disk(SECTSIZE + at + 1), disk(SECTSIZE + at + 2), disk(SECTSIZE + at + 3))
  }

  function PhNum(disk: Disk): nat {
    Half(disk(SECTSIZE + 44), disk(SECTSIZE + 45))
  }

  function PhOff(disk: Disk): u32 {
    Field(disk, 28)
  }

  datatype Segment = Segment(pa: u32, memsz: u32, offset: u32)

  /** Program header i of the image. */
  function SegmentOf(disk: Disk, i: nat): Segment {
    var ph := PhOff(disk) + 32 * i;
    Segment(Field(disk, ph + 12), Field(disk, ph + 20), Field(disk, ph + 4))
  }

  /** The sector-rounded target ranges of two blocks do not meet. */
  predicate Apart(pa: nat, count: nat, pa': nat, count': nat) {
    RoundUp(pa + count) <= RoundDown(pa') || RoundUp(pa' + count') <= RoundDown(pa)
  }

  /** The first page of the image, with the headers in it. */
  const HEADER := Segment(ELFHDR, PAGE, 0)

  /** The first n segments, in the order of their headers. */
  function Segments(disk: Disk, n: nat): (segs: seq<Segment>)
    ensures |segs| == n && forall i :: 0 <= i < n ==> segs[i] == SegmentOf(disk, i)
  {
    if n == 0 then [] else Segments(disk, n - 1) + [SegmentOf(disk, n - 1)]
  }

  /** Everything the loader reads: the first page, then the segments. */
  function AllSegments(disk: Disk): seq<Segment> {
    [HEADER] + Segments(disk, PhNum(disk))
  }

  lemma SegmentAt(disk: Disk, i: nat)
    requires i < PhNum(disk)
    ensures |AllSegments(disk)| == PhNum(disk) + 1 && AllSegments(disk)[i + 1] == SegmentOf(disk, i)
  {
    hide PhNum, SegmentOf;
  }

  /** The loader can place it: the headers are in the first page, and segments fit and keep clear of that page. */
  ghost predicate Placeable(disk: Disk, size: nat) {
    PhOff(disk) + 32 * PhNum(disk) <= PAGE &&
    forall i :: 0 <= i < PhNum(disk) ==>
      var s := SegmentOf(disk, i);
      RoundUp(s.pa + s.memsz) <= size && Apart(s.pa, s.memsz, ELFHDR, PAGE)
  }

  /** No two segments share a sector. */
  ghost predicate SegmentsApart(disk: Disk) {
    forall i, j :: 0 <= i < j < PhNum(disk) ==>
      var s, s' := SegmentOf(disk, i), SegmentOf(disk, j); Apart(s.pa, s.memsz, s'.pa, s'.memsz)
  }

  ghost predicate HeaderPage(m: seq<byte>, disk: Disk)
    requires ELFHDR + PAGE <= |m|
  {
    forall k :: ELFHDR <= k < ELFHDR + PAGE ==> m[k] == disk(SECTSIZE + (k - ELFHDR))
  }

  ghost predicate SegmentLoaded(m: seq<byte>, disk: Disk, s: Segment) {
    s.pa + s.memsz <= |m| && forall k :: 0 <= k < s.memsz ==> m[s.pa + k] == disk(Source(s.pa, s.offset, k))
  }

  // ---------------------------------------------------------------------
  // Loading in order
  // ---------------------------------------------------------------------

  /** The byte at address a after segments have been loaded one after the other. */
  function ImageByte(was: byte, disk: Disk, segs: seq<Segment>, a: nat): byte {
    if segs == [] then was
    else
      var s := segs[|segs| - 1];
      ReadByte(ImageByte(was, disk, segs[..|segs| - 1], a), disk, s.pa, s.pa + s.memsz, s.offset, a)
  }

  ghost predicate InOrder(was: seq<byte>, now: seq<byte>, disk: Disk, segs: seq<Segment>) {
    |now| == |was| && forall a :: 0 <= a < |was| ==> now[a] == ImageByte(was[a], disk, segs, a)
  }

  /** Loading a segment writes this address. */
  predicate Covers(s: Segment, a: nat) {
    RoundDown(s.pa) <= a < RoundUp(s.pa + s.memsz)
  }

  /** The disk position that loading a segment copies to the address. */
  function Position(s: Segment, a: nat): nat
    requires Covers(s, a)
  {
    SECTSIZE + RoundDown(s.offset) + (a - RoundDown(s.pa))
  }

  /** The last segment that writes the address, or -1. */
  function LastCover(segs: seq<Segment>, a: nat): (j: int)
    ensures -1 <= j < |segs|
    ensures 0 <= j ==> Covers(segs[j], a)
    ensures forall i :: j < i < |segs| ==> !Covers(segs[i], a)
  {
    if segs == [] then -1
    else if Covers(segs[|segs| - 1], a) then |segs| - 1
    else LastCover(segs[..|segs| - 1], a)
  }

  lemma InOrderStep(was: seq<byte>, mid: seq<byte>, now: seq<byte>, disk: Disk, segs: seq<Segment>, s: Segment)
    requires InOrder(was, mid, disk, segs) && Loaded(mid, now, disk, s.pa, s.memsz, s.offset)
    ensures InOrder(was, now, disk, segs + [s])
  {
    assert (segs + [s])[..|segs|] == segs;
    hide ReadByte;
  }

  /** Every address ends up with what the last segment that covers it put there. */
  lemma {:induction false} LastCoverWins(was: byte, disk: Disk, segs: seq<Segment>, a: nat)
    ensures var j := LastCover(segs, a);
      ImageByte(was, disk, segs, a) == if j < 0 then was else disk(Position(segs[j], a))
  {
    if segs != [] && !Covers(segs[|segs| - 1], a) {
      LastCoverWins(was, disk, segs[..|segs| - 1], a);
    }
  }

  /**
   * An address of a segment holds the byte its header names, from every disk, exactly when the
   * last segment that covers the address reads that very position.
   */
  lemma NamedByteIff(was: byte, segs: seq<Segment>, i: nat, a: nat)
    requires i < |segs| && segs[i].pa <= a < segs[i].pa + segs[i].memsz
    ensures i <= LastCover(segs, a) &&
      var last, named := segs[LastCover(segs, a)], 512 + segs[i].offset + (a - segs[i].pa);
      (forall disk: Disk :: ImageByte(was, disk, segs, a) == disk(named)) <==>
      RoundDown(last.offset) - RoundDown(last.pa) == segs[i].offset - segs[i].pa
  {
    assert Covers(segs[i], a);
    var last, named := segs[LastCover(segs, a)], SECTSIZE + segs[i].offset + (a - segs[i].pa);
    var p := Position(last, a);
    forall disk: Disk ensures ImageByte(was, disk, segs, a) == disk(p) {
      LastCoverWins(was, disk, segs, a);
    }
    assert p == named <==> RoundDown(last.offset) - RoundDown(last.pa) == segs[i].offset - segs[i].pa;
    hide ImageByte, Covers, LastCover, Position, RoundDown;
    if p != named {
      var probe: Disk := x => if x == named then 1 else 0;
      assert ImageByte(was, probe, segs, a) == probe(p) != probe(named);
    }
  }

  /** A segment that shares no sector with a later one keeps all its bytes. */
  lemma ApartSurvives(was: seq<byte>, now: seq<byte>, disk: Disk, segs: seq<Segment>, i: nat)
    requires InOrder(was, now, disk, segs) && i < |segs| && segs[i].pa + segs[i].memsz <= |was|
    requires forall j :: i < j < |segs| ==> Apart(segs[i].pa, segs[i].memsz, segs[j].pa, segs[j].memsz)
    ensures SegmentLoaded(now, disk, segs[i])
  {
    var s := segs[i];
    forall k | 0 <= k < s.memsz ensures now[s.pa + k] == disk(Source(s.pa, s.offset, k)) {
      var a := s.pa + k;
      LastCoverWins(was[a], disk, segs, a);
      hide ImageByte;
      assert Covers(s, a);
      LastIs(segs, i, a);
    }
  }

  lemma LastIs(segs: seq<Segment>, i: nat, a: nat)
    requires i < |segs| && Covers(segs[i], a)
    requires forall j :: i < j < |segs| ==> Apart(segs[i].pa, segs[i].memsz, segs[j].pa, segs[j].memsz)
    ensures LastCover(segs, a) == i
  {
    hide LastCover, RoundUp, RoundDown;
  }

  /**
   * Loading in increasing order does not make the over-copy harmless: two congruent segments,
   * the second one above the first, of which the first loses a byte to the second's leading sector.
   */
  lemma IncreasingOrderSpoils(was: byte)
    ensures var t, s := Segment(0x10_0000, 600, 0x1000), Segment(0x10_0300, 16, 0x2100);
      t.pa % SECTSIZE == t.offset % SECTSIZE && s.pa % SECTSIZE == s.offset % SECTSIZE && t.pa + t.memsz <= s.pa &&
      exists disk: Disk :: ImageByte(was, disk, [t, s], 0x10_0250) != disk(SECTSIZE + 0x1250)
  {
    var t, s := Segment(0x10_0000, 600, 0x1000), Segment(0x10_0300, 16, 0x2100);
    assert Covers(s, 0x10_0250);
    assert LastCover([t, s], 0x10_0250) == 1;
    assert RoundDown(s.offset) == 0x2000 && RoundDown(s.pa) == 0x10_0200;
    hide ImageByte, Covers, LastCover, RoundDown, RoundUp;
    NamedByteIff(was, [t, s], 0, 0x10_0250);
  }

  /** Loading a segment leaves the header page alone. */
  lemma LoadKeepsHeader(was: seq<byte>, now: seq<byte>, disk: Disk, s: Segment)
    requires ELFHDR + PAGE <= |was| && HeaderPage(was, disk) && Apart(s.pa, s.memsz, ELFHDR, PAGE)
    requires Loaded(was, now, disk, s.pa, s.memsz, s.offset)
    ensures HeaderPage(now, disk)
  {
    assert RoundUp(ELFHDR + PAGE) == ELFHDR + PAGE && RoundDown(ELFHDR) == ELFHDR;
    hide RoundUp, RoundDown;
  }

  /** A field read from the header page is the field of the image. */
  method HeaderField(mem: array<byte>, ghost disk: Disk, at: nat) returns (w: u32)
    requires ELFHDR + PAGE <= mem.Length && HeaderPage(mem[..], disk) && at + 4 <= PAGE
    ensures w == Field(disk, at)
  {
    var a := ELFHDR + at;
    assert mem[..][a] == disk(SECTSIZE + at) && mem[..][a + 1] == disk(SECTSIZE + at + 1);
    assert mem[..][a + 2] == disk(SECTSIZE + at + 2) && mem[..][a + 3] == disk(SECTSIZE + at + 3);
    w := Memory.LoadWord(mem, a);
  }

  /**
   * bootmain up to its jump: None stands for the bad exit. The program headers are read
   * from memory while the segments are being loaded.
   */
  method BootMain(mem: array<byte>, disk: Disk) returns (entry: Option<u32>)
    requires ELFHDR + PAGE <= mem.Length < TWO_32
    requires Field(disk, 0) == ELF_MAGIC ==> Placeable(disk, mem.Length)
    modifies mem
    ensures entry == if Field(disk, 0) == ELF_MAGIC then Some(Field(disk, 24)) else None
    ensures InOrder(old(mem[..]), mem[..], disk, if entry.Some? then AllSegments(disk) else [HEADER])
    ensures entry.Some? && SegmentsApart(disk) ==>
      forall i :: 0 <= i < PhNum(disk) ==> SegmentLoaded(mem[..], disk, SegmentOf(disk, i))
  {
    hide Loaded, SegmentLoaded, SegmentsApart, InOrder, Segments, Apart, Source;
    ghost var was := mem[..];
    ReadSeg(mem, disk, ELFHDR, SECTSIZE * 8, 0);
    EndsInSpace(was, mem[..], disk, ELFHDR, SECTSIZE * 8, 0);
    HeaderLoaded(was, mem[..], disk);
    var magic := HeaderField(mem, disk, 0);
    if magic != ELF_MAGIC {
      return None;
    }
    var phoff := HeaderField(mem, disk, 28);
    assert mem[..][ELFHDR + 44] == disk(SECTSIZE + 44) && mem[..][ELFHDR + 45] == disk(SECTSIZE + 45);
    var phnum := Half(mem[ELFHDR + 44], mem[ELFHDR + 45]);
    LoadSegments(mem, disk, phoff, phnum, was);
    var e := HeaderField(mem, disk, 24);
    entry := Some(e);
    if SegmentsApart(disk) {
      AllLoaded(was, mem[..], disk);
    }
  }

  lemma AllLoaded(was: seq<byte>, now: seq<byte>, disk: Disk)
    requires Placeable(disk, |was|) && SegmentsApart(disk)
    requires InOrder(was, now, disk, AllSegments(disk))
    ensures forall i :: 0 <= i < PhNum(disk) ==> SegmentLoaded(now, disk, SegmentOf(disk, i))
  {
    hide *;
    forall i | 0 <= i < PhNum(disk) ensures SegmentLoaded(now, disk, SegmentOf(disk, i)) {
      OneLoaded(was, now, disk, i);
    }
  }

  lemma OneLoaded(was: seq<byte>, now: seq<byte>, disk: Disk, i: nat)
    requires Placeable(disk, |was|) && SegmentsApart(disk) && i < PhNum(disk)
    requires InOrder(was, now, disk, AllSegments(disk))
    ensures SegmentLoaded(now, disk, SegmentOf(disk, i))
  {
    hide *;
    var segs := AllSegments(disk);
    FitsAt(disk, |was|, i);
    SegmentAt(disk, i);
    forall j | i + 1 < j < |segs| ensures Apart(segs[i + 1].pa, segs[i + 1].memsz, segs[j].pa, segs[j].memsz) {
      SegmentAt(disk, j - 1);
      ApartAt(disk, i, j - 1);
    }
    ApartSurvives(was, now, disk, segs, i + 1);
  }

  lemma FitsAt(disk: Disk, size: nat, i: nat)
    requires Placeable(disk, size) && i < PhNum(disk)
    ensures SegmentOf(disk, i).pa + SegmentOf(disk, i).memsz <= size
  {
    hide SegmentOf, PhNum, PhOff;
  }

  lemma ApartAt(disk: Disk, i: nat, j: nat)
    requires SegmentsApart(disk) && i < j < PhNum(disk)
    ensures var s, s' := SegmentOf(disk, i), SegmentOf(disk, j); Apart(s.pa, s.memsz, s'.pa, s'.memsz)
  {
    hide SegmentOf, PhNum, Apart;
  }

  lemma HeaderLoaded(was: seq<byte>, now: seq<byte>, disk: Disk)
    requires ELFHDR + PAGE <= |was| && Loaded(was, now, disk, ELFHDR, PAGE, 0)
    ensures HeaderPage(now, disk) && InOrder(was, now, disk, [HEADER])
  {
    assert RoundUp(ELFHDR + PAGE) == ELFHDR + PAGE && RoundDown(ELFHDR) == ELFHDR && RoundDown(0) == 0;
    hide RoundUp, RoundDown;
    assert InOrder(was, was, disk, []);
    InOrderStep(was, was, now, disk, [], HEADER);
    assert [] + [HEADER] == [HEADER];
  }

  /** The loop over the program headers. */
  method LoadSegments(mem: array<byte>, disk: Disk, phoff: u32, phnum: nat, ghost was: seq<byte>)
    requires ELFHDR + PAGE <= mem.Length < TWO_32 && Placeable(disk, mem.Length) && HeaderPage(mem[..], disk)
    requires phoff == PhOff(disk) && phnum == PhNum(disk) && InOrder(was, mem[..], disk, [HEADER])
    modifies mem
    ensures HeaderPage(mem[..], disk)
    ensures InOrder(was, mem[..], disk, [HEADER] + Segments(disk, phnum))
  {
    hide Loaded, InOrder, Apart, Field, HeaderPage, RoundUp, PhOff, PhNum;
    var ph, eph := phoff, phoff + 32 * phnum;
    ghost var n := 0;
    assert [HEADER] + Segments(disk, 0) == [HEADER];
    while ph < eph
      invariant 0 <= n <= phnum && ph == phoff + 32 * n
      invariant HeaderPage(mem[..], disk)
      invariant InOrder(was, mem[..], disk, [HEADER] + Segments(disk, n))
    {
      var pa := HeaderField(mem, disk, ph + 12);
      var memsz := HeaderField(mem, disk, ph + 20);
      var offset := HeaderField(mem, disk, ph + 4);
      ghost var mid, s := mem[..], Segment(pa, memsz, offset);
      assert s == SegmentOf(disk, n);
      ReadSeg(mem, disk, pa, memsz, offset);
      EndsInSpace(mid, mem[..], disk, pa, memsz, offset);
      LoadKeepsHeader(mid, mem[..], disk, s);
      InOrderStep(was, mid, mem[..], disk, [HEADER] + Segments(disk, n), s);
      assert [HEADER] + Segments(disk, n) + [s] == [HEADER] + Segments(disk, n + 1);
      n := n + 1;
      ph := ph + 32;
    }
  }

  /** With addresses congruent to offsets, a loaded segment is the stretch of the image its header names. */
  lemma SegmentIsImage(m: seq<byte>, disk: Disk, s: Segment)
    requires SegmentLoaded(m, disk, s) && s.pa % SECTSIZE == s.offset % SECTSIZE
    ensures forall a :: s.pa <= a < s.pa + s.memsz ==> m[a] == disk(SECTSIZE + s.offset + (a - s.pa))
  {
    forall a | s.pa <= a < s.pa + s.memsz ensures m[a] == disk(SECTSIZE + s.offset + (a - s.pa)) {
      SourceIsNamed(s.pa, s.offset, a - s.pa);
      assert m[s.pa + (a - s.pa)] == disk(Source(s.pa, s.offset, a - s.pa));
    }
  }

  // ---------------------------------------------------------------------
  // The layout of the headers
  // ---------------------------------------------------------------------

  /** The bytes of a word and of a half word, least significant first. */
  function WordOut(w: u32): seq<byte> {
    [w % 256, w / 256 % 256, w / 0x1_0000 % 256, w / 0x100_0000]
  }

  function HalfOut(h: u32): seq<byte>
    requires h < 0x1_0000
  {
    [h % 256, h / 256]
  }

  /** The bytes stand on the disk from position at of the image on. */
  ghost predicate Holds(disk: Disk, at: nat, bytes: seq<byte>) {
    forall p, k :: 0 <= k < |bytes| && p == 512 + at + k ==> disk(p) == bytes[k]
  }

  lemma HoldsParts(disk: Disk, at: nat, a: seq<byte>, b: seq<byte>)
    requires Holds(disk, at, a + b)
    ensures Holds(disk, at, a) && Holds(disk, at + |a|, b)
  {
    forall p, k | 0 <= k < |b| && p == 512 + (at + |a|) + k ensures disk(p) == b[k] {
      assert (a + b)[|a| + k] == b[k];
    }
    forall p, k | 0 <= k < |a| && p == 512 + at + k ensures disk(p) == a[k] {
      assert (a + b)[k] == a[k];
    }
  }

  lemma FieldHeld(disk: Disk, at: nat, w: u32)
    requires Holds(disk, at, WordOut(w))
    ensures Field(disk, at) == w
  {
    var q, r := w / 256, w / 0x1_0000;
    assert q / 256 == r && r / 256 == w / 0x100_0000;
    assert w == w % 256 + 256 * (q % 256) + 0x1_0000 * (r % 256) + 0x100_0000 * (w / 0x100_0000);
    var b := WordOut(w);
    assert disk(512 + at) == b[0] && disk(512 + at + 1) == b[1];
    assert disk(512 + at + 2) == b[2] && disk(512 + at + 3) == b[3];
  }

  /** The words in order, as a structure of 32-bit fields lays them out. */
  function WordsOut(ws: seq<u32>): seq<byte> {
    if ws == [] then [] else WordOut(ws[0]) + WordsOut(ws[1..])
  }

  lemma {:induction false} WordHeld(disk: Disk, at: nat, ws: seq<u32>, k: nat)
    requires Holds(disk, at, WordsOut(ws)) && k < |ws|
    ensures Field(disk, at + 4 * k) == ws[k]
    decreases k
  {
    hide Field, Holds, WordOut;
    WordOutLength(ws[0]);
    HoldsParts(disk, at, WordOut(ws[0]), WordsOut(ws[1..]));
    if k == 0 {
      FieldHeld(disk, at, ws[0]);
    } else {
      WordHeld(disk, at + 4, ws[1..], k - 1);
    }
  }

  lemma WordOutLength(w: u32)
    ensures |WordOut(w)| == 4
  {
  }

  /** A program header: type, offset, virtual and physical address, file and memory size, flags, alignment. */
  datatype ProgramHeader = ProgramHeader(kind: u32, offset: u32, va: u32, pa: u32, filesz: u32, memsz: u32,
                                         flags: u32, align: u32)

  /** The loader takes the physical address, the memory size and the offset out of header i. */
  lemma ReadsProgramHeader(disk: Disk, i: nat, h: ProgramHeader)
    requires Holds(disk, PhOff(disk) + 32 * i,
                   WordsOut([h.kind, h.offset, h.va, h.pa, h.filesz, h.memsz, h.flags, h.align]))
    ensures SegmentOf(disk, i) == Segment(h.pa, h.memsz, h.offset)
  {
    var at, ws := PhOff(disk) + 32 * i, [h.kind, h.offset, h.va, h.pa, h.filesz, h.memsz, h.flags, h.align];
    hide Field, Holds, WordsOut, PhOff;
    WordHeld(disk, at, ws, 1);
    WordHeld(disk, at, ws, 3);
    WordHeld(disk, at, ws, 5);
  }

  /** The words of the image's header from its type and machine on, and the half words after them. */
  datatype ElfHeader = ElfHeader(kinds: u32, version: u32, entry: u32, phoff: u32, shoff: u32, flags: u32,
                                 ehsize: u32, phentsize: u32, phnum: u32)

  /** The loader knows the image by its first four bytes, and takes the entry and the headers' place and number. */
  lemma ReadsElfHeader(disk: Disk, ident: seq<byte>, h: ElfHeader)
    requires |ident| == 12 && h.ehsize < 0x1_0000 && h.phentsize < 0x1_0000 && h.phnum < 0x1_0000
    requires Holds(disk, 0, [0x7F, 'E' as int, 'L' as int, 'F' as int] + ident)
    requires Holds(disk, 16, WordsOut([h.kinds, h.version, h.entry, h.phoff, h.shoff, h.flags]))
    requires Holds(disk, 40, HalfOut(h.ehsize) + HalfOut(h.phentsize) + HalfOut(h.phnum))
    ensures Field(disk, 0) == ELF_MAGIC && Field(disk, 24) == h.entry
    ensures PhOff(disk) == h.phoff && PhNum(disk) == h.phnum
  {
    HoldsParts(disk, 0, [0x7F, 'E' as int, 'L' as int, 'F' as int], ident);
    assert WordOut(ELF_MAGIC) == [0x7F, 'E' as int, 'L' as int, 'F' as int];
    FieldHeld(disk, 0, ELF_MAGIC);
    var ws := [h.kinds, h.version, h.entry, h.phoff, h.shoff, h.flags];
    HalfHeld(disk, HalfOut(h.ehsize) + HalfOut(h.phentsize), h.phnum);
    hide Field, WordsOut, Holds, WordOut, HalfOut;
    WordHeld(disk, 16, ws, 2);
    WordHeld(disk, 16, ws, 3);
  }

  lemma HalfHeld(disk: Disk, before: seq<byte>, phnum: u32)
    requires |before| == 4 && phnum < 0x1_0000 && Holds(disk, 40, before + HalfOut(phnum))
    ensures PhNum(disk) == phnum
  {
    HoldsParts(disk, 40, before, HalfOut(phnum));
    var h := HalfOut(phnum);
    assert disk(512 + 44 + 0) == h[0] && disk(512 + 44 + 1) == h[1];
  }
}
