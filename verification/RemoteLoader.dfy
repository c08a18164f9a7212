/**
 The segment-mapping half of the remote ELF loader
 (loader/src/ptracer/remote_csoloader.cpp).

 The tracee is a byte map with a protection for every mapped byte. The remote
 mmap, mprotect, munmap and write calls update it; whether a call succeeds is
 the kernel's choice, and an mmap answers with the raw word of the result
 register, as the loader sees it.
 */
module RemoteLoader {
  import opened Options
  import opened Words
  import opened Abis
  import opened Pages

  datatype Prot = Prot(read: bool, write: bool, exec: bool)

  const NO_ACCESS := Prot(false, false, false)
  const READ_WRITE := Prot(true, true, false)

  datatype Cell = Unmapped | Mapped(byte: Byte, prot: Prot)

  /** A 64-bit or 32-bit address space, one cell per address. */
  type Space = nat -> Cell

  datatype Phdr = Phdr(ptype: nat, flags: nat, offset: nat, vaddr: nat, filesz: nat, memsz: nat)

  const PT_LOAD: nat := 1
  const MAX_SEGMENTS: nat := 64

  predicate IsLoad(p: Phdr) {
    p.ptype == PT_LOAD
  }

  predicate HasFlag(p: Phdr, bit: nat)
    requires bit > 0
  {
    p.flags / bit % 2 == 1
  }

  /** PF_W. */
  predicate Writable(p: Phdr) {
    HasFlag(p, 2)
  }

  /** The protection the ELF flags ask for: PF_R, PF_W, PF_X. */
  function ElfProt(p: Phdr): Prot {
    Prot(HasFlag(p, 4), HasFlag(p, 2), HasFlag(p, 1))
  }

  predicate InRange(a: nat, addr: nat, len: nat) {
    addr <= a < addr + len
  }

  /** A private file page past end of file reads as zero up to the page boundary. */
  function FileByte(file: seq<Byte>, i: nat): Byte {
    if i < |file| then file[i] else 0
  }

  // --- The result of a system call ---------------------------------------------

  const MAX_ERRNO: nat := 4095

  /** The kernel answers an error with the negated errno; no mapping begins that high. */
  predicate IsErrno(abi: Abi, w: nat) {
    Modulus(abi) - MAX_ERRNO <= w < Modulus(abi)
  }

  /** What the loader takes for a failed mmap: a null pointer or MAP_FAILED. */
  predicate Noticed(abi: Abi, w: nat) {
    w == 0 || w == Modulus(abi) - 1
  }

  // --- File offsets of mappings --------------------------------------------------

  /** remote_mmap_offset_arg: bytes for mmap, pages for mmap2. */
  function OffsetArg(abi: Abi, off: nat, page: nat): nat
    requires page > 0
  {
    if Is64(abi) then off else PageIndex(off, page)
  }

  /** The file offset the kernel makes of it; the unit of mmap2 is 4096 bytes whatever the page size. */
  function KernelOffset(abi: Abi, arg: nat): nat {
    if Is64(abi) then arg else arg * 4096
  }

  /** The offset arrives as intended exactly on a 64-bit ABI, with 4096-byte pages, or for the first page. */
  lemma OffsetArrivesExactlyWhen(abi: Abi, off: nat, page: nat)
    requires page > 0 && Aligned(off, page)
    ensures KernelOffset(abi, OffsetArg(abi, off, page)) == off <==> Is64(abi) || page == 4096 || off == 0
  {
    UnitsOf4096(off, page);
  }

  // --- Load layout ------------------------------------------------------------

  /** No segment end comes within a page of the end of the address space. */
  ghost predicate NoWrap(abi: Abi, phdrs: seq<Phdr>, page: nat) {
    forall p :: p in phdrs && IsLoad(p) ==>
      p.vaddr + p.memsz + page <= Modulus(abi) && p.vaddr + p.filesz + page <= Modulus(abi)
  }

  ghost predicate IsLowest(phdrs: seq<Phdr>, lo: nat) {
    (exists p :: p in phdrs && IsLoad(p) && p.vaddr == lo) &&
    forall p :: p in phdrs && IsLoad(p) ==> lo <= p.vaddr
  }

  ghost predicate IsHighest(phdrs: seq<Phdr>, hi: nat) {
    (exists p :: p in phdrs && IsLoad(p) && p.vaddr + p.memsz == hi) &&
    forall p :: p in phdrs && IsLoad(p) ==> p.vaddr + p.memsz <= hi
  }

  /** The span is non-empty exactly when some segment ends above some segment's start. */
  ghost predicate HasSpan(phdrs: seq<Phdr>) {
    exists p, q :: p in phdrs && q in phdrs && IsLoad(p) && IsLoad(q) && p.vaddr < q.vaddr + q.memsz
  }

  /** What the scan knows after a prefix of the headers. */
  ghost predicate Scanned(abi: Abi, phdrs: seq<Phdr>, lo: nat, hi: nat) {
    if forall p :: p in phdrs ==> !IsLoad(p) then lo == Modulus(abi) - 1 && hi == 0
    else IsLowest(phdrs, lo) && IsHighest(phdrs, hi)
  }

  lemma ScanNothing(abi: Abi)
    ensures Scanned(abi, [], Modulus(abi) - 1, 0) && LowestVaddr(abi, []) == Modulus(abi) - 1 && HighestEnd(abi, []) == 0
  {
  }

  lemma ScanOne(abi: Abi, phdrs: seq<Phdr>, p: Phdr, lo: nat, hi: nat)
    requires Scanned(abi, phdrs, lo, hi) && IsLoad(p) && p.vaddr < Modulus(abi)
    ensures Scanned(abi, phdrs + [p], if p.vaddr < lo then p.vaddr else lo,
                    if p.vaddr + p.memsz > hi then p.vaddr + p.memsz else hi)
  {
    var all := phdrs + [p];
    var lo', hi' := if p.vaddr < lo then p.vaddr else lo, if p.vaddr + p.memsz > hi then p.vaddr + p.memsz else hi;
    assert p in all;
    if forall q :: q in phdrs ==> !IsLoad(q) {
    } else {
      var q :| q in phdrs && IsLoad(q) && q.vaddr == lo;
      var r :| r in phdrs && IsLoad(r) && r.vaddr + r.memsz == hi;
      assert q in all && r in all;
    }
    assert IsLowest(all, lo') && IsHighest(all, hi');
  }

  lemma ScanSkips(abi: Abi, phdrs: seq<Phdr>, p: Phdr, lo: nat, hi: nat)
    requires Scanned(abi, phdrs, lo, hi) && !IsLoad(p)
    ensures Scanned(abi, phdrs + [p], lo, hi)
  {
    var all := phdrs + [p];
    if q :| q in phdrs && IsLoad(q) {
      var l :| l in phdrs && IsLoad(l) && l.vaddr == lo;
      var h :| h in phdrs && IsLoad(h) && h.vaddr + h.memsz == hi;
      assert l in all && h in all;
    }
  }

  /** The rejection test `hi <= lo` is exactly the absence of a span. */
  lemma SpanTest(abi: Abi, phdrs: seq<Phdr>, lo: nat, hi: nat)
    requires Scanned(abi, phdrs, lo, hi)
    ensures HasSpan(phdrs) <==> lo < hi
    ensures lo < hi ==> IsLowest(phdrs, lo) && IsHighest(phdrs, hi)
  {
    if lo < hi {
      var p :| p in phdrs && IsLoad(p) && p.vaddr == lo;
      var q :| q in phdrs && IsLoad(q) && q.vaddr + q.memsz == hi;
    }
  }

  ghost predicate IsLayout(phdrs: seq<Phdr>, page: nat, minVaddr: nat, mapSize: nat)
    requires page > 0
  {
    Aligned(minVaddr, page) && Aligned(mapSize, page) && mapSize > 0 &&
    exists lo, hi :: IsLowest(phdrs, lo) && IsHighest(phdrs, hi) &&
      minVaddr == PageDown(lo, page) && minVaddr + mapSize == PageUp(hi, page)
  }

  /** What the scan computes whatever the headers hold: the wrapped ends of segments may lie anywhere. */
  function LowestVaddr(abi: Abi, phdrs: seq<Phdr>): nat {
    if phdrs == [] then Modulus(abi) - 1
    else
      var lo, p := LowestVaddr(abi, phdrs[..|phdrs| - 1]), phdrs[|phdrs| - 1];
      if IsLoad(p) && p.vaddr < lo then p.vaddr else lo
  }

  function HighestEnd(abi: Abi, phdrs: seq<Phdr>): nat {
    if phdrs == [] then 0
    else
      var hi, p := HighestEnd(abi, phdrs[..|phdrs| - 1]), phdrs[|phdrs| - 1];
      if IsLoad(p) && Wrap(abi, p.vaddr + p.memsz) > hi then Wrap(abi, p.vaddr + p.memsz) else hi
  }

  lemma ScanStep(abi: Abi, phdrs: seq<Phdr>, i: nat)
    requires i < |phdrs|
    ensures LowestVaddr(abi, phdrs[..i + 1]) ==
            if IsLoad(phdrs[i]) && phdrs[i].vaddr < LowestVaddr(abi, phdrs[..i]) then phdrs[i].vaddr else LowestVaddr(abi, phdrs[..i])
    ensures var end := Wrap(abi, phdrs[i].vaddr + phdrs[i].memsz);
            HighestEnd(abi, phdrs[..i + 1]) ==
            if IsLoad(phdrs[i]) && end > HighestEnd(abi, phdrs[..i]) then end else HighestEnd(abi, phdrs[..i])
  {
    hide Wrap;
    assert phdrs[..i + 1][..i] == phdrs[..i] && phdrs[..i + 1][i] == phdrs[i];
  }

  /** compute_load_layout: the page-aligned span of all PT_LOAD segments. */
  method ComputeLoadLayout(abi: Abi, phdrs: seq<Phdr>, page: nat)
    returns (ok: bool, minVaddr: nat, mapSize: nat)
    requires 0 < page <= Modulus(abi)
    requires forall p :: p in phdrs ==> p.vaddr < Modulus(abi)
    ensures ok <==> LowestVaddr(abi, phdrs) < HighestEnd(abi, phdrs)
    ensures ok ==> minVaddr == PageDown(LowestVaddr(abi, phdrs), page) &&
                   mapSize == Wrap(abi, PageDown(Wrap(abi, HighestEnd(abi, phdrs) + page - 1), page) - minVaddr)
    ensures NoWrap(abi, phdrs, page) ==> (ok <==> HasSpan(phdrs))
    ensures NoWrap(abi, phdrs, page) && ok ==> IsLayout(phdrs, page, minVaddr, mapSize)
  {
    hide PageDown, Scanned, HasSpan, IsLayout, IsLowest, IsHighest, LowestVaddr, HighestEnd;
    ScanNothing(abi);
    var lo: nat, hi: nat := Modulus(abi) - 1, 0;
    for i := 0 to |phdrs|
      invariant NoWrap(abi, phdrs, page) ==> Scanned(abi, phdrs[..i], lo, hi)
      invariant lo == LowestVaddr(abi, phdrs[..i]) && hi == HighestEnd(abi, phdrs[..i])
    {
      ScanStep(abi, phdrs, i);
      assert phdrs[..i + 1] == phdrs[..i] + [phdrs[i]];
      assert phdrs[i] in phdrs;
      if !IsLoad(phdrs[i]) {
        if NoWrap(abi, phdrs, page) {
          ScanSkips(abi, phdrs[..i], phdrs[i], lo, hi);
        }
        continue;
      }
      if NoWrap(abi, phdrs, page) {
        ScanOne(abi, phdrs[..i], phdrs[i], lo, hi);
      }
      if phdrs[i].vaddr < lo {
        lo := phdrs[i].vaddr;
      }
      var end := Wrap(abi, phdrs[i].vaddr + phdrs[i].memsz);
      if end > hi {
        hi := end;
      }
    }
    assert phdrs[..|phdrs|] == phdrs;
    if NoWrap(abi, phdrs, page) {
      SpanTest(abi, phdrs, lo, hi);
    }
    if hi <= lo {
      return false, 0, 0;
    }
    minVaddr := PageDown(lo, page);
    mapSize := Wrap(abi, PageDown(Wrap(abi, hi + page - 1), page) - minVaddr);
    ok := true;
    if NoWrap(abi, phdrs, page) {
      LayoutOfScan(abi, phdrs, page, lo, hi);
    }
  }

  lemma LayoutOfScan(abi: Abi, phdrs: seq<Phdr>, page: nat, lo: nat, hi: nat)
    requires page > 0 && NoWrap(abi, phdrs, page) && lo < hi && IsLowest(phdrs, lo) && IsHighest(phdrs, hi)
    ensures IsLayout(phdrs, page, PageDown(lo, page),
                     Wrap(abi, PageDown(Wrap(abi, hi + page - 1), page) - PageDown(lo, page)))
  {
    hide PageDown;
    BoundariesAreAligned(lo, page);
    BoundariesAreAligned(hi, page);
    AlignedSum(PageUp(hi, page), PageDown(lo, page), page);
    assert Wrap(abi, hi + page - 1) == hi + page - 1;
  }

  // --- Where a segment goes ---------------------------------------------------

  /** The reserved range: vaddr `lo` is placed at `base`. */
  datatype Span = Span(abi: Abi, base: nat, lo: nat, size: nat, page: nat)

  ghost predicate ValidSpan(abi: Abi, sp: Span) {
    sp.abi == abi && sp.page > 0 && Aligned(sp.base, sp.page) && Aligned(sp.lo, sp.page) && Aligned(sp.size, sp.page) &&
    sp.base + sp.size <= Modulus(abi) && sp.base < Modulus(abi) && sp.lo < Modulus(abi)
  }

  function Addr(sp: Span, v: nat): nat
    requires sp.lo <= v
  {
    sp.base + (v - sp.lo)
  }

  /** The addresses computed for one PT_LOAD header; `fileOff` is the file offset that arrives for `offArg`. */
  datatype Place = Place(start: nat, fileEnd: nat, filePageEnd: nat, end: nat, offArg: nat, fileOff: nat,
                         hasFile: bool, writable: bool)

  predicate Above(sp: Span, p: Phdr) {
    sp.page > 0 && sp.lo <= p.vaddr
  }

  function PlaceOf(sp: Span, p: Phdr): (pl: Place)
    requires Above(sp, p)
    ensures pl.start <= pl.end && pl.start <= pl.fileEnd <= pl.filePageEnd
    ensures pl.hasFile ==> pl.start < pl.filePageEnd
  {
    Place(PageDown(Addr(sp, p.vaddr), sp.page),
          Addr(sp, p.vaddr + p.filesz),
          PageUp(Addr(sp, p.vaddr + p.filesz), sp.page),
          PageUp(Addr(sp, p.vaddr + p.memsz), sp.page),
          OffsetArg(sp.abi, PageDown(p.offset, sp.page), sp.page),
          KernelOffset(sp.abi, OffsetArg(sp.abi, PageDown(p.offset, sp.page), sp.page)),
          p.filesz > 0,
          Writable(p))
  }

  predicate FileMapped(pl: Place, a: nat) {
    pl.hasFile && pl.start <= a < pl.filePageEnd
  }

  predicate BssMapped(pl: Place, a: nat) {
    pl.filePageEnd <= a < pl.end
  }

  /** `a` belongs to a page mapped by one of the MAP_FIXED calls for this header. */
  predicate Touches(pl: Place, a: nat) {
    FileMapped(pl, a) || BssMapped(pl, a)
  }

  /** What is left at a mapped address, before relocation. */
  function SegmentByte(pl: Place, file: seq<Byte>, a: nat): Byte
    requires Touches(pl, a)
  {
    if BssMapped(pl, a) || (pl.writable && a >= pl.fileEnd) || a < pl.start then 0
    else FileByte(file, pl.fileOff + (a - pl.start))
  }

  /** Every address computed for `p` fits a word. */
  ghost predicate Fits(abi: Abi, sp: Span, p: Phdr) {
    Above(sp, p) &&
    Addr(sp, p.vaddr + p.memsz) + sp.page <= Modulus(abi) &&
    Addr(sp, p.vaddr + p.filesz) + sp.page <= Modulus(abi)
  }

  ghost predicate AllFit(abi: Abi, sp: Span, phdrs: seq<Phdr>) {
    ValidSpan(abi, sp) && forall p :: p in phdrs && IsLoad(p) ==> Fits(abi, sp, p)
  }

  /** The effect of one iteration of the mapping loop at address `a`. */
  function AfterPlace(c: Cell, file: seq<Byte>, pl: Place, a: nat): Cell {
    if Touches(pl, a) then Mapped(SegmentByte(pl, file, a), READ_WRITE) else c
  }

  /** The PT_LOAD headers, in table order, as places. */
  function Places(sp: Span, phdrs: seq<Phdr>): (r: seq<Place>)
    requires forall p :: p in phdrs && IsLoad(p) ==> Above(sp, p)
  {
    if phdrs == [] then []
    else
      var last := phdrs[|phdrs| - 1];
      var before := Places(sp, phdrs[..|phdrs| - 1]);
      if IsLoad(last) then before + [PlaceOf(sp, last)] else before
  }

  /** The effect of the whole loop at address `a`: the last header that touches it wins. */
  function AfterPlaces(c: Cell, file: seq<Byte>, places: seq<Place>, a: nat): Cell {
    if places == [] then c
    else AfterPlace(AfterPlaces(c, file, places[..|places| - 1], a), file, places[|places| - 1], a)
  }

  /** What the two mmap calls for a header returned; None when a call was not made. */
  datatype Reply = Reply(file: Option<nat>, bss: Option<nat>)

  predicate Accepted(abi: Abi, w: Option<nat>) {
    w.Some? ==> !Noticed(abi, w.value)
  }

  predicate Honoured(abi: Abi, w: Option<nat>) {
    w.Some? ==> !IsErrno(abi, w.value)
  }

  /** The loader went on after both calls. */
  predicate ReplyAccepted(abi: Abi, r: Reply) {
    Accepted(abi, r.file) && Accepted(abi, r.bss)
  }

  /** Both calls did what they were asked for. */
  predicate ReplyHonoured(abi: Abi, r: Reply) {
    Honoured(abi, r.file) && Honoured(abi, r.bss)
  }

  /** The calls the loader makes for a place. */
  predicate CallsMade(pl: Place, r: Reply) {
    r.file.Some? == pl.hasFile && r.bss.Some? == (pl.end > pl.filePageEnd)
  }

  /** The effect of one iteration at address `a` when the kernel honoured only some of the calls. */
  function AfterReply(abi: Abi, c: Cell, file: seq<Byte>, pl: Place, r: Reply, a: nat): Cell {
    if BssMapped(pl, a) && Honoured(abi, r.bss) then Mapped(0, READ_WRITE) else AfterFilePart(abi, c, file, pl, r.file, a)
  }

  /** The file pages, and the zeroed tail of the last one. */
  function AfterFilePart(abi: Abi, c: Cell, file: seq<Byte>, pl: Place, w: Option<nat>, a: nat): Cell {
    var mapped :=
      if FileMapped(pl, a) && Honoured(abi, w) then Mapped(FileByte(file, pl.fileOff + (a - pl.start)), READ_WRITE) else c;
    if pl.hasFile && pl.writable && pl.fileEnd <= a < pl.filePageEnd && mapped.Mapped? then mapped.(byte := 0) else mapped
  }

  function AfterReplies(abi: Abi, c: Cell, file: seq<Byte>, places: seq<Place>, replies: seq<Reply>, a: nat): Cell
    requires |replies| == |places|
  {
    if places == [] then c
    else
      var n := |places| - 1;
      AfterReply(abi, AfterReplies(abi, c, file, places[..n], replies[..n], a), file, places[n], replies[n], a)
  }

  /** The addresses of a place are in order and do not wrap. */
  predicate Ordered(abi: Abi, pl: Place) {
    pl.start <= pl.end < Modulus(abi) && pl.start <= pl.fileEnd <= pl.filePageEnd < Modulus(abi) &&
    pl.fileOff == KernelOffset(abi, pl.offArg)
  }

  lemma HonouredReply(abi: Abi, c: Cell, file: seq<Byte>, pl: Place, r: Reply, a: nat)
    requires Ordered(abi, pl) && ReplyHonoured(abi, r)
    ensures AfterReply(abi, c, file, pl, r, a) == AfterPlace(c, file, pl, a)
  {
  }

  /** When every call was honoured the loop leaves the placed image. */
  lemma {:induction false} HonouredReplies(abi: Abi, c: Cell, file: seq<Byte>, places: seq<Place>, replies: seq<Reply>, a: nat)
    requires |replies| == |places| && (forall i :: 0 <= i < |places| ==> Ordered(abi, places[i]))
    requires forall i :: 0 <= i < |replies| ==> ReplyHonoured(abi, replies[i])
    ensures AfterReplies(abi, c, file, places, replies, a) == AfterPlaces(c, file, places, a)
  {
    hide AfterReply, AfterPlace, Ordered, ReplyHonoured;
    if places != [] {
      var n := |places| - 1;
      HonouredReplies(abi, c, file, places[..n], replies[..n], a);
      HonouredReply(abi, AfterPlaces(c, file, places[..n], a), file, places[n], replies[n], a);
    }
  }

  datatype Seg = Seg(addr: nat, len: nat, prot: Prot)

  function SegmentRecord(sp: Span, p: Phdr): Seg
    requires Above(sp, p)
  {
    var pl := PlaceOf(sp, p);
    Seg(pl.start, pl.end - pl.start, ElfProt(p))
  }

  /** The bounded `segs` table: later segments are dropped once it is full. */
  function Records(sp: Span, phdrs: seq<Phdr>): (r: seq<Seg>)
    requires forall p :: p in phdrs && IsLoad(p) ==> Above(sp, p)
    ensures |r| <= MAX_SEGMENTS
  {
    if phdrs == [] then []
    else
      var last := phdrs[|phdrs| - 1];
      var before := Records(sp, phdrs[..|phdrs| - 1]);
      if IsLoad(last) && |before| < MAX_SEGMENTS then before + [SegmentRecord(sp, last)] else before
  }

  /** The wrapped sums of the source give the intended address. */
  lemma BiasedAddress(abi: Abi, sp: Span, v: nat)
    requires sp.lo <= v && sp.base < Modulus(abi) && sp.lo < Modulus(abi) && Addr(sp, v) < Modulus(abi)
    ensures Wrap(abi, v + Wrap(abi, sp.base - sp.lo)) == Addr(sp, v)
  {
  }

  class Tracee {
    var space: Space

    constructor (s: Space)
      ensures space == s
    {
      space := s;
    }

    /** mmap(MAP_FIXED | MAP_PRIVATE) of the library file, readable and writable. */
    method MmapFixedFile(abi: Abi, addr: nat, len: nat, file: seq<Byte>, arg: nat) returns (w: nat)
      modifies this
      ensures w < Modulus(abi) && (!IsErrno(abi, w) ==> w == addr)
      ensures !IsErrno(abi, w) ==> forall a: nat :: InRange(a, addr, len) ==>
                space(a) == Mapped(FileByte(file, KernelOffset(abi, arg) + (a - addr)), READ_WRITE)
      ensures IsErrno(abi, w) && !Noticed(abi, w) ==> forall a: nat :: space(a) == old(space)(a)
      ensures forall a: nat :: !InRange(a, addr, len) ==> space(a) == old(space)(a)
    {
      var done: bool;
      w, done := Answer(abi, addr);
      if done {
        var before, off := space, KernelOffset(abi, arg);
        space := (a: nat) => if InRange(a, addr, len) then Mapped(FileByte(file, off + (a - addr)), READ_WRITE) else before(a);
      }
    }

    /** Anonymous mmap at a fixed address: zero pages. */
    method MmapFixedAnonymous(abi: Abi, addr: nat, len: nat, prot: Prot) returns (w: nat)
      modifies this
      ensures w < Modulus(abi) && (!IsErrno(abi, w) ==> w == addr)
      ensures !IsErrno(abi, w) ==> forall a: nat :: InRange(a, addr, len) ==> space(a) == Mapped(0, prot)
      ensures IsErrno(abi, w) && !Noticed(abi, w) ==> forall a: nat :: space(a) == old(space)(a)
      ensures forall a: nat :: !InRange(a, addr, len) ==> space(a) == old(space)(a)
    {
      var done: bool;
      w, done := Answer(abi, addr);
      if done {
        var before := space;
        space := (a: nat) => if InRange(a, addr, len) then Mapped(0, prot) else before(a);
      }
    }

    /** The kernel's answer to a fixed mapping. When tracing fails after the call, -1 stands for a mapping that was made. */
    method Answer(abi: Abi, addr: nat) returns (w: nat, done: bool)
      ensures w < Modulus(abi) && (!IsErrno(abi, w) ==> w == addr && done)
      ensures IsErrno(abi, w) && !Noticed(abi, w) ==> !done
    {
      var errno: nat :| 1 <= errno <= MAX_ERRNO;
      done := *;
      var traced: bool := *;
      if done && traced && addr < Modulus(abi) - MAX_ERRNO {
        return addr, true;
      }
      w := Modulus(abi) - if done then 1 else errno;
    }

    /** The reservation: an anonymous mmap anywhere the kernel likes, below its own part of the address space. */
    method MmapReserve(abi: Abi, len: nat, page: nat) returns (w: nat)
      requires page > 0
      modifies this
      ensures w < Modulus(abi)
      ensures !IsErrno(abi, w) ==> Aligned(w, page) && w + len + page <= Modulus(abi)
      ensures !IsErrno(abi, w) ==> forall a: nat :: space(a) == if InRange(a, w, len) then Mapped(0, NO_ACCESS) else old(space)(a)
      ensures IsErrno(abi, w) ==> forall a: nat :: space(a) == old(space)(a)
    {
      var base: nat := *;
      var errno: nat :| 1 <= errno <= MAX_ERRNO;
      if base >= Modulus(abi) - MAX_ERRNO || !Aligned(base, page) || base + len + page > Modulus(abi) {
        return Modulus(abi) - errno;
      }
      var before := space;
      space := (a: nat) => if InRange(a, base, len) then Mapped(0, NO_ACCESS) else before(a);
      return base;
    }

    /** write_proc: may stop after any prefix; fails on a byte that is not writable. */
    method WriteProc(addr: nat, data: seq<Byte>) returns (ok: bool)
      modifies this
      ensures ok ==> forall a: nat :: InRange(a, addr, |data|) ==> old(space)(a).Mapped? && old(space)(a).prot.write
      ensures forall a: nat :: ok && InRange(a, addr, |data|) ==> space(a) == old(space)(a).(byte := data[a - addr])
      ensures forall a: nat :: !InRange(a, addr, |data|) ==> space(a) == old(space)(a)
      ensures forall a: nat :: space(a).Mapped? == old(space)(a).Mapped?
      ensures forall a: nat :: space(a).Mapped? ==> space(a).prot == old(space)(a).prot
    {
      var n: nat :| n <= |data|;
      ok := n == |data| && forall a: nat :: addr <= a < addr + |data| ==> space(a).Mapped? && space(a).prot.write;
      var before := space;
      space := (a: nat) => if InRange(a, addr, n) && before(a).Mapped? then before(a).(byte := data[a - addr]) else before(a);
    }

    method Mprotect(addr: nat, len: nat, prot: Prot) returns (ok: bool)
      modifies this
      ensures forall a: nat ::
                space(a) == if ok && InRange(a, addr, len) && old(space)(a).Mapped? then old(space)(a).(prot := prot)
                            else old(space)(a)
    {
      ok := *;
      if ok {
        var before := space;
        space := (a: nat) => if InRange(a, addr, len) && before(a).Mapped? then before(a).(prot := prot) else before(a);
      }
    }

    method Munmap(addr: nat, len: nat)
      modifies this
      ensures forall a: nat :: space(a) == if InRange(a, addr, len) then Unmapped else old(space)(a)
    {
      var before := space;
      space := (a: nat) => if InRange(a, addr, len) then Unmapped else before(a);
    }
  }

  /** The address computations of one iteration, with the wrap-around of the source. */
  method ComputePlace(abi: Abi, sp: Span, p: Phdr) returns (pl: Place)
    requires sp.page > 0 && sp.abi == abi
    ensures Fits(abi, sp, p) && sp.base < Modulus(abi) && sp.lo < Modulus(abi) ==> pl == PlaceOf(sp, p) && Ordered(abi, pl)
  {
    hide PageDown, Wrap;
    var loadBias := Wrap(abi, sp.base - sp.lo);
    var segStart := Wrap(abi, p.vaddr + loadBias);
    var segEnd := Wrap(abi, p.vaddr + p.memsz + loadBias);
    var fileEnd := Wrap(abi, p.vaddr + p.filesz + loadBias);
    var offArg := OffsetArg(abi, PageDown(p.offset, sp.page), sp.page);
    pl := Place(PageDown(segStart, sp.page),
                fileEnd,
                PageDown(Wrap(abi, fileEnd + sp.page - 1), sp.page),
                PageDown(Wrap(abi, segEnd + sp.page - 1), sp.page),
                offArg,
                KernelOffset(abi, offArg),
                p.filesz > 0,
                Writable(p));
    if Fits(abi, sp, p) && sp.base < Modulus(abi) && sp.lo < Modulus(abi) {
      BiasedAddress(abi, sp, p.vaddr);
      BiasedAddress(abi, sp, p.vaddr + p.memsz);
      BiasedAddress(abi, sp, p.vaddr + p.filesz);
    }
  }

  /** The bytes the loader zeroes behind the file contents could be written in `s`. */
  ghost predicate TailWritable(pl: Place, s: Space) {
    pl.writable ==> forall a: nat :: pl.fileEnd <= a < pl.filePageEnd ==> s(a).Mapped? && s(a).prot.write
  }

  /** The file-backed pages of one PT_LOAD header. */
  method MapFilePart(t: Tracee, abi: Abi, file: seq<Byte>, pl: Place) returns (ok: bool, word: Option<nat>)
    modifies t
    ensures ok ==> Accepted(abi, word) && word.Some? == pl.hasFile
    ensures ok && Ordered(abi, pl) ==> forall a: nat :: t.space(a) == AfterFilePart(abi, old(t.space)(a), file, pl, word, a)
    ensures ok && Ordered(abi, pl) && !Honoured(abi, word) ==> TailWritable(pl, old(t.space))
    ensures Ordered(abi, pl) ==> forall a: nat :: !FileMapped(pl, a) ==> t.space(a) == old(t.space)(a)
  {
    word := None;
    if !pl.hasFile {
      return true, word;
    }
    var w := t.MmapFixedFile(abi, pl.start, Wrap(abi, pl.filePageEnd - pl.start), file, pl.offArg);
    word := Some(w);
    if w == 0 || w == Modulus(abi) - 1 {
      return false, word;
    }
    if pl.writable && pl.filePageEnd > pl.fileEnd {
      var zeroed := t.WriteProc(pl.fileEnd, seq(pl.filePageEnd - pl.fileEnd, _ => 0));
      if !zeroed {
        return false, word;
      }
    }
    return true, word;
  }

  /** The remote calls for one PT_LOAD header. */
  method MapPlace(t: Tracee, abi: Abi, file: seq<Byte>, pl: Place) returns (ok: bool, reply: Reply)
    modifies t
    ensures ok ==> ReplyAccepted(abi, reply) && CallsMade(pl, reply)
    ensures ok && Ordered(abi, pl) ==> forall a: nat :: t.space(a) == AfterReply(abi, old(t.space)(a), file, pl, reply, a)
    ensures ok && Ordered(abi, pl) && !Honoured(abi, reply.file) ==> TailWritable(pl, old(t.space))
    ensures Ordered(abi, pl) ==> forall a: nat :: !Touches(pl, a) ==> t.space(a) == old(t.space)(a)
  {
    hide AfterFilePart, Modulus, TailWritable;
    reply := Reply(None, None);
    var filed, word := MapFilePart(t, abi, file, pl);
    reply := reply.(file := word);
    if !filed {
      return false, reply;
    }
    if pl.end > pl.filePageEnd {
      var w := t.MmapFixedAnonymous(abi, pl.filePageEnd, pl.end - pl.filePageEnd, READ_WRITE);
      reply := reply.(bss := Some(w));
      if w == 0 || w == Modulus(abi) - 1 {
        return false, reply;
      }
    }
    return true, reply;
  }

  /** The loop over the program headers. */
  method LoadSegments(t: Tracee, abi: Abi, sp: Span, file: seq<Byte>, phdrs: seq<Phdr>)
    returns (ok: bool, segs: seq<Seg>, replies: seq<Reply>)
    requires sp.page > 0 && sp.abi == abi
    modifies t
    ensures ok ==> forall i :: 0 <= i < |replies| ==> ReplyAccepted(abi, replies[i])
    ensures ok && AllFit(abi, sp, phdrs) ==> segs == Records(sp, phdrs)
    ensures ok && AllFit(abi, sp, phdrs) ==> Mapping(abi, sp, file, phdrs, replies, old(t.space), t.space)
    ensures ok && AllFit(abi, sp, phdrs) ==> TailsWritten(abi, sp, file, phdrs, replies, old(t.space))
    ensures AllFit(abi, sp, phdrs) ==>
              forall a: nat :: (forall pl :: pl in Places(sp, phdrs) ==> !Touches(pl, a)) ==> t.space(a) == old(t.space)(a)
  {
    hide Places, Records, AfterReplies, Touches, AfterReply, ElfProt, AllFit, Fits, ReplyAccepted, Ordered, CallsMade,
      TailWritable, Mapping, TailsWritten;
    segs, replies := [], [];
    if AllFit(abi, sp, phdrs) {
      NothingMapped(abi, sp, file, t.space);
      FitsAreAbove(abi, sp, phdrs);
    }
    assert phdrs[..0] == [];
    for i := 0 to |phdrs|
      invariant forall k :: 0 <= k < |replies| ==> ReplyAccepted(abi, replies[k])
      invariant AllFit(abi, sp, phdrs) ==>
                  Mapping(abi, sp, file, phdrs[..i], replies, old(t.space), t.space) &&
                  TailsWritten(abi, sp, file, phdrs[..i], replies, old(t.space)) && segs == Records(sp, phdrs[..i])
      invariant AllFit(abi, sp, phdrs) ==>
                  forall a: nat :: (forall pl :: pl in Places(sp, phdrs) ==> !Touches(pl, a)) ==> t.space(a) == old(t.space)(a)
    {
      if !IsLoad(phdrs[i]) {
        if AllFit(abi, sp, phdrs) {
          SkippedHeader(abi, sp, file, phdrs, i, replies, old(t.space), t.space);
        }
        continue;
      }
      var pl := ComputePlace(abi, sp, phdrs[i]);
      ghost var before := t.space;
      var mapped, reply := MapPlace(t, abi, file, pl);
      if AllFit(abi, sp, phdrs) {
        PlacesStep(sp, phdrs, i);
        OneFits(abi, sp, phdrs, phdrs[i]);
        PlaceAmong(sp, phdrs, i);
      }
      if !mapped {
        return false, segs, replies;
      }
      if AllFit(abi, sp, phdrs) {
        TailsStep(abi, sp, file, phdrs, i, replies, reply, old(t.space), before);
        MappingStep(abi, sp, file, phdrs, i, replies, reply, old(t.space), before, t.space);
      }
      replies := replies + [reply];
      if |segs| < MAX_SEGMENTS {
        segs := segs + [Seg(pl.start, Wrap(abi, pl.end - pl.start), ElfProt(phdrs[i]))];
      }
    }
    assert phdrs[..|phdrs|] == phdrs;
    ok := true;
  }

  lemma FitsAreAbove(abi: Abi, sp: Span, phdrs: seq<Phdr>)
    requires AllFit(abi, sp, phdrs)
    ensures forall p :: p in phdrs && IsLoad(p) ==> Above(sp, p)
  {
  }

  lemma OneFits(abi: Abi, sp: Span, phdrs: seq<Phdr>, p: Phdr)
    requires AllFit(abi, sp, phdrs) && p in phdrs && IsLoad(p)
    ensures Fits(abi, sp, p) && sp.base < Modulus(abi) && sp.lo < Modulus(abi)
    ensures Wrap(abi, PlaceOf(sp, p).end - PlaceOf(sp, p).start) == PlaceOf(sp, p).end - PlaceOf(sp, p).start
  {
    hide PageDown;
  }

  /** The space after the headers so far, given what their calls returned. */
  ghost predicate Mapping(abi: Abi, sp: Span, file: seq<Byte>, phdrs: seq<Phdr>, replies: seq<Reply>, s: Space, t: Space)
    requires forall p :: p in phdrs && IsLoad(p) ==> Above(sp, p)
  {
    |replies| == |Places(sp, phdrs)| &&
    (forall i :: 0 <= i < |replies| ==> CallsMade(Places(sp, phdrs)[i], replies[i])) &&
    forall a: nat :: t(a) == AfterReplies(abi, s(a), file, Places(sp, phdrs), replies, a)
  }

  lemma MappingStep(abi: Abi, sp: Span, file: seq<Byte>, phdrs: seq<Phdr>, i: nat, replies: seq<Reply>, reply: Reply,
                    s: Space, before: Space, t: Space)
    requires i < |phdrs| && IsLoad(phdrs[i]) && forall p :: p in phdrs && IsLoad(p) ==> Above(sp, p)
    requires Mapping(abi, sp, file, phdrs[..i], replies, s, before)
    requires forall a: nat :: t(a) == AfterReply(abi, before(a), file, PlaceOf(sp, phdrs[i]), reply, a)
    requires CallsMade(PlaceOf(sp, phdrs[i]), reply)
    ensures Mapping(abi, sp, file, phdrs[..i + 1], replies + [reply], s, t)
  {
    hide PlaceOf, AfterReply, CallsMade;
    PlacesStep(sp, phdrs, i);
    var places := Places(sp, phdrs[..i]);
    assert (places + [PlaceOf(sp, phdrs[i])])[..|places|] == places && (replies + [reply])[..|places|] == replies;
  }

  /** The file mappings that answered with an errno passed only because the zeroing behind them did not fail. */
  ghost predicate TailsWritten(abi: Abi, sp: Span, file: seq<Byte>, phdrs: seq<Phdr>, replies: seq<Reply>, s: Space)
    requires forall p :: p in phdrs && IsLoad(p) ==> Above(sp, p)
  {
    |replies| == |Places(sp, phdrs)| &&
    forall i :: 0 <= i < |replies| && !Honoured(abi, replies[i].file) ==>
      TailWritable(Places(sp, phdrs)[i], SpaceAfter(abi, s, file, Places(sp, phdrs)[..i], replies[..i]))
  }

  ghost function SpaceAfter(abi: Abi, s: Space, file: seq<Byte>, places: seq<Place>, replies: seq<Reply>): Space
    requires |replies| == |places|
  {
    (a: nat) => AfterReplies(abi, s(a), file, places, replies, a)
  }

  lemma TailsStep(abi: Abi, sp: Span, file: seq<Byte>, phdrs: seq<Phdr>, i: nat, replies: seq<Reply>, reply: Reply,
                  s: Space, before: Space)
    requires i < |phdrs| && IsLoad(phdrs[i]) && forall p :: p in phdrs && IsLoad(p) ==> Above(sp, p)
    requires Mapping(abi, sp, file, phdrs[..i], replies, s, before) && TailsWritten(abi, sp, file, phdrs[..i], replies, s)
    requires !Honoured(abi, reply.file) ==> TailWritable(PlaceOf(sp, phdrs[i]), before)
    ensures TailsWritten(abi, sp, file, phdrs[..i + 1], replies + [reply], s)
  {
    hide PlaceOf, CallsMade, Honoured, AfterReplies;
    PlacesStep(sp, phdrs, i);
    var places, all := Places(sp, phdrs[..i]), replies + [reply];
    forall k | 0 <= k < |all| && !Honoured(abi, all[k].file)
      ensures TailWritable(Places(sp, phdrs[..i + 1])[k], SpaceAfter(abi, s, file, Places(sp, phdrs[..i + 1])[..k], all[..k]))
    {
      assert Places(sp, phdrs[..i + 1])[..k] == places[..k] && all[..k] == replies[..k];
      assert places[..|places|] == places && replies[..|replies|] == replies;
    }
  }

  lemma SameTails(abi: Abi, sp: Span, file: seq<Byte>, phdrs: seq<Phdr>, replies: seq<Reply>, s: Space, t: Space)
    requires forall p :: p in phdrs && IsLoad(p) ==> Above(sp, p)
    requires TailsWritten(abi, sp, file, phdrs, replies, s) && forall a: nat :: s(a) == t(a)
    ensures TailsWritten(abi, sp, file, phdrs, replies, t)
  {
    hide AfterReplies, Places, Honoured;
    var places := Places(sp, phdrs);
    forall i | 0 <= i < |replies| && !Honoured(abi, replies[i].file)
      ensures TailWritable(places[i], SpaceAfter(abi, t, file, places[..i], replies[..i]))
    {
      forall a: nat
        ensures SpaceAfter(abi, s, file, places[..i], replies[..i])(a) == SpaceAfter(abi, t, file, places[..i], replies[..i])(a)
      {
        assert s(a) == t(a);
      }
    }
  }

  lemma SkippedHeader(abi: Abi, sp: Span, file: seq<Byte>, phdrs: seq<Phdr>, i: nat, replies: seq<Reply>, s: Space, t: Space)
    requires i < |phdrs| && !IsLoad(phdrs[i]) && forall p :: p in phdrs && IsLoad(p) ==> Above(sp, p)
    requires Mapping(abi, sp, file, phdrs[..i], replies, s, t) && TailsWritten(abi, sp, file, phdrs[..i], replies, s)
    ensures Mapping(abi, sp, file, phdrs[..i + 1], replies, s, t) && TailsWritten(abi, sp, file, phdrs[..i + 1], replies, s)
    ensures Records(sp, phdrs[..i + 1]) == Records(sp, phdrs[..i])
  {
    hide AfterReplies, CallsMade, TailWritable, SpaceAfter;
    PlacesStep(sp, phdrs, i);
  }

  lemma PlaceAmong(sp: Span, phdrs: seq<Phdr>, i: nat)
    requires i < |phdrs| && IsLoad(phdrs[i]) && forall p :: p in phdrs && IsLoad(p) ==> Above(sp, p)
    ensures PlaceOf(sp, phdrs[i]) in Places(sp, phdrs)
  {
    hide PlaceOf;
    PlacesStep(sp, phdrs, i);
    PlacesGrow(sp, phdrs, i + 1);
    var places := Places(sp, phdrs[..i + 1]);
    assert places[|places| - 1] in places;
  }

  lemma NothingMapped(abi: Abi, sp: Span, file: seq<Byte>, s: Space)
    ensures Mapping(abi, sp, file, [], [], s, s) && TailsWritten(abi, sp, file, [], [], s) && Records(sp, []) == []
  {
  }

  /** One more header in the table: one more place and, while there is room, one more record. */
  lemma PlacesStep(sp: Span, phdrs: seq<Phdr>, i: nat)
    requires i < |phdrs| && forall p :: p in phdrs && IsLoad(p) ==> Above(sp, p)
    ensures Places(sp, phdrs[..i + 1]) ==
            if IsLoad(phdrs[i]) then Places(sp, phdrs[..i]) + [PlaceOf(sp, phdrs[i])] else Places(sp, phdrs[..i])
    ensures Records(sp, phdrs[..i + 1]) ==
            if IsLoad(phdrs[i]) && |Records(sp, phdrs[..i])| < MAX_SEGMENTS
            then Records(sp, phdrs[..i]) + [SegmentRecord(sp, phdrs[i])] else Records(sp, phdrs[..i])
  {
    hide PlaceOf;
    assert phdrs[..i + 1][..i] == phdrs[..i] && phdrs[..i + 1][i] == phdrs[i];
  }

  /** An address no header touches keeps its cell. */
  lemma {:induction false} Untouched(c: Cell, file: seq<Byte>, places: seq<Place>, a: nat)
    requires forall pl :: pl in places ==> !Touches(pl, a)
    ensures AfterPlaces(c, file, places, a) == c
  {
    if places != [] {
      Untouched(c, file, places[..|places| - 1], a);
    }
  }

  lemma {:induction false} PlacesGrow(sp: Span, phdrs: seq<Phdr>, k: nat)
    requires k <= |phdrs| && forall p :: p in phdrs && IsLoad(p) ==> Above(sp, p)
    ensures forall pl :: pl in Places(sp, phdrs[..k]) ==> pl in Places(sp, phdrs)
  {
    if k == |phdrs| {
      assert phdrs[..k] == phdrs;
    } else {
      PlacesGrow(sp, phdrs[..|phdrs| - 1], k);
      assert phdrs[..|phdrs| - 1][..k] == phdrs[..k];
    }
  }

  // --- Final protections -----------------------------------------------------------

  /** The protection left at `a` by the mprotect loop: the last record that covers it. */
  function AfterProtect(c: Cell, segs: seq<Seg>, a: nat): Cell {
    if segs == [] then c
    else
      var before := AfterProtect(c, segs[..|segs| - 1], a);
      var last := segs[|segs| - 1];
      if InRange(a, last.addr, last.len) && before.Mapped? then before.(prot := last.prot) else before
  }

  /** Tightens every recorded segment; a failing mprotect gives the whole span back. */
  method ApplyProtections(t: Tracee, base: nat, mapSize: nat, segs: seq<Seg>) returns (ok: bool)
    modifies t
    ensures ok ==> forall a: nat :: t.space(a) == AfterProtect(old(t.space)(a), segs, a)
    ensures !ok ==> forall a: nat :: InRange(a, base, mapSize) ==> t.space(a) == Unmapped
    ensures !ok ==> forall a: nat ::
              !InRange(a, base, mapSize) && (forall s :: s in segs ==> !InRange(a, s.addr, s.len)) ==>
              t.space(a) == old(t.space)(a)
  {
    for i := 0 to |segs|
      invariant forall a: nat :: t.space(a) == AfterProtect(old(t.space)(a), segs[..i], a)
    {
      assert segs[..i + 1][..i] == segs[..i];
      var done := t.Mprotect(segs[i].addr, segs[i].len, segs[i].prot);
      if !done {
        forall a: nat | forall s :: s in segs ==> !InRange(a, s.addr, s.len)
          ensures AfterProtect(old(t.space)(a), segs[..i], a) == old(t.space)(a)
        {
          Unprotected(old(t.space)(a), segs[..i], a);
        }
        t.Munmap(base, mapSize);
        return false;
      }
    }
    assert segs[..|segs|] == segs;
    ok := true;
  }

  lemma {:induction false} Unprotected(c: Cell, segs: seq<Seg>, a: nat)
    requires forall s :: s in segs ==> !InRange(a, s.addr, s.len)
    ensures AfterProtect(c, segs, a) == c
  {
    if segs != [] {
      Unprotected(c, segs[..|segs| - 1], a);
    }
  }

  // --- File offsets ------------------------------------------------------------------

  predicate FileHolds(abi: Abi, p: Phdr, v: nat) {
    IsLoad(p) && p.vaddr <= v < Wrap(abi, p.vaddr + p.filesz)
  }

  /** The first header whose file contents cover `v` gives its offset. */
  function FileOffset(abi: Abi, phdrs: seq<Phdr>, v: nat): Option<nat> {
    if phdrs == [] then None
    else if FileHolds(abi, phdrs[0], v) then Some(phdrs[0].offset + (v - phdrs[0].vaddr))
    else FileOffset(abi, phdrs[1..], v)
  }

  ghost predicate FirstHolder(abi: Abi, phdrs: seq<Phdr>, v: nat, i: nat) {
    i < |phdrs| && FileHolds(abi, phdrs[i], v) && forall k :: 0 <= k < i ==> !FileHolds(abi, phdrs[k], v)
  }

  /** vaddr_to_offset. */
  method VaddrToOffset(abi: Abi, phdrs: seq<Phdr>, v: nat) returns (r: Option<nat>)
    ensures r == FileOffset(abi, phdrs, v)
    ensures r.Some? <==> exists i :: 0 <= i < |phdrs| && FileHolds(abi, phdrs[i], v)
    ensures r.Some? ==> exists i: nat :: FirstHolder(abi, phdrs, v, i) && r.value == phdrs[i].offset + (v - phdrs[i].vaddr)
  {
    hide Wrap;
    for i := 0 to |phdrs|
      invariant FileOffset(abi, phdrs, v) == FileOffset(abi, phdrs[i..], v)
      invariant forall k :: 0 <= k < i ==> !FileHolds(abi, phdrs[k], v)
    {
      if !IsLoad(phdrs[i]) {
        continue;
      }
      var segEnd := Wrap(abi, phdrs[i].vaddr + phdrs[i].filesz);
      if v < phdrs[i].vaddr || v >= segEnd {
        continue;
      }
      assert FirstHolder(abi, phdrs, v, i);
      return Some(phdrs[i].offset + (v - phdrs[i].vaddr));
    }
    return None;
  }
}
