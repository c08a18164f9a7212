/**
 Loads in which the kernel refused some mapping with an errno that passes for an
 address: which of them return success, and what they leave.
 */
module RefusedMappings {
  import opened Options
  import opened Words
  import opened Abis
  import opened Pages
  import opened RemoteLoader
  import opened LoadedImage
  import opened Relocation
  import opened RelocatedImage
  import opened LibraryLoad

  /** A load that returned success over an honest reservation; its other mmaps may have answered with errnos. */
  ghost predicate SomeRun(c: Context, phdrs: seq<Phdr>, before: Space, r: Run, final: Space) {
    Succeeded(c, phdrs, before, r, final) && Loadable(c, phdrs, r.sp) && !IsErrno(c.abi, r.sp.base)
  }

  lemma SomeRunFits(c: Context, phdrs: seq<Phdr>, before: Space, r: Run, final: Space)
    requires SomeRun(c, phdrs, before, r, final)
    ensures AllFit(c.abi, r.sp, phdrs) && (forall p :: p in phdrs && IsLoad(p) ==> Above(r.sp, p))
    ensures GoodSegments(r.sp, phdrs, |c.file|) && |r.replies| == |Loads(phdrs)|
    ensures forall j :: 0 <= j < |Loads(phdrs)| ==> Loads(phdrs)[j] in phdrs && IsLoad(Loads(phdrs)[j])
    ensures Mapping(c.abi, r.sp, c.file, phdrs, r.replies, ReservedSpace(r.sp, before), r.mapped)
    ensures TailsWritten(c.abi, r.sp, c.file, phdrs, r.replies, ReservedSpace(r.sp, before))
  {
    hide IsLayout, GoodTable, AfterReplies, AfterProtect, Applied, AllItems, Records, ReplyAccepted, Aligned, PageDown, PageUp,
      CallsMade, TailsWritten, PlaceOf;
    GoodTableFits(c.abi, r.sp, phdrs, |c.file|);
    PlacesOfLoads(r.sp, phdrs);
    forall j | 0 <= j < |Loads(phdrs)| ensures Loads(phdrs)[j] in phdrs && IsLoad(Loads(phdrs)[j]) {
      assert Loads(phdrs)[j] in Loads(phdrs);
    }
  }

  /** The call that maps the page of `a` was honoured. */
  predicate Grants(abi: Abi, pl: Place, reply: Reply, a: nat) {
    (FileMapped(pl, a) && Honoured(abi, reply.file)) || (BssMapped(pl, a) && Honoured(abi, reply.bss))
  }

  /** No relocation patches the byte at `a`. */
  ghost predicate Untargeted(c: Context, sp: Span, items: seq<Item>, a: nat) {
    forall i :: 0 <= i < |items| ==> !InTarget(c, Bias(c.abi, sp), items[i], a)
  }

  // --- What a run leaves, cell by cell ------------------------------------------------------------

  /** What the calls for `p` leave on its pages, over the reservation. */
  function CellLeft(c: Context, sp: Span, p: Phdr, reply: Reply, a: nat): Cell
    requires Above(sp, p)
  {
    AfterReply(c.abi, Mapped(0, NO_ACCESS), c.file, PlaceOf(sp, p), reply, a)
  }

  lemma PagesOfSegment(sp: Span, p: Phdr, k: nat)
    requires Above(sp, p) && Aligned(sp.base, sp.page) && Aligned(sp.lo, sp.page) && k < p.memsz
    ensures PlaceOf(sp, p).start <= Addr(sp, p.vaddr + k) < PlaceOf(sp, p).end
  {
    hide PageDown, OffsetArg, KernelOffset;
    RoundedAddress(sp, p.vaddr);
  }

  lemma MappedCell(c: Context, phdrs: seq<Phdr>, before: Space, r: Run, final: Space, j: nat, a: nat)
    requires SomeRun(c, phdrs, before, r, final) && j < |Loads(phdrs)| && j < |r.replies| && Above(r.sp, Loads(phdrs)[j])
    requires PlaceOf(r.sp, Loads(phdrs)[j]).start <= a < PlaceOf(r.sp, Loads(phdrs)[j]).end
    ensures forall p :: p in phdrs && IsLoad(p) ==> Above(r.sp, p)
    ensures |r.replies| == |Places(r.sp, phdrs)| && InRange(a, r.sp.base, r.sp.size)
    ensures SpaceAfter(c.abi, ReservedSpace(r.sp, before), c.file, Places(r.sp, phdrs)[..j], r.replies[..j])(a) == Mapped(0, NO_ACCESS)
    ensures r.mapped(a) == CellLeft(c, r.sp, Loads(phdrs)[j], r.replies[j], a)
  {
    hide PlaceOf, AfterReplies, TailsWritten, AfterReply, Succeeded, Loadable, IsErrno, AllFit, GoodSegments, CallsMade;
    SomeRunFits(c, phdrs, before, r, final);
    OwnPages(c, r.sp, phdrs, j);
    assert Places(r.sp, phdrs)[j].start <= a < Places(r.sp, phdrs)[j].end;
    assert InRange(a, r.sp.base, r.sp.size);
    assert Reserved(r.sp, before(a), a) == Mapped(0, NO_ACCESS);
    var places := Places(r.sp, phdrs);
    OwnReplyOnly(c.abi, Mapped(0, NO_ACCESS), c.file, places, r.replies, j, a);
    Unanswered(c.abi, Mapped(0, NO_ACCESS), c.file, places[..j], r.replies[..j], places[j], a);
  }

  /** The pages of segment `j` lie in the span and are its own. */
  lemma OwnPages(c: Context, sp: Span, phdrs: seq<Phdr>, j: nat)
    requires AllFit(c.abi, sp, phdrs) && Loadable(c, phdrs, sp) && j < |Loads(phdrs)|
    requires (forall p :: p in phdrs && IsLoad(p) ==> Above(sp, p)) && GoodSegments(sp, phdrs, |c.file|)
    ensures |Places(sp, phdrs)| == |Loads(phdrs)| && Loads(phdrs)[j] in phdrs && Above(sp, Loads(phdrs)[j])
    ensures Places(sp, phdrs)[j] == PlaceOf(sp, Loads(phdrs)[j])
    ensures sp.base <= Places(sp, phdrs)[j].start && Places(sp, phdrs)[j].end <= sp.base + sp.size
    ensures forall i :: 0 <= i < |Loads(phdrs)| ==>
              var pl := Places(sp, phdrs)[i]; pl.start <= pl.fileEnd <= pl.filePageEnd <= pl.end
    ensures forall i :: 0 <= i < |Loads(phdrs)| && i != j ==> PageDisjoint(Places(sp, phdrs)[i], Places(sp, phdrs)[j])
  {
    hide PlaceOf, IsLayout, GoodTable, Aligned, Fits;
    PlacesOfLoads(sp, phdrs);
    SegmentAlone(sp, phdrs, |c.file|, j);
    assert Loads(phdrs)[j] in Loads(phdrs);
    PagesInSpan(sp, phdrs, Loads(phdrs)[j]);
    AllOrdered(c.abi, sp, phdrs);
  }

  /**
   Every byte of segment `j`'s pages, in full: its protection is the segment's own
   while the table has room, and away from the relocations it is what the calls left.
   */
  lemma RunCell(c: Context, phdrs: seq<Phdr>, before: Space, r: Run, final: Space, items: seq<Item>, j: nat, a: nat)
    requires SomeRun(c, phdrs, before, r, final) && AllItems(c) == Some(items)
    requires j < |Loads(phdrs)| && j < |r.replies| && Above(r.sp, Loads(phdrs)[j])
    requires PlaceOf(r.sp, Loads(phdrs)[j]).start <= a < PlaceOf(r.sp, Loads(phdrs)[j]).end
    ensures var left := CellLeft(c, r.sp, Loads(phdrs)[j], r.replies[j], a);
            left.Mapped? && final(a).Mapped? && final(a).prot == (if j < MAX_SEGMENTS then ElfProt(Loads(phdrs)[j]) else left.prot) &&
            (Untargeted(c, r.sp, items, a) ==> final(a).byte == left.byte)
  {
    hide PageDown, PageUp, AfterReplies, IsLayout, PlaceOf, TailsWritten, GoodTable, Aligned, Honoured,
      ReplyAccepted, Apply, AllItems, Records, AfterProtect, ElfProt, IsErrno, Bias, InTarget, TargetsWritable, Mapping;
    SomeRunFits(c, phdrs, before, r, final);
    MappedCell(c, phdrs, before, r, final, j, a);
    ApplyKeepsMappings(c, Bias(c.abi, r.sp), r.mapped, items);
    if Untargeted(c, r.sp, items, a) {
      OutsideTargets(c, Bias(c.abi, r.sp), r.mapped, items, a);
    }
    RecordDecides(r.sp, phdrs, |c.file|, j, r.relocated(a), a);
  }

  /** What a refused file mapping leaves of byte `k`. */
  function ByteLeft(c: Context, sp: Span, p: Phdr, reply: Reply, k: nat): Byte
    requires Above(sp, p)
  {
    if Honoured(c.abi, reply.file) then FileByte(c.file, ArrivingOffset(sp, p, k)) else 0
  }

  /** The bytes and the protection the calls leave at byte `k` of a segment. */
  lemma CellContents(c: Context, sp: Span, p: Phdr, reply: Reply, k: nat)
    requires Above(sp, p) && Aligned(sp.base, sp.page) && Aligned(sp.lo, sp.page)
    requires WellFormed(c.abi, p, sp.page, |c.file|) && k < p.memsz
    ensures var pl, a := PlaceOf(sp, p), Addr(sp, p.vaddr + k);
            var left := CellLeft(c, sp, p, reply, a);
            left.Mapped? && left.prot == ProtLeft(c.abi, sp, p, reply, k) &&
            (k < p.filesz ==> left.byte == ByteLeft(c, sp, p, reply, k)) &&
            (k >= p.filesz && (Writable(p) || p.filesz == 0 || a >= pl.filePageEnd) ==> left.byte == 0)
  {
    hide PageDown, PageUp, OffsetArg, KernelOffset, Honoured;
    RoundedAddress(sp, p.vaddr);
  }

  // --- Exactly when the image is the linked one ------------------------------------------------

  /** The byte of the file that belongs at byte `k` of the segment. */
  function MeantByte(file: seq<Byte>, p: Phdr, k: nat): Byte {
    FileByte(file, p.offset + k)
  }

  /** Byte `k` is the one the file was linked with, or zero behind the file contents. */
  ghost predicate ByteAsMeant(sp: Span, file: seq<Byte>, p: Phdr, k: nat, cell: Cell)
    requires Above(sp, p)
  {
    cell.Mapped? && (k < p.filesz ==> cell.byte == MeantByte(file, p, k)) &&
    (k >= p.filesz && (Writable(p) || p.filesz == 0 || Addr(sp, p.vaddr + k) >= PlaceOf(sp, p).filePageEnd) ==> cell.byte == 0)
  }

  ghost predicate SegmentAsLinked(c: Context, sp: Span, items: seq<Item>, p: Phdr, final: Space) {
    Above(sp, p) &&
    forall k: nat :: k < p.memsz ==> LiesAsLinked(c, sp, items, p, k, final)
  }

  ghost predicate LiesAsLinked(c: Context, sp: Span, items: seq<Item>, p: Phdr, k: nat, final: Space)
    requires Above(sp, p)
  {
    var cell := final(Addr(sp, p.vaddr + k));
    (Untargeted(c, sp, items, Addr(sp, p.vaddr + k)) ==> ByteAsMeant(sp, c.file, p, k, cell)) &&
    cell.Mapped? && cell.prot == ElfProt(p)
  }

  /** Every segment has room in the address space and lies there as it was linked, outside the relocation targets. */
  ghost predicate AsLinked(c: Context, phdrs: seq<Phdr>, sp: Span, items: seq<Item>, final: Space) {
    AllFit(c.abi, sp, phdrs) && forall j :: 0 <= j < |Loads(phdrs)| ==> SegmentAsLinked(c, sp, items, Loads(phdrs)[j], final)
  }

  /** The file pages that arrived, or the zeros that stand for them, read as the file part should. */
  ghost predicate FileAsMeant(c: Context, sp: Span, items: seq<Item>, p: Phdr, reply: Reply) {
    Above(sp, p) &&
    forall k: nat :: k < p.filesz && Untargeted(c, sp, items, Addr(sp, p.vaddr + k)) ==>
      ByteLeft(c, sp, p, reply, k) == MeantByte(c.file, p, k)
  }

  /** The protection its mapping has anyway is the one the segment asks for. */
  ghost predicate ProtectedAnyway(c: Context, sp: Span, p: Phdr, reply: Reply) {
    Above(sp, p) &&
    forall k: nat :: k < p.memsz ==> ElfProt(p) == ProtLeft(c.abi, sp, p, reply, k)
  }

  /** The protection the calls leave at byte `k`. */
  function ProtLeft(abi: Abi, sp: Span, p: Phdr, reply: Reply, k: nat): Prot
    requires Above(sp, p)
  {
    if Grants(abi, PlaceOf(sp, p), reply, Addr(sp, p.vaddr + k)) then READ_WRITE else NO_ACCESS
  }

  lemma SegmentExactlyWhen(c: Context, phdrs: seq<Phdr>, before: Space, r: Run, final: Space, items: seq<Item>, j: nat)
    requires SomeRun(c, phdrs, before, r, final) && AllItems(c) == Some(items) && j < |Loads(phdrs)| && j < |r.replies|
    ensures SegmentAsLinked(c, r.sp, items, Loads(phdrs)[j], final) <==>
            FileAsMeant(c, r.sp, items, Loads(phdrs)[j], r.replies[j]) &&
            (j < MAX_SEGMENTS || ProtectedAnyway(c, r.sp, Loads(phdrs)[j], r.replies[j]))
  {
    hide PageDown, PageUp, IsLayout, PlaceOf, GoodTable, AllItems, Untargeted, ElfProt, Writable, Succeeded, ProtLeft, ByteLeft,
      CellLeft, IsErrno, Aligned;
    SomeRunFits(c, phdrs, before, r, final);
    var p, reply, sp := Loads(phdrs)[j], r.replies[j], r.sp;
    forall k: nat | k < p.memsz
      ensures var pl, a := PlaceOf(sp, p), Addr(sp, p.vaddr + k);
              final(a).Mapped? &&
              final(a).prot == (if j < MAX_SEGMENTS then ElfProt(p) else ProtLeft(c.abi, sp, p, reply, k)) &&
              (Untargeted(c, sp, items, a) ==>
                 (k < p.filesz ==> final(a).byte == ByteLeft(c, sp, p, reply, k)) &&
                 (k >= p.filesz && (Writable(p) || p.filesz == 0 || a >= pl.filePageEnd) ==> final(a).byte == 0))
      ensures LiesAsLinked(c, sp, items, p, k, final) <==>
              (k < p.filesz && Untargeted(c, sp, items, Addr(sp, p.vaddr + k)) ==>
                 ByteLeft(c, sp, p, reply, k) == MeantByte(c.file, p, k)) &&
              (j < MAX_SEGMENTS || ElfProt(p) == ProtLeft(c.abi, sp, p, reply, k))
    {
      PagesOfSegment(sp, p, k);
      RunCell(c, phdrs, before, r, final, items, j, Addr(sp, p.vaddr + k));
      CellContents(c, sp, p, reply, k);
    }
    assert p.filesz <= p.memsz;
  }

  /** The calls for segment `j` went well enough. */
  ghost predicate Harmless(c: Context, phdrs: seq<Phdr>, r: Run, items: seq<Item>, j: nat)
    requires j < |Loads(phdrs)|
  {
    j < |r.replies| && FileAsMeant(c, r.sp, items, Loads(phdrs)[j], r.replies[j]) &&
    (j < MAX_SEGMENTS || ProtectedAnyway(c, r.sp, Loads(phdrs)[j], r.replies[j]))
  }

  /**
   A load that returned success leaves every segment as it was linked, outside the
   relocation targets, exactly when the reservation is no errno, every byte of a file
   part whose mapping was refused is meant to be zero (and every one mapped from
   another offset is the byte meant), and every segment after the 64th wants the
   protection its pages have anyway. Up to the 64th a refused mapping of zero pages
   does no harm.
   */
  lemma ImageExactlyWhen(c: Context, phdrs: seq<Phdr>, before: Space, r: Run, final: Space, items: seq<Item>)
    requires Succeeded(c, phdrs, before, r, final) && Loadable(c, phdrs, r.sp) && AllItems(c) == Some(items)
    ensures AsLinked(c, phdrs, r.sp, items, final) <==>
            !IsErrno(c.abi, r.sp.base) && forall j :: 0 <= j < |Loads(phdrs)| ==> Harmless(c, phdrs, r, items, j)
  {
    hide Succeeded, Loadable, AllItems, IsErrno, SegmentAsLinked, FileAsMeant, ProtectedAnyway, AllFit;
    if IsErrno(c.abi, r.sp.base) {
      ErrnoIsNoBase(c, phdrs, r.sp);
    } else {
      SomeRunFits(c, phdrs, before, r, final);
      forall j | 0 <= j < |Loads(phdrs)|
        ensures SegmentAsLinked(c, r.sp, items, Loads(phdrs)[j], final) <==> Harmless(c, phdrs, r, items, j)
      {
        SegmentExactlyWhen(c, phdrs, before, r, final, items, j);
      }
    }
  }

  lemma ArrivingIsMeant(sp: Span, p: Phdr, k: nat)
    requires Above(sp, p) && OffsetArrives(sp, p)
    ensures ArrivingOffset(sp, p, k) == p.offset + k
  {
    hide PageDown;
    BoundariesAreAligned(p.offset, sp.page);
    OffsetArrivesExactlyWhen(sp.abi, PageDown(p.offset, sp.page), sp.page);
  }

  /**
   With at most 64 segments, whose offsets all arrive: the image is the linked one
   exactly when every file part whose mapping was refused holds nothing but zeros in
   the file.
   */
  lemma RefusalsShowExactlyWhen(c: Context, phdrs: seq<Phdr>, before: Space, r: Run, final: Space, items: seq<Item>)
    requires SomeRun(c, phdrs, before, r, final) && AllItems(c) == Some(items) && |Loads(phdrs)| <= MAX_SEGMENTS
    requires forall p :: p in phdrs && IsLoad(p) ==> OffsetArrives(r.sp, p)
    ensures AsLinked(c, phdrs, r.sp, items, final) <==>
            forall j :: 0 <= j < |Loads(phdrs)| && j < |r.replies| && !Honoured(c.abi, r.replies[j].file) ==>
              ZeroFilePart(c.file, Loads(phdrs)[j])
  {
    hide Succeeded, Loadable, AllItems, IsErrno, AllFit, Honoured, AsLinked, OffsetArrives, Inert, InertBss, Harmless, ZeroFilePart;
    SomeRunFits(c, phdrs, before, r, final);
    ImageExactlyWhen(c, phdrs, before, r, final, items);
    RefusedOnlyWhenInert(c, phdrs, before, r, final, items);
    forall j | 0 <= j < |Loads(phdrs)|
      ensures Harmless(c, phdrs, r, items, j) <==>
              (!Honoured(c.abi, r.replies[j].file) ==> ZeroFilePart(c.file, Loads(phdrs)[j]))
    {
      ShowsExactlyWhen(c, phdrs, r, items, j);
    }
  }

  lemma ShowsExactlyWhen(c: Context, phdrs: seq<Phdr>, r: Run, items: seq<Item>, j: nat)
    requires j < |Loads(phdrs)| && j < |r.replies| && j < MAX_SEGMENTS && Above(r.sp, Loads(phdrs)[j])
    requires OffsetArrives(r.sp, Loads(phdrs)[j])
    requires !Honoured(c.abi, r.replies[j].file) ==> Inert(c, r.sp, items, Loads(phdrs)[j])
    ensures Harmless(c, phdrs, r, items, j) <==> (!Honoured(c.abi, r.replies[j].file) ==> ZeroFilePart(c.file, Loads(phdrs)[j]))
  {
    hide Honoured, OffsetArrives, ArrivingOffset, Untargeted, PlaceOf, FileMapped;
    var p, reply := Loads(phdrs)[j], r.replies[j];
    forall k: nat | k < p.filesz
      ensures ByteLeft(c, r.sp, p, reply, k) == if Honoured(c.abi, reply.file) then MeantByte(c.file, p, k) else 0
      ensures !Honoured(c.abi, reply.file) ==> Untargeted(c, r.sp, items, Addr(r.sp, p.vaddr + k))
    {
      ArrivingIsMeant(r.sp, p, k);
      FilePartIsMapped(c.abi, r.sp, p, k);
    }
  }

  lemma FilePartIsMapped(abi: Abi, sp: Span, p: Phdr, k: nat)
    requires Above(sp, p) && k < p.filesz
    ensures FileMapped(PlaceOf(sp, p), Addr(sp, p.vaddr + k))
  {
    hide OffsetArg, KernelOffset;
  }

  ghost predicate ZeroFilePart(file: seq<Byte>, p: Phdr) {
    forall k: nat :: k < p.filesz ==> MeantByte(file, p, k) == 0
  }

  /** In particular a refused segment reads as zero over its whole file part, under its own protection up to the 64th. */
  lemma RefusedSegmentIsZero(c: Context, phdrs: seq<Phdr>, before: Space, r: Run, final: Space, items: seq<Item>, j: nat, k: nat)
    requires SomeRun(c, phdrs, before, r, final) && AllItems(c) == Some(items)
    requires j < |Loads(phdrs)| && j < |r.replies| && !Honoured(c.abi, r.replies[j].file) && k < Loads(phdrs)[j].filesz
    ensures Above(r.sp, Loads(phdrs)[j])
    ensures final(Addr(r.sp, Loads(phdrs)[j].vaddr + k)) == Mapped(0, if j < MAX_SEGMENTS then ElfProt(Loads(phdrs)[j]) else NO_ACCESS)
  {
    hide PageDown, PageUp, IsLayout, GoodTable, AllItems, Untargeted, ElfProt, Writable, Succeeded, CellLeft, IsErrno, Aligned,
      OffsetArg, KernelOffset, Honoured, InertBss;
    SomeRunFits(c, phdrs, before, r, final);
    RefusedOnlyWhenInert(c, phdrs, before, r, final, items);
    var p := Loads(phdrs)[j];
    FilePartIsMapped(c.abi, r.sp, p, k);
    PagesOfSegment(r.sp, p, k);
    RunCell(c, phdrs, before, r, final, items, j, Addr(r.sp, p.vaddr + k));
    CellContents(c, r.sp, p, r.replies[j], k);
  }

  // --- Which refusals pass ------------------------------------------------------------------------

  /** Nothing has to be written on the file pages of `p`: no tail to zero and no relocation. */
  ghost predicate Inert(c: Context, sp: Span, items: seq<Item>, p: Phdr) {
    Above(sp, p) && (Writable(p) ==> PlaceOf(sp, p).fileEnd == PlaceOf(sp, p).filePageEnd) &&
    forall a: nat :: FileMapped(PlaceOf(sp, p), a) ==> Untargeted(c, sp, items, a)
  }

  /** Nor on its zero pages. */
  ghost predicate InertBss(c: Context, sp: Span, items: seq<Item>, p: Phdr) {
    Above(sp, p) && forall a: nat :: BssMapped(PlaceOf(sp, p), a) ==> Untargeted(c, sp, items, a)
  }

  /** The calls leave an address of a segment's pages reserved, or mapped for writing. */
  lemma CellProt(c: Context, sp: Span, p: Phdr, reply: Reply, a: nat)
    requires Above(sp, p)
    ensures var left := CellLeft(c, sp, p, reply, a);
            left.Mapped? && left.prot == if Grants(c.abi, PlaceOf(sp, p), reply, a) then READ_WRITE else NO_ACCESS
  {
    hide PlaceOf, Honoured;
  }

  /** No relocation of a load that returned success patches a page whose mapping was refused: the write would have failed. */
  lemma RefusedIsUntargeted(c: Context, phdrs: seq<Phdr>, before: Space, r: Run, final: Space, items: seq<Item>, j: nat, a: nat)
    requires SomeRun(c, phdrs, before, r, final) && AllItems(c) == Some(items)
    requires j < |Loads(phdrs)| && j < |r.replies| && Above(r.sp, Loads(phdrs)[j])
    requires PlaceOf(r.sp, Loads(phdrs)[j]).start <= a < PlaceOf(r.sp, Loads(phdrs)[j]).end
    requires !Grants(c.abi, PlaceOf(r.sp, Loads(phdrs)[j]), r.replies[j], a)
    ensures Untargeted(c, r.sp, items, a)
  {
    hide PlaceOf, CellLeft, Apply, AllItems, Loadable, Mapping, TailsWritten, Bias, Target, Grants, Reservation;
    MappedCell(c, phdrs, before, r, final, j, a);
    CellProt(c, r.sp, Loads(phdrs)[j], r.replies[j], a);
    forall i | 0 <= i < |items| ensures !InTarget(c, Bias(c.abi, r.sp), items[i], a) {
      assert WordWritable(r.mapped, Target(c, Bias(c.abi, r.sp), items[i]), WordBytes(c.abi));
    }
  }

  /** Each refused mapping of a load that returned success is one the loader had nothing to write to. */
  lemma RefusedOnlyWhenInert(c: Context, phdrs: seq<Phdr>, before: Space, r: Run, final: Space, items: seq<Item>)
    requires SomeRun(c, phdrs, before, r, final) && AllItems(c) == Some(items)
    ensures |r.replies| == |Loads(phdrs)|
    ensures forall j :: 0 <= j < |r.replies| ==>
              (!Honoured(c.abi, r.replies[j].file) ==> Inert(c, r.sp, items, Loads(phdrs)[j])) &&
              (!Honoured(c.abi, r.replies[j].bss) ==> InertBss(c, r.sp, items, Loads(phdrs)[j]))
  {
    hide PlaceOf, Untargeted, AllItems, Honoured, Succeeded, Loadable, IsErrno;
    SomeRunFits(c, phdrs, before, r, final);
    forall j | 0 <= j < |r.replies|
      ensures !Honoured(c.abi, r.replies[j].file) ==> Inert(c, r.sp, items, Loads(phdrs)[j])
      ensures !Honoured(c.abi, r.replies[j].bss) ==> InertBss(c, r.sp, items, Loads(phdrs)[j])
    {
      var pl := PlaceOf(r.sp, Loads(phdrs)[j]);
      OwnPages(c, r.sp, phdrs, j);
      if !Honoured(c.abi, r.replies[j].file) {
        RefusedTail(c, phdrs, before, r, final, j);
      }
      forall a: nat | Touches(pl, a) && !Grants(c.abi, pl, r.replies[j], a) ensures Untargeted(c, r.sp, items, a) {
        RefusedIsUntargeted(c, phdrs, before, r, final, items, j, a);
      }
    }
  }

  lemma RefusedTail(c: Context, phdrs: seq<Phdr>, before: Space, r: Run, final: Space, j: nat)
    requires SomeRun(c, phdrs, before, r, final)
    requires j < |Loads(phdrs)| && j < |r.replies| && !Honoured(c.abi, r.replies[j].file)
    ensures Above(r.sp, Loads(phdrs)[j])
    ensures Writable(Loads(phdrs)[j]) ==> PlaceOf(r.sp, Loads(phdrs)[j]).fileEnd == PlaceOf(r.sp, Loads(phdrs)[j]).filePageEnd
  {
    hide PageDown, PageUp, AfterReplies, IsLayout, OffsetArg, KernelOffset, GoodTable, Aligned,
      ReplyAccepted, Applied, AllItems, Records, AfterProtect, IsErrno, AfterReply;
    SomeRunFits(c, phdrs, before, r, final);
    OwnPages(c, r.sp, phdrs, j);
    var pl, a := PlaceOf(r.sp, Loads(phdrs)[j]), PlaceOf(r.sp, Loads(phdrs)[j]).fileEnd;
    if Writable(Loads(phdrs)[j]) && a < pl.filePageEnd {
      MappedCell(c, phdrs, before, r, final, j, a);
      assert false;
    }
  }

  /** The loader can compute the word of an entry. */
  predicate HasValue(c: Context, it: Item) {
    match ActionOf(c.abi, it)
    case Unsupported => false
    case Relative => true
    case Symbolic(_) => !Resolve(c, it.r.sym).Unresolved?
  }

  lemma {:induction false} AppliesExactlyWhen(c: Context, bias: nat, s: Space, items: seq<Item>)
    ensures Apply(c, bias, s, items).Some? <==> forall i :: 0 <= i < |items| ==> HasValue(c, items[i])
  {
    hide Resolve, ActionOf, WordIn, Wrap, SymbolWord, Patch, LeBytes;
    if items != [] {
      var n := |items| - 1;
      AppliesExactlyWhen(c, bias, s, items[..n]);
      assert forall i :: 0 <= i < n ==> items[..n][i] == items[i];
    }
  }

  /** A segment's mapping of the page of `a` was honoured. */
  ghost predicate PageGranted(c: Context, sp: Span, phdrs: seq<Phdr>, replies: seq<Reply>, a: nat) {
    exists j :: 0 <= j < |Loads(phdrs)| && j < |replies| && Above(sp, Loads(phdrs)[j]) &&
                Grants(c.abi, PlaceOf(sp, Loads(phdrs)[j]), replies[j], a)
  }

  /** Every relocated byte of the span is on such a page, and every other one can be written already. */
  ghost predicate TargetsLand(c: Context, phdrs: seq<Phdr>, before: Space, sp: Span, items: seq<Item>, replies: seq<Reply>) {
    forall a: nat :: !Untargeted(c, sp, items, a) ==>
      if InRange(a, sp.base, sp.size) then PageGranted(c, sp, phdrs, replies, a) else before(a).Mapped? && before(a).prot.write
  }

  lemma {:induction false} GrantedProt(abi: Abi, cell: Cell, file: seq<Byte>, places: seq<Place>, replies: seq<Reply>, a: nat)
    requires |replies| == |places|
    ensures var t := AfterReplies(abi, cell, file, places, replies, a);
            if exists i :: 0 <= i < |places| && Grants(abi, places[i], replies[i], a) then t.Mapped? && t.prot == READ_WRITE
            else t.Mapped? == cell.Mapped? && (cell.Mapped? ==> t.prot == cell.prot)
  {
    hide Honoured;
    if places != [] {
      var n := |places| - 1;
      GrantedProt(abi, cell, file, places[..n], replies[..n], a);
      if i :| 0 <= i < n && Grants(abi, places[..n][i], replies[..n][i], a) {
        assert Grants(abi, places[i], replies[i], a);
      }
      if i :| 0 <= i < |places| && Grants(abi, places[i], replies[i], a) {
        assert i == n || Grants(abi, places[..n][i], replies[..n][i], a);
      }
    }
  }

  /** Which addresses can be written once the segments are mapped. */
  lemma WritableExactlyWhen(c: Context, phdrs: seq<Phdr>, before: Space, sp: Span, replies: seq<Reply>, a: nat)
    requires AllFit(c.abi, sp, phdrs) && Loadable(c, phdrs, sp) && forall p :: p in phdrs && IsLoad(p) ==> Above(sp, p)
    requires GoodSegments(sp, phdrs, |c.file|) && |replies| == |Places(sp, phdrs)|
    ensures var t := AfterReplies(c.abi, ReservedSpace(sp, before)(a), c.file, Places(sp, phdrs), replies, a);
            t.Mapped? && t.prot.write <==>
            if InRange(a, sp.base, sp.size) then PageGranted(c, sp, phdrs, replies, a) else before(a).Mapped? && before(a).prot.write
  {
    hide PlaceOf, AfterReplies, Loadable, AllFit, GoodSegments, Honoured;
    PlacesOfLoads(sp, phdrs);
    var places := Places(sp, phdrs);
    GrantedProt(c.abi, ReservedSpace(sp, before)(a), c.file, places, replies, a);
    assert ReservedSpace(sp, before)(a) == Reserved(sp, before(a), a);
    forall j | 0 <= j < |places| && Grants(c.abi, places[j], replies[j], a)
      ensures InRange(a, sp.base, sp.size) && PageGranted(c, sp, phdrs, replies, a)
    {
      OwnPages(c, sp, phdrs, j);
      assert Grants(c.abi, PlaceOf(sp, Loads(phdrs)[j]), replies[j], a);
    }
    if PageGranted(c, sp, phdrs, replies, a) {
      var j :| 0 <= j < |Loads(phdrs)| && j < |replies| && Above(sp, Loads(phdrs)[j]) &&
               Grants(c.abi, PlaceOf(sp, Loads(phdrs)[j]), replies[j], a);
      assert Grants(c.abi, places[j], replies[j], a);
    }
  }

  /** Answers the loader takes for addresses, to the calls it makes. */
  ghost predicate Answers(c: Context, sp: Span, phdrs: seq<Phdr>, replies: seq<Reply>) {
    |replies| == |Loads(phdrs)| &&
    forall j :: 0 <= j < |replies| ==>
      Above(sp, Loads(phdrs)[j]) && ReplyAccepted(c.abi, replies[j]) && CallsMade(PlaceOf(sp, Loads(phdrs)[j]), replies[j])
  }

  /** Every entry has a value and lands on a granted page, and no refused file mapping has a tail to zero. */
  ghost predicate Passes(c: Context, phdrs: seq<Phdr>, before: Space, sp: Span, items: seq<Item>, replies: seq<Reply>) {
    (forall i :: 0 <= i < |items| ==> HasValue(c, items[i])) && TargetsLand(c, phdrs, before, sp, items, replies) &&
    forall j :: 0 <= j < |Loads(phdrs)| && j < |replies| && Above(sp, Loads(phdrs)[j]) && !Honoured(c.abi, replies[j].file) ==>
      (Writable(Loads(phdrs)[j]) ==> PlaceOf(sp, Loads(phdrs)[j]).fileEnd == PlaceOf(sp, Loads(phdrs)[j]).filePageEnd)
  }

  lemma RunPasses(c: Context, phdrs: seq<Phdr>, before: Space, r: Run, final: Space, items: seq<Item>)
    requires SomeRun(c, phdrs, before, r, final) && AllItems(c) == Some(items)
    ensures Passes(c, phdrs, before, r.sp, items, r.replies)
  {
    hide PlaceOf, AllItems, Honoured, Loadable, IsErrno, AfterReplies, Bias, Target, HasValue, Apply, GoodSegments, AllFit, Writable;
    SomeRunFits(c, phdrs, before, r, final);
    AppliesExactlyWhen(c, Bias(c.abi, r.sp), r.mapped, items);
    forall j | 0 <= j < |r.replies| && !Honoured(c.abi, r.replies[j].file)
      ensures Writable(Loads(phdrs)[j]) ==> PlaceOf(r.sp, Loads(phdrs)[j]).fileEnd == PlaceOf(r.sp, Loads(phdrs)[j]).filePageEnd
    {
      RefusedTail(c, phdrs, before, r, final, j);
    }
    forall a: nat | !Untargeted(c, r.sp, items, a)
      ensures if InRange(a, r.sp.base, r.sp.size) then PageGranted(c, r.sp, phdrs, r.replies, a)
              else before(a).Mapped? && before(a).prot.write
    {
      var i :| 0 <= i < |items| && InTarget(c, Bias(c.abi, r.sp), items[i], a);
      assert WordWritable(r.mapped, Target(c, Bias(c.abi, r.sp), items[i]), WordBytes(c.abi));
      WritableExactlyWhen(c, phdrs, before, r.sp, r.replies, a);
    }
  }

  lemma BuildRun(c: Context, phdrs: seq<Phdr>, before: Space, sp: Span, items: seq<Item>, replies: seq<Reply>)
    returns (r: Run, final: Space)
    requires Loadable(c, phdrs, sp) && Reservation(c.abi, sp) && !IsErrno(c.abi, sp.base) && AllItems(c) == Some(items)
    requires Answers(c, sp, phdrs, replies) && Passes(c, phdrs, before, sp, items, replies)
    ensures SomeRun(c, phdrs, before, r, final) && r.sp == sp && r.replies == replies
  {
    hide PageDown, PageUp, AfterReplies, IsLayout, OffsetArg, KernelOffset, GoodTable, Aligned, AllItems, Records, AfterProtect,
      Writable, Apply, HasValue, Bias, Target, Honoured, ReplyAccepted, IsErrno, GoodSegments;
    GoodTableFits(c.abi, sp, phdrs, |c.file|);
    PlacesOfLoads(sp, phdrs);
    var mapped := SpaceAfter(c.abi, ReservedSpace(sp, before), c.file, Places(sp, phdrs), replies);
    AppliesExactlyWhen(c, Bias(c.abi, sp), mapped, items);
    assert TargetsWritable(c, Bias(c.abi, sp), mapped, items) by {
      LandedIsWritable(c, phdrs, before, sp, items, replies);
    }
    var relocated := Apply(c, Bias(c.abi, sp), mapped, items).value;
    r := Run(sp, replies, mapped, relocated);
    final := (a: nat) => AfterProtect(relocated(a), Records(sp, phdrs), a);
  }

  lemma LandedIsWritable(c: Context, phdrs: seq<Phdr>, before: Space, sp: Span, items: seq<Item>, replies: seq<Reply>)
    requires AllFit(c.abi, sp, phdrs) && Loadable(c, phdrs, sp) && forall p :: p in phdrs && IsLoad(p) ==> Above(sp, p)
    requires GoodSegments(sp, phdrs, |c.file|) && |replies| == |Places(sp, phdrs)|
    requires TargetsLand(c, phdrs, before, sp, items, replies)
    ensures TargetsWritable(c, Bias(c.abi, sp), SpaceAfter(c.abi, ReservedSpace(sp, before), c.file, Places(sp, phdrs), replies), items)
  {
    hide AllFit, Loadable, GoodSegments, AfterReplies, PageGranted, Bias, Target;
    var mapped := SpaceAfter(c.abi, ReservedSpace(sp, before), c.file, Places(sp, phdrs), replies);
    forall i, a: nat | 0 <= i < |items| && InTarget(c, Bias(c.abi, sp), items[i], a)
      ensures mapped(a).Mapped? && mapped(a).prot.write
    {
      assert !Untargeted(c, sp, items, a);
      WritableExactlyWhen(c, phdrs, before, sp, replies, a);
    }
  }

  /**
   Exactly which answers of the kernel a load survives: those whose refused file
   mappings have no tail to zero and on whose granted pages every relocation lands,
   provided every relocation has a value.
   */
  lemma AnswersPassExactlyWhen(c: Context, phdrs: seq<Phdr>, before: Space, sp: Span, items: seq<Item>, replies: seq<Reply>)
    requires Loadable(c, phdrs, sp) && Reservation(c.abi, sp) && !IsErrno(c.abi, sp.base) && AllItems(c) == Some(items)
    requires Answers(c, sp, phdrs, replies)
    ensures (exists r: Run, final: Space :: SomeRun(c, phdrs, before, r, final) && r.sp == sp && r.replies == replies) <==>
            Passes(c, phdrs, before, sp, items, replies)
  {
    hide SomeRun, Passes, Answers, Loadable, Reservation, IsErrno, AllItems;
    if Passes(c, phdrs, before, sp, items, replies) {
      var r, final := BuildRun(c, phdrs, before, sp, items, replies);
    }
    forall r: Run, final: Space | SomeRun(c, phdrs, before, r, final) && r.sp == sp && r.replies == replies
      ensures Passes(c, phdrs, before, sp, items, replies)
    {
      RunPasses(c, phdrs, before, r, final, items);
    }
  }

  // --- Two families of runs -------------------------------------------------------------------------

  /** The places of a library over an honest reservation lie between its base and the words that are errnos. */
  lemma PlacesBelowErrnos(c: Context, phdrs: seq<Phdr>, sp: Span)
    requires Loadable(c, phdrs, sp) && Reservation(c.abi, sp) && !IsErrno(c.abi, sp.base)
    ensures AllFit(c.abi, sp, phdrs) && forall p :: p in phdrs && IsLoad(p) ==> Above(sp, p)
    ensures forall j :: 0 <= j < |Loads(phdrs)| ==>
              Loads(phdrs)[j] in phdrs && Above(sp, Loads(phdrs)[j]) &&
              0 < PlaceOf(sp, Loads(phdrs)[j]).start && PlaceOf(sp, Loads(phdrs)[j]).end <= Modulus(c.abi) - 4096
  {
    hide PageDown, PageUp, IsLayout, OffsetArg, KernelOffset, GoodTable, Aligned, Writable;
    GoodTableFits(c.abi, sp, phdrs, |c.file|);
    forall j | 0 <= j < |Loads(phdrs)|
      ensures Loads(phdrs)[j] in phdrs && Above(sp, Loads(phdrs)[j]) && 0 < PlaceOf(sp, Loads(phdrs)[j]).start
      ensures PlaceOf(sp, Loads(phdrs)[j]).end <= Modulus(c.abi) - 4096
    {
      assert Loads(phdrs)[j] in Loads(phdrs);
      PagesInSpan(sp, phdrs, Loads(phdrs)[j]);
    }
  }

  const EACCES: nat := 13

  /** The kernel grants the mappings of a header, or refuses that of the file. */
  function Reaction(abi: Abi, pl: Place, refuse: bool): Reply {
    Reply(if !pl.hasFile then None else if refuse then Some(Modulus(abi) - EACCES) else Some(pl.start),
          if pl.end > pl.filePageEnd then Some(pl.filePageEnd) else None)
  }

  function Reactions(c: Context, sp: Span, phdrs: seq<Phdr>, refused: set<nat>): (r: seq<Reply>)
    requires forall j :: 0 <= j < |Loads(phdrs)| ==> Above(sp, Loads(phdrs)[j])
    ensures |r| == |Loads(phdrs)|
    ensures forall j :: 0 <= j < |r| ==> r[j] == Reaction(c.abi, PlaceOf(sp, Loads(phdrs)[j]), j in refused)
  {
    seq(|Loads(phdrs)|, j requires 0 <= j < |Loads(phdrs)| => Reaction(c.abi, PlaceOf(sp, Loads(phdrs)[j]), j in refused))
  }

  /** A library the loader can relocate when everything is granted. */
  ghost predicate Relocatable(c: Context, phdrs: seq<Phdr>, before: Space, sp: Span, items: seq<Item>) {
    (forall i :: 0 <= i < |items| ==> HasValue(c, items[i])) &&
    forall a: nat :: !Untargeted(c, sp, items, a) ==>
      if InRange(a, sp.base, sp.size) then SegmentPage(sp, phdrs, a) else before(a).Mapped? && before(a).prot.write
  }

  ghost predicate SegmentPage(sp: Span, phdrs: seq<Phdr>, a: nat) {
    exists j :: 0 <= j < |Loads(phdrs)| && Above(sp, Loads(phdrs)[j]) && Touches(PlaceOf(sp, Loads(phdrs)[j]), a)
  }

  lemma ReactionWords(abi: Abi, pl: Place, refuse: bool)
    requires 0 < pl.start <= pl.filePageEnd && pl.start <= pl.end <= Modulus(abi) - 4096
    requires pl.hasFile ==> pl.start < pl.filePageEnd
    requires pl.filePageEnd <= pl.end
    ensures ReplyAccepted(abi, Reaction(abi, pl, refuse)) && CallsMade(pl, Reaction(abi, pl, refuse))
    ensures Honoured(abi, Reaction(abi, pl, refuse).bss)
    ensures Honoured(abi, Reaction(abi, pl, refuse).file) <==> !refuse || !pl.hasFile
  {
  }

  /** These are answers the loader goes on with. */
  lemma ReactionsAnswer(c: Context, phdrs: seq<Phdr>, sp: Span, refused: set<nat>)
    requires Loadable(c, phdrs, sp) && Reservation(c.abi, sp) && !IsErrno(c.abi, sp.base)
    ensures forall j :: 0 <= j < |Loads(phdrs)| ==> Above(sp, Loads(phdrs)[j])
    ensures Answers(c, sp, phdrs, Reactions(c, sp, phdrs, refused))
    ensures forall j :: 0 <= j < |Loads(phdrs)| ==>
              (Honoured(c.abi, Reactions(c, sp, phdrs, refused)[j].file) <==> j !in refused || Loads(phdrs)[j].filesz == 0) &&
              Honoured(c.abi, Reactions(c, sp, phdrs, refused)[j].bss)
  {
    hide Loadable, IsErrno, Reservation, PageDown, PageUp, OffsetArg, KernelOffset, Honoured, ReplyAccepted, CallsMade, Reaction,
      AllFit;
    PlacesBelowErrnos(c, phdrs, sp);
    var replies := Reactions(c, sp, phdrs, refused);
    forall j | 0 <= j < |Loads(phdrs)|
      ensures ReplyAccepted(c.abi, replies[j]) && CallsMade(PlaceOf(sp, Loads(phdrs)[j]), replies[j])
      ensures Honoured(c.abi, replies[j].bss) && (Honoured(c.abi, replies[j].file) <==> j !in refused || Loads(phdrs)[j].filesz == 0)
    {
      assert Loads(phdrs)[j] in Loads(phdrs);
      FilePagesFit(c, phdrs, sp, Loads(phdrs)[j]);
      ReactionWords(c.abi, PlaceOf(sp, Loads(phdrs)[j]), j in refused);
    }
  }

  /** Refusing the file mappings of inert segments only leaves every relocation on a granted page. */
  lemma ReactionsPass(c: Context, phdrs: seq<Phdr>, before: Space, sp: Span, items: seq<Item>, refused: set<nat>, replies: seq<Reply>)
    requires Relocatable(c, phdrs, before, sp, items) && |replies| == |Loads(phdrs)|
    requires forall j :: j in refused ==> j < |Loads(phdrs)| && Inert(c, sp, items, Loads(phdrs)[j])
    requires forall j :: 0 <= j < |Loads(phdrs)| ==>
               (Honoured(c.abi, replies[j].file) <==> j !in refused || Loads(phdrs)[j].filesz == 0) && Honoured(c.abi, replies[j].bss)
    ensures Passes(c, phdrs, before, sp, items, replies)
  {
    hide PlaceOf, HasValue, Untargeted, Honoured, Writable;
    forall a: nat | !Untargeted(c, sp, items, a) && InRange(a, sp.base, sp.size)
      ensures PageGranted(c, sp, phdrs, replies, a)
    {
      assert SegmentPage(sp, phdrs, a);
      var j :| 0 <= j < |Loads(phdrs)| && Above(sp, Loads(phdrs)[j]) && Touches(PlaceOf(sp, Loads(phdrs)[j]), a);
      NoFileNoPage(sp, Loads(phdrs)[j], a);
      assert Grants(c.abi, PlaceOf(sp, Loads(phdrs)[j]), replies[j], a);
    }
  }

  lemma NoFileNoPage(sp: Span, p: Phdr, a: nat)
    requires Above(sp, p)
    ensures FileMapped(PlaceOf(sp, p), a) ==> p.filesz > 0
  {
    hide PageDown, PageUp, OffsetArg, KernelOffset;
  }

  lemma FilePagesFit(c: Context, phdrs: seq<Phdr>, sp: Span, p: Phdr)
    requires Loadable(c, phdrs, sp) && p in phdrs && IsLoad(p) && Above(sp, p)
    ensures PlaceOf(sp, p).filePageEnd <= PlaceOf(sp, p).end
  {
    hide IsLayout, Aligned, VaddrDisjoint;
    FilePagesInside(sp, p, |c.file|);
  }

  /** When the kernel grants everything such a library loads: what is proved of loads without an errno is about real runs. */
  lemma GrantedFilePasses(c: Context, phdrs: seq<Phdr>, before: Space, sp: Span, items: seq<Item>) returns (r: Run, final: Space)
    requires Loadable(c, phdrs, sp) && Reservation(c.abi, sp) && !IsErrno(c.abi, sp.base) && AllItems(c) == Some(items)
    requires Relocatable(c, phdrs, before, sp, items)
    ensures r.sp == sp && SomeRun(c, phdrs, before, r, final) && NoErrno(c.abi, r)
    ensures TargetsApart(c, sp, items) ==> GoodRun(c, phdrs, before, r, final, items)
  {
    hide Loadable, Reservation, IsErrno, AllItems, Relocatable, Answers, Passes, Succeeded, TargetsApart, Honoured;
    ReactionsAnswer(c, phdrs, sp, {});
    ReactionsPass(c, phdrs, before, sp, items, {}, Reactions(c, sp, phdrs, {}));
    r, final := BuildRun(c, phdrs, before, sp, items, Reactions(c, sp, phdrs, {}));
  }

  /**
   The failing family: whenever such a library loads, it also loads when the kernel
   refuses the file mappings of any of its inert segments with EACCES, text segments
   above all; and when one of them holds a byte other than zero, the image is not the
   linked one.
   */
  lemma RefusedFilePasses(c: Context, phdrs: seq<Phdr>, before: Space, sp: Span, items: seq<Item>, refused: set<nat>)
    returns (r: Run, final: Space)
    requires Loadable(c, phdrs, sp) && Reservation(c.abi, sp) && !IsErrno(c.abi, sp.base) && AllItems(c) == Some(items)
    requires Relocatable(c, phdrs, before, sp, items)
    requires forall j :: j in refused ==> j < |Loads(phdrs)| && Inert(c, sp, items, Loads(phdrs)[j])
    ensures r.sp == sp && SomeRun(c, phdrs, before, r, final) && |r.replies| == |Loads(phdrs)|
    ensures forall j :: j in refused && Loads(phdrs)[j].filesz > 0 ==> !Honoured(c.abi, r.replies[j].file)
    ensures (exists j :: j in refused && !ZeroFilePart(c.file, Loads(phdrs)[j])) ==> !AsLinked(c, phdrs, sp, items, final)
  {
    hide Loadable, Reservation, IsErrno, AllItems, Relocatable, Answers, Passes, Succeeded, Honoured, AsLinked, Inert, Harmless,
      ZeroFilePart;
    ReactionsAnswer(c, phdrs, sp, refused);
    ReactionsPass(c, phdrs, before, sp, items, refused, Reactions(c, sp, phdrs, refused));
    r, final := BuildRun(c, phdrs, before, sp, items, Reactions(c, sp, phdrs, refused));
    ImageExactlyWhen(c, phdrs, before, r, final, items);
    forall j | j in refused && !ZeroFilePart(c.file, Loads(phdrs)[j]) ensures !Harmless(c, phdrs, r, items, j) {
      RefusedShows(c, phdrs, r, items, j);
    }
  }

  lemma RefusedShows(c: Context, phdrs: seq<Phdr>, r: Run, items: seq<Item>, j: nat)
    requires j < |Loads(phdrs)| && j < |r.replies| && Inert(c, r.sp, items, Loads(phdrs)[j])
    requires Loads(phdrs)[j].filesz > 0 ==> !Honoured(c.abi, r.replies[j].file)
    ensures !ZeroFilePart(c.file, Loads(phdrs)[j]) ==> !Harmless(c, phdrs, r, items, j)
  {
    hide Honoured, Untargeted, PlaceOf, FileMapped;
    if !ZeroFilePart(c.file, Loads(phdrs)[j]) {
      var k: nat :| k < Loads(phdrs)[j].filesz && MeantByte(c.file, Loads(phdrs)[j], k) != 0;
      FilePartIsMapped(c.abi, r.sp, Loads(phdrs)[j], k);
      assert ByteLeft(c, r.sp, Loads(phdrs)[j], r.replies[j], k) == 0;
    }
  }
}
