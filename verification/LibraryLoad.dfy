/**
 remote_csoloader_load_and_resolve_entry up to the final protections: reserve the
 span, map the segments, relocate, tighten. Library constructors and the entry
 lookup run after this point (the lookup is in SymbolCount and EntryPoint).
 */
module LibraryLoad {
  import opened Options
  import opened Abis
  import opened CStrings
  import opened Pages
  import opened RemoteLoader
  import opened LoadedImage
  import opened Relocation
  import opened RelocatedImage

  const LOWEST_BASE_64: nat := 0x1_0000_0000

  /** The cell at `a` once the span is reserved. */
  function Reserved(sp: Span, before: Cell, a: nat): Cell {
    if InRange(a, sp.base, sp.size) then Mapped(0, NO_ACCESS) else before
  }

  ghost function ReservedSpace(sp: Span, before: Space): Space {
    (a: nat) => Reserved(sp, before(a), a)
  }

  /** A load that left the placed image: the mapped, relocated and final spaces. */
  ghost predicate Completed(c: Context, sp: Span, phdrs: seq<Phdr>, before: Space,
                            mapped: Space, relocated: Space, final: Space)
    requires forall p :: p in phdrs && IsLoad(p) ==> Above(sp, p)
  {
    (forall a: nat :: mapped(a) == AfterPlaces(Reserved(sp, before(a), a), c.file, Places(sp, phdrs), a)) &&
    AllItems(c).Some? &&
    Applied(c, Bias(c.abi, sp), mapped, AllItems(c).value, relocated) &&
    forall a: nat :: final(a) == AfterProtect(relocated(a), Records(sp, phdrs), a)
  }

  /**
   What one load went through: the word the reservation returned as its base, what
   the mmap calls of each header returned, and the spaces in between.
   */
  datatype Run = Run(sp: Span, replies: seq<Reply>, mapped: Space, relocated: Space)

  /** The reservation was made, or its errno is being used as an address. */
  ghost predicate Reservation(abi: Abi, sp: Span) {
    sp.abi == abi && sp.page > 0 && sp.base < Modulus(abi) && !Noticed(abi, sp.base) &&
    (Is64(abi) ==> sp.base >= LOWEST_BASE_64) &&
    (!IsErrno(abi, sp.base) ==> Aligned(sp.base, sp.page) && sp.base + sp.size + sp.page <= Modulus(abi))
  }

  /** Everything a load that returned success tells about the tracee. */
  ghost predicate Succeeded(c: Context, phdrs: seq<Phdr>, before: Space, r: Run, final: Space) {
    r.sp.page > 0 && Reservation(c.abi, r.sp) && (forall i :: 0 <= i < |r.replies| ==> ReplyAccepted(c.abi, r.replies[i])) &&
    (!IsErrno(c.abi, r.sp.base) && AllFit(c.abi, r.sp, phdrs) ==>
       Mapping(c.abi, r.sp, c.file, phdrs, r.replies, ReservedSpace(r.sp, before), r.mapped) &&
       TailsWritten(c.abi, r.sp, c.file, phdrs, r.replies, ReservedSpace(r.sp, before)) &&
       forall a: nat :: final(a) == AfterProtect(r.relocated(a), Records(r.sp, phdrs), a)) &&
    AllItems(c).Some? && Applied(c, Bias(c.abi, r.sp), r.mapped, AllItems(c).value, r.relocated)
  }

  /** Reserve, map, relocate, tighten; `lo` and `size` are the layout of the file. */
  method LoadAt(t: Tracee, c: Context, phdrs: seq<Phdr>, lo: nat, size: nat, page: nat)
    returns (ok: bool, ghost run: Run)
    requires page > 0
    modifies t
    ensures run.sp.lo == lo && run.sp.size == size && run.sp.page == page
    ensures ok ==> Succeeded(c, phdrs, old(t.space), run, t.space)
  {
    hide AllFit, Records, Places, AfterReplies, AfterProtect, ReplyAccepted, Applied, TailsWritten;
    var base := t.MmapReserve(c.abi, size, page);
    var sp := Span(c.abi, base, lo, size, page);
    run := Run(sp, [], t.space, t.space);
    if base == 0 || base == Modulus(c.abi) - 1 {
      return false, run;
    }
    if Is64(c.abi) && base < LOWEST_BASE_64 {
      t.Munmap(base, size);
      return false, run;
    }
    ghost var reserved := t.space;
    var loaded, segs, replies := LoadSegments(t, c.abi, sp, c.file, phdrs);
    run := Run(sp, replies, t.space, t.space);
    if !loaded {
      return false, run;
    }
    if !IsErrno(c.abi, base) && AllFit(c.abi, sp, phdrs) {
      FitsAreAbove(c.abi, sp, phdrs);
      forall a: nat ensures reserved(a) == ReservedSpace(sp, old(t.space))(a) {
        assert ReservedSpace(sp, old(t.space))(a) == Reserved(sp, old(t.space)(a), a);
        assert reserved(a) == if InRange(a, sp.base, size) then Mapped(0, NO_ACCESS) else old(t.space)(a);
      }
      SameTails(c.abi, sp, c.file, phdrs, replies, reserved, ReservedSpace(sp, old(t.space)));
    }
    var patched := ApplyRelocations(t, c, Bias(c.abi, sp));
    run := Run(sp, replies, run.mapped, t.space);
    if !patched {
      return false, run;
    }
    ok := ApplyProtections(t, sp.base, sp.size, segs);
  }

  /** No mmap of the run answered with an errno. */
  ghost predicate NoErrno(abi: Abi, r: Run) {
    !IsErrno(abi, r.sp.base) && forall i :: 0 <= i < |r.replies| ==> ReplyHonoured(abi, r.replies[i])
  }

  /** Every step of the load worked on the placed image, at a span the library fits in. */
  ghost predicate Placed(c: Context, phdrs: seq<Phdr>, before: Space, r: Run, final: Space) {
    AllFit(c.abi, r.sp, phdrs) && Completed(c, r.sp, phdrs, before, r.mapped, r.relocated, final)
  }

  /** A library whose table the loader can place, at the smallest page size of any kernel or above. */
  ghost predicate Loadable(c: Context, phdrs: seq<Phdr>, sp: Span) {
    sp.abi == c.abi && sp.page >= 4096 && sp.lo < Modulus(c.abi) && IsLayout(phdrs, sp.page, sp.lo, sp.size) &&
    GoodTable(c.abi, phdrs, sp.page, |c.file|)
  }

  /**
   In a load that returns success the mapping loop leaves what it was meant to, so
   that the rest works on the placed image, exactly when no mmap answered with an
   errno. Of the errnos the loader notices only 1: one from 2 to 4095 passes for an
   address. What such a load leaves in the end is in RefusedMappings.
   */
  lemma PlacedExactlyWhen(c: Context, phdrs: seq<Phdr>, before: Space, r: Run, final: Space)
    requires Succeeded(c, phdrs, before, r, final) && Loadable(c, phdrs, r.sp)
    ensures Placed(c, phdrs, before, r, final) <==> NoErrno(c.abi, r)
  {
    hide IsLayout, GoodTable, AfterReplies, AfterPlaces, AfterProtect, Applied, AllItems, Records, Places, ReplyHonoured,
      ReplyAccepted, Aligned, Bias, Reserved;
    if IsErrno(c.abi, r.sp.base) {
      ErrnoIsNoBase(c, phdrs, r.sp);
    } else {
      GoodTableFits(c.abi, r.sp, phdrs, |c.file|);
      if NoErrno(c.abi, r) {
        HonouredImage(c, phdrs, before, r);
      } else {
        var j :| 0 <= j < |r.replies| && !ReplyHonoured(c.abi, r.replies[j]);
        var a := UnplacedAddress(c, phdrs, before, r, j);
      }
    }
  }

  lemma ErrnoIsNoBase(c: Context, phdrs: seq<Phdr>, sp: Span)
    requires IsErrno(c.abi, sp.base) && Loadable(c, phdrs, sp)
    ensures !AllFit(c.abi, sp, phdrs)
  {
    hide PageDown, PageUp;
    assert sp.size >= sp.page by {
      WholePages(sp.size, sp.page);
    }
  }

  lemma WholePages(x: nat, page: nat)
    requires page > 0 && x > 0 && Aligned(x, page)
    ensures x >= page
  {
  }

  lemma PlacesAreOrdered(abi: Abi, sp: Span, phdrs: seq<Phdr>, i: nat)
    requires AllFit(abi, sp, phdrs) && (forall p :: p in phdrs && IsLoad(p) ==> Above(sp, p)) && i < |Places(sp, phdrs)|
    ensures Ordered(abi, Places(sp, phdrs)[i])
  {
    hide PageDown, OffsetArg, KernelOffset;
    PlacesOfLoads(sp, phdrs);
    assert Loads(phdrs)[i] in Loads(phdrs);
  }

  lemma HonouredImage(c: Context, phdrs: seq<Phdr>, before: Space, r: Run)
    requires AllFit(c.abi, r.sp, phdrs) && |r.replies| == |Places(r.sp, phdrs)|
    requires forall i :: 0 <= i < |r.replies| ==> ReplyHonoured(c.abi, r.replies[i])
    ensures forall a: nat ::
              AfterReplies(c.abi, Reserved(r.sp, before(a), a), c.file, Places(r.sp, phdrs), r.replies, a) ==
              AfterPlaces(Reserved(r.sp, before(a), a), c.file, Places(r.sp, phdrs), a)
  {
    hide AfterReplies, AfterPlaces, ReplyHonoured, Reserved, Places, Ordered;
    var places := Places(r.sp, phdrs);
    forall i | 0 <= i < |places| ensures Ordered(c.abi, places[i]) {
      PlacesAreOrdered(c.abi, r.sp, phdrs, i);
    }
    forall a: nat
      ensures AfterReplies(c.abi, Reserved(r.sp, before(a), a), c.file, places, r.replies, a) ==
              AfterPlaces(Reserved(r.sp, before(a), a), c.file, places, a)
    {
      HonouredReplies(c.abi, Reserved(r.sp, before(a), a), c.file, places, r.replies, a);
    }
  }

  /** An address of a place that has no mapping because its call answered with an errno. */
  lemma UnplacedAddress(c: Context, phdrs: seq<Phdr>, before: Space, r: Run, j: nat) returns (a: nat)
    requires AllFit(c.abi, r.sp, phdrs) && IsLayout(phdrs, r.sp.page, r.sp.lo, r.sp.size)
    requires forall p :: p in phdrs && IsLoad(p) ==> Above(r.sp, p)
    requires GoodSegments(r.sp, phdrs, |c.file|)
    requires Mapping(c.abi, r.sp, c.file, phdrs, r.replies, ReservedSpace(r.sp, before), r.mapped)
    requires j < |r.replies| && !ReplyHonoured(c.abi, r.replies[j])
    ensures r.mapped(a) != AfterPlaces(Reserved(r.sp, before(a), a), c.file, Places(r.sp, phdrs), a)
  {
    hide PageDown, PageUp, AfterReplies, AfterPlaces, IsLayout, IsErrno, OffsetArg, KernelOffset;
    PlacesOfLoads(r.sp, phdrs);
    SegmentAlone(r.sp, phdrs, |c.file|, j);
    var places, pl := Places(r.sp, phdrs), PlaceOf(r.sp, Loads(phdrs)[j]);
    assert CallsMade(places[j], r.replies[j]);
    a := if !Honoured(c.abi, r.replies[j].file) then pl.start else pl.filePageEnd;
    TouchedInSpan(c.abi, r.sp, phdrs, |c.file|, j, a);
    AllOrdered(c.abi, r.sp, phdrs);
    OwnReplyOnly(c.abi, Mapped(0, NO_ACCESS), c.file, places, r.replies, j, a);
    OwnSegmentOnly(Mapped(0, NO_ACCESS), c.file, places, j, a);
  }

  lemma AllOrdered(abi: Abi, sp: Span, phdrs: seq<Phdr>)
    requires AllFit(abi, sp, phdrs) && forall p :: p in phdrs && IsLoad(p) ==> Above(sp, p)
    ensures forall i :: 0 <= i < |Places(sp, phdrs)| ==> Ordered(abi, Places(sp, phdrs)[i])
  {
    hide Ordered;
    forall i | 0 <= i < |Places(sp, phdrs)| ensures Ordered(abi, Places(sp, phdrs)[i]) {
      PlacesAreOrdered(abi, sp, phdrs, i);
    }
  }

  /** The pages of a well-formed segment lie in the span. */
  lemma TouchedInSpan(abi: Abi, sp: Span, phdrs: seq<Phdr>, fileLen: nat, j: nat, a: nat)
    requires AllFit(abi, sp, phdrs) && IsLayout(phdrs, sp.page, sp.lo, sp.size)
    requires forall p :: p in phdrs && IsLoad(p) ==> Above(sp, p)
    requires GoodSegments(sp, phdrs, fileLen) && j < |Loads(phdrs)| && Touches(PlaceOf(sp, Loads(phdrs)[j]), a)
    ensures InRange(a, sp.base, sp.size)
  {
    hide PageDown, PageUp, OffsetArg, KernelOffset, Loads;
    var p := Loads(phdrs)[j];
    assert p in Loads(phdrs);
    FilePagesInside(sp, p, fileLen);
    PagesInSpan(sp, phdrs, p);
  }

  lemma PagesInSpan(sp: Span, phdrs: seq<Phdr>, p: Phdr)
    requires sp.page > 0 && Aligned(sp.base, sp.page) && Aligned(sp.lo, sp.page) && IsLayout(phdrs, sp.page, sp.lo, sp.size)
    requires p in phdrs && IsLoad(p) && Above(sp, p)
    ensures sp.base <= PlaceOf(sp, p).start && PlaceOf(sp, p).end <= sp.base + sp.size
  {
    hide PageDown, PageUp, OffsetArg, KernelOffset;
    var hi :| IsHighest(phdrs, hi) && sp.lo + sp.size == PageUp(hi, sp.page);
    Monotone(p.vaddr + p.memsz, hi, sp.page);
    RoundedAddress(sp, p.vaddr);
    RoundedAddress(sp, p.vaddr + p.memsz);
  }

  /** A segment lies in the span, so every one of its addresses does. */
  lemma SegmentInSpan(abi: Abi, sp: Span, phdrs: seq<Phdr>, p: Phdr, k: nat)
    requires ValidSpan(abi, sp) && IsLayout(phdrs, sp.page, sp.lo, sp.size)
    requires p in phdrs && IsLoad(p) && Above(sp, p) && k < p.memsz
    ensures InRange(Addr(sp, p.vaddr + k), sp.base, sp.size)
  {
    hide PageDown;
    var hi :| IsHighest(phdrs, hi) && sp.lo + sp.size == PageUp(hi, sp.page);
  }

  /** Every relocation patches a word of the span, and no two overlap. */
  ghost predicate TargetsApart(c: Context, sp: Span, items: seq<Item>) {
    NonOverlapping(c, Bias(c.abi, sp), items) && forall j :: 0 <= j < |items| ==> TargetInSpan(c.abi, sp, items[j])
  }

  /** A load that returned success and no mmap of which answered with an errno. */
  ghost predicate GoodRun(c: Context, phdrs: seq<Phdr>, before: Space, r: Run, final: Space, items: seq<Item>) {
    Succeeded(c, phdrs, before, r, final) && NoErrno(c.abi, r) && Loadable(c, phdrs, r.sp) &&
    AllItems(c) == Some(items) && TargetsApart(c, r.sp, items)
  }

  /** It leaves the placed image, so what is known of loaded images holds of it. */
  lemma GoodRunIsLoaded(c: Context, phdrs: seq<Phdr>, before: Space, r: Run, final: Space, items: seq<Item>)
    requires GoodRun(c, phdrs, before, r, final, items)
    ensures AllFit(c.abi, r.sp, phdrs) && (forall p :: p in phdrs && IsLoad(p) ==> Above(r.sp, p))
    ensures GoodSegments(r.sp, phdrs, |c.file|) && Completed(c, r.sp, phdrs, before, r.mapped, r.relocated, final)
    ensures Loaded(c, r.sp, phdrs, items, r.mapped, r.relocated)
  {
    hide IsLayout, GoodTable, AfterReplies, AfterPlaces, AfterProtect, Applied, AllItems, Records, Places, ReplyHonoured,
      ReplyAccepted, Aligned, Bias, NonOverlapping, TargetInSpan, Mapping, TailsWritten, PageDown, PageUp;
    PlacedExactlyWhen(c, phdrs, before, r, final);
    GoodTableFits(c.abi, r.sp, phdrs, |c.file|);
  }

  /** No relocation patches vaddr `v`. */
  ghost predicate Unpatched(abi: Abi, items: seq<Item>, v: nat) {
    forall i :: 0 <= i < |items| ==> !InRange(v, items[i].r.offset, WordBytes(abi))
  }

  /**
   The full memory-image theorem, for a load that returned success without an
   errno: every byte of every segment outside the relocation targets is the file's
   byte at its vaddr_to_offset, or zero past the file contents, with the segment's
   ELF protection while the segment table has room.
   */
  lemma LoadedByte(c: Context, phdrs: seq<Phdr>, before: Space, r: Run, final: Space, items: seq<Item>, j: nat, k: nat)
    requires GoodRun(c, phdrs, before, r, final, items)
    requires j < |Loads(phdrs)| && k < Loads(phdrs)[j].memsz && Unpatched(c.abi, items, Loads(phdrs)[j].vaddr + k)
    ensures Above(r.sp, Loads(phdrs)[j])
    ensures ByteAsLinked(r.sp, c.file, phdrs, Loads(phdrs)[j], k, final(Addr(r.sp, Loads(phdrs)[j].vaddr + k)))
    ensures j < MAX_SEGMENTS ==> final(Addr(r.sp, Loads(phdrs)[j].vaddr + k)).prot == ElfProt(Loads(phdrs)[j])
  {
    hide Wrap, Resolve, WordFor, WordIn, Apply, PageDown, PageUp, AllItems, Applied, NonOverlapping,
      TargetInSpan, AfterPlaces, AfterProtect, Records, Places, IsLayout, FileOffset, ElfProt, Writable, GoodTable,
      Succeeded, NoErrno, Reserved;
    GoodRunIsLoaded(c, phdrs, before, r, final, items);
    var p, sp := Loads(phdrs)[j], r.sp;
    MemoryImage(sp, c.file, phdrs, j, k);
    var a := Addr(sp, p.vaddr + k);
    SegmentInSpan(c.abi, sp, phdrs, p, k);
    OutsideInSpan(c, sp, items, r.mapped, r.relocated, p.vaddr + k);
    assert r.relocated(a) == Image(sp, c.file, phdrs, a);
    SegmentContents(sp, c.file, p, k);
    FinalProtection(sp, c.file, phdrs, j, a);
  }

  /** Protections never change bytes. */
  lemma {:induction false} ProtectKeepsBytes(c: Cell, segs: seq<Seg>, a: nat)
    ensures c.Mapped? ==> AfterProtect(c, segs, a).Mapped? && AfterProtect(c, segs, a).byte == c.byte
  {
    if segs != [] {
      ProtectKeepsBytes(c, segs[..|segs| - 1], a);
    }
  }

  /** And every relocated word of the load is the one its entry asks for over the mapped image. */
  lemma LoadedTarget(c: Context, phdrs: seq<Phdr>, before: Space, r: Run, final: Space, items: seq<Item>, j: nat)
    requires GoodRun(c, phdrs, before, r, final, items) && j < |items|
    ensures r.sp.lo <= items[j].r.offset
    ensures var a := Addr(r.sp, items[j].r.offset);
            NewWord(c, Bias(c.abi, r.sp), items[j], WordIn(r.mapped, a, WordBytes(c.abi)))
            == Some(WordIn(final, a, WordBytes(c.abi)))
  {
    hide Wrap, Resolve, WordFor, Apply, PageDown, AllItems, Image, Succeeded, NoErrno, Loadable, Reserved, AfterPlaces;
    GoodRunIsLoaded(c, phdrs, before, r, final, items);
    var w, sp := WordBytes(c.abi), r.sp;
    LoadedWord(c, sp, phdrs, items, r.mapped, r.relocated, j);
    var a := Addr(sp, items[j].r.offset);
    forall i | 0 <= i < w
      ensures BytesIn(r.relocated, a, w)[i] == BytesIn(final, a, w)[i]
    {
      RelocatedMapped(c, sp, phdrs, items, r.mapped, r.relocated, a + i);
      ProtectKeepsBytes(r.relocated(a + i), Records(sp, phdrs), a + i);
    }
    assert BytesIn(r.relocated, a, w) == BytesIn(final, a, w);
  }

  lemma RelocatedMapped(c: Context, sp: Span, phdrs: seq<Phdr>, items: seq<Item>, mapped: Space, relocated: Space, a: nat)
    requires forall p :: p in phdrs && IsLoad(p) ==> Above(sp, p)
    requires Loaded(c, sp, phdrs, items, mapped, relocated) && InRange(a, sp.base, sp.size)
    ensures relocated(a).Mapped?
  {
    hide Wrap, Resolve, WordFor, PageDown;
    ImageMapped(sp, c.file, Places(sp, phdrs), a);
    ApplyKeepsMappings(c, Bias(c.abi, sp), mapped, items);
  }

  /** A relocation entry for one of the two EH-frame registration functions. */
  ghost predicate AsksEhFrame(c: Context, sym: nat) {
    exists s ::
      SymAt(c.abi, c.file, c.dyn.symtabOff + sym * c.dyn.syment) == Some(s) && s.shndx == SHN_UNDEF && 0 < s.name &&
      s.name + 1 < |c.dyn.strtab| && IsEhFrame(CString(c.dyn.strtab[s.name..]))
  }

  lemma EhFrameIsNull(c: Context, sym: nat)
    requires AsksEhFrame(c, sym)
    ensures Resolve(c, sym) == External(0)
  {
  }

  /**
   In the gABI's terms: a RELATIVE word is the load bias plus its addend, a word of a
   symbol is the symbol's address (plus the addend where the type has one), and
   zero when the symbol has no address or registers an EH frame.
   */
  lemma WordsAsAsked(c: Context, phdrs: seq<Phdr>, before: Space, r: Run, final: Space, items: seq<Item>, j: nat)
    requires GoodRun(c, phdrs, before, r, final, items) && j < |items|
    ensures r.sp.lo <= items[j].r.offset
    ensures var it, bias, a := items[j], Bias(c.abi, r.sp), Addr(r.sp, items[j].r.offset);
            var word := WordIn(final, a, WordBytes(c.abi));
            var addend := if it.rela then it.r.addend else WordIn(r.mapped, a, WordBytes(c.abi));
            var action, res := ActionOf(c.abi, it), Resolve(c, it.r.sym);
            !action.Unsupported? &&
            (action.Relative? ==> word == Wrap(c.abi, bias + addend)) &&
            (action.Symbolic? ==> !res.Unresolved?) &&
            (action.Symbolic? && AsksEhFrame(c, it.r.sym) ==> word == 0) &&
            (action.Symbolic? && res == External(0) ==> word == 0) &&
            (action.Symbolic? && res.External? && res.addr != 0 ==>
               word == Wrap(c.abi, res.addr + if action.addend then addend else 0)) &&
            (action.Symbolic? && res.Local? && Wrap(c.abi, bias + res.value) != 0 ==>
               word == Wrap(c.abi, Wrap(c.abi, bias + res.value) + if action.addend then addend else 0)) &&
            (action.Symbolic? && res.Local? && Wrap(c.abi, bias + res.value) == 0 ==> word == 0)
  {
    hide Wrap, Resolve, PageDown, AllItems, Image, GoodRun, WordIn, ActionOf, AsksEhFrame;
    LoadedTarget(c, phdrs, before, r, final, items, j);
    if AsksEhFrame(c, items[j].r.sym) {
      EhFrameIsNull(c, items[j].r.sym);
    }
  }
}
