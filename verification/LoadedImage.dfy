/**
 What the segment-mapping loop leaves in the tracee: containment in the reserved
 span, the file and zero contents of every segment, and the final protections.
 */
module LoadedImage {
  import opened Options
  import opened Words
  import opened Abis
  import opened Pages
  import opened RemoteLoader

  /** The PT_LOAD headers in table order. */
  function Loads(phdrs: seq<Phdr>): (r: seq<Phdr>)
    ensures forall p :: p in r <==> p in phdrs && IsLoad(p)
  {
    if phdrs == [] then []
    else
      var before := Loads(phdrs[..|phdrs| - 1]);
      if IsLoad(phdrs[|phdrs| - 1]) then before + [phdrs[|phdrs| - 1]] else before
  }

  lemma {:induction false} PlacesOfLoads(sp: Span, phdrs: seq<Phdr>)
    requires forall p :: p in phdrs && IsLoad(p) ==> Above(sp, p)
    ensures |Places(sp, phdrs)| == |Loads(phdrs)|
    ensures forall j :: 0 <= j < |Loads(phdrs)| ==> Places(sp, phdrs)[j] == PlaceOf(sp, Loads(phdrs)[j])
    ensures |Records(sp, phdrs)| == if |Loads(phdrs)| < MAX_SEGMENTS then |Loads(phdrs)| else MAX_SEGMENTS
    ensures forall j :: 0 <= j < |Records(sp, phdrs)| ==> Records(sp, phdrs)[j] == SegmentRecord(sp, Loads(phdrs)[j])
  {
    if phdrs != [] {
      PlacesOfLoads(sp, phdrs[..|phdrs| - 1]);
    }
  }

  /** Rounding an address rounds its vaddr: base and lowest vaddr are both on page boundaries. */
  lemma RoundedAddress(sp: Span, v: nat)
    requires sp.page > 0 && sp.lo <= v && Aligned(sp.base, sp.page) && Aligned(sp.lo, sp.page)
    ensures sp.lo <= PageDown(v, sp.page)
    ensures PageDown(Addr(sp, v), sp.page) == Addr(sp, PageDown(v, sp.page))
    ensures PageUp(Addr(sp, v), sp.page) == Addr(sp, PageUp(v, sp.page))
  {
    hide PageDown, PageUp;
    var d: nat := v - sp.lo;
    Nearest(sp.lo, v, sp.page);
    Shift(d, sp.base, sp.page);
    Shift(d, sp.lo, sp.page);
  }

  // --- Containment ---------------------------------------------------------------------

  ghost predicate InsideSpan(sp: Span, pl: Place) {
    forall a: nat :: Touches(pl, a) ==> InRange(a, sp.base, sp.size)
  }

  /** A header's MAP_FIXED pages stay in the span exactly when its file part does. */
  lemma PlaceInside(abi: Abi, sp: Span, phdrs: seq<Phdr>, p: Phdr)
    requires ValidSpan(abi, sp) && IsLayout(phdrs, sp.page, sp.lo, sp.size)
    requires p in phdrs && IsLoad(p) && Above(sp, p)
    ensures InsideSpan(sp, PlaceOf(sp, p)) <==> p.filesz == 0 || PageUp(p.vaddr + p.filesz, sp.page) <= sp.lo + sp.size
  {
    hide PageDown, PageUp;
    var pl := PlaceOf(sp, p);
    RoundedAddress(sp, p.vaddr);
    RoundedAddress(sp, p.vaddr + p.filesz);
    RoundedAddress(sp, p.vaddr + p.memsz);
    var hi :| IsHighest(phdrs, hi) && sp.lo + sp.size == PageUp(hi, sp.page);
    Monotone(p.vaddr + p.memsz, hi, sp.page);
    InsideByEnds(sp, pl);
  }

  lemma InsideByEnds(sp: Span, pl: Place)
    requires sp.base <= pl.start && pl.end <= sp.base + sp.size && pl.start <= pl.filePageEnd
    requires pl.hasFile ==> pl.start < pl.filePageEnd
    ensures InsideSpan(sp, pl) <==> !pl.hasFile || pl.filePageEnd <= sp.base + sp.size
  {
    if pl.hasFile && pl.filePageEnd > sp.base + sp.size {
      assert Touches(pl, pl.filePageEnd - 1);
    }
  }

  /**
   Every MAP_FIXED page lies in the reserved span exactly when no segment's file
   contents end above the page-rounded top of the span.
   */
  lemma MappedPagesStayInSpan(abi: Abi, sp: Span, phdrs: seq<Phdr>)
    requires AllFit(abi, sp, phdrs) && IsLayout(phdrs, sp.page, sp.lo, sp.size)
    ensures (forall pl :: pl in Places(sp, phdrs) ==> InsideSpan(sp, pl)) <==>
            (forall p :: p in phdrs && IsLoad(p) ==>
               p.filesz == 0 || PageUp(p.vaddr + p.filesz, sp.page) <= sp.lo + sp.size)
  {
    hide PageDown, PageUp;
    PlacesOfLoads(sp, phdrs);
    forall p | p in phdrs && IsLoad(p)
      ensures PlaceOf(sp, p) in Places(sp, phdrs)
      ensures InsideSpan(sp, PlaceOf(sp, p)) <==> p.filesz == 0 || PageUp(p.vaddr + p.filesz, sp.page) <= sp.lo + sp.size
    {
      PlaceInside(abi, sp, phdrs, p);
      assert p in Loads(phdrs);
      var j :| 0 <= j < |Loads(phdrs)| && Loads(phdrs)[j] == p;
      assert Places(sp, phdrs)[j] == PlaceOf(sp, p);
    }
    forall pl | pl in Places(sp, phdrs)
      ensures exists p :: p in phdrs && IsLoad(p) && pl == PlaceOf(sp, p)
    {
      var j :| 0 <= j < |Places(sp, phdrs)| && Places(sp, phdrs)[j] == pl;
      assert Loads(phdrs)[j] in Loads(phdrs);
    }
  }

  // --- Contents --------------------------------------------------------------------------

  /** "Program Header" and "Program Loading", chapter 5 of the System V gABI. */
  ghost predicate WellFormed(abi: Abi, p: Phdr, page: nat, fileLen: nat)
    requires page > 0
  {
    p.filesz <= p.memsz && p.vaddr + p.memsz < Modulus(abi) &&
    p.vaddr - PageDown(p.vaddr, page) == p.offset - PageDown(p.offset, page) &&
    p.offset + p.filesz <= fileLen
  }

  ghost predicate PageDisjoint(p: Place, q: Place) {
    p.end <= q.start || q.end <= p.start
  }

  /** Any two PT_LOAD headers are page-disjoint, and each is well formed. */
  ghost predicate GoodSegments(sp: Span, phdrs: seq<Phdr>, fileLen: nat)
    requires sp.page > 0 && forall p :: p in phdrs && IsLoad(p) ==> Above(sp, p)
  {
    (forall p :: p in phdrs && IsLoad(p) ==> WellFormed(sp.abi, p, sp.page, fileLen)) &&
    forall i, j :: 0 <= i < j < |Loads(phdrs)| ==> PageDisjoint(PlaceOf(sp, Loads(phdrs)[i]), PlaceOf(sp, Loads(phdrs)[j]))
  }

  ghost predicate VaddrDisjoint(p: Phdr, q: Phdr, page: nat)
    requires page > 0
  {
    PageUp(p.vaddr + p.memsz, page) <= PageDown(q.vaddr, page) || PageUp(q.vaddr + q.memsz, page) <= PageDown(p.vaddr, page)
  }

  /** The same about the program header table alone, before a base is known. */
  ghost predicate GoodTable(abi: Abi, phdrs: seq<Phdr>, page: nat, fileLen: nat)
    requires page > 0
  {
    (forall p :: p in phdrs && IsLoad(p) ==> WellFormed(abi, p, page, fileLen)) &&
    forall i, j :: 0 <= i < j < |Loads(phdrs)| ==> VaddrDisjoint(Loads(phdrs)[i], Loads(phdrs)[j], page)
  }

  /** Every segment of the table lies at or above the lowest page of its layout. */
  lemma LayoutIsBelow(sp: Span, phdrs: seq<Phdr>)
    requires sp.page > 0 && IsLayout(phdrs, sp.page, sp.lo, sp.size)
    ensures forall p :: p in phdrs && IsLoad(p) ==> Above(sp, p) && p.vaddr + p.memsz <= sp.lo + sp.size
  {
    hide PageDown;
  }

  /** Over an honest reservation a good table fits, and its segments are good. */
  lemma GoodTableFits(abi: Abi, sp: Span, phdrs: seq<Phdr>, fileLen: nat)
    requires sp.abi == abi && sp.page > 0 && sp.lo < Modulus(abi) && IsLayout(phdrs, sp.page, sp.lo, sp.size)
    requires Aligned(sp.base, sp.page) && sp.base + sp.size + sp.page <= Modulus(abi) && GoodTable(abi, phdrs, sp.page, fileLen)
    ensures AllFit(abi, sp, phdrs) && (forall p :: p in phdrs && IsLoad(p) ==> Above(sp, p)) && GoodSegments(sp, phdrs, fileLen)
  {
    hide PageDown, PageUp;
    LayoutIsBelow(sp, phdrs);
    forall i, j | 0 <= i < j < |Loads(phdrs)|
      ensures Loads(phdrs)[i] in phdrs && Loads(phdrs)[j] in phdrs
      ensures PageDisjoint(PlaceOf(sp, Loads(phdrs)[i]), PlaceOf(sp, Loads(phdrs)[j]))
    {
      assert Loads(phdrs)[i] in Loads(phdrs) && Loads(phdrs)[j] in Loads(phdrs);
      DisjointPlaces(sp, Loads(phdrs)[i], Loads(phdrs)[j]);
    }
  }

  lemma DisjointPlaces(sp: Span, p: Phdr, q: Phdr)
    requires Above(sp, p) && Above(sp, q) && Aligned(sp.base, sp.page) && Aligned(sp.lo, sp.page) && VaddrDisjoint(p, q, sp.page)
    ensures PageDisjoint(PlaceOf(sp, p), PlaceOf(sp, q))
  {
    hide PageDown, PageUp, OffsetArg, KernelOffset;
    RoundedAddress(sp, p.vaddr);
    RoundedAddress(sp, q.vaddr);
    RoundedAddress(sp, p.vaddr + p.memsz);
    RoundedAddress(sp, q.vaddr + q.memsz);
  }

  /** No MAP_FIXED overwrites another segment: an address belongs to its own header alone. */
  lemma {:induction false} OwnSegmentOnly(c: Cell, file: seq<Byte>, places: seq<Place>, j: nat, a: nat)
    requires j < |places| && places[j].start <= a < places[j].end
    requires forall i :: 0 <= i < |places| ==> places[i].start <= places[i].filePageEnd
    requires forall i :: 0 <= i < |places| ==> places[i].filePageEnd <= places[i].end || !places[i].hasFile
    requires forall i :: 0 <= i < |places| && i != j ==> PageDisjoint(places[i], places[j])
    ensures AfterPlaces(c, file, places, a) == AfterPlace(c, file, places[j], a)
  {
    var n := |places| - 1;
    if j == n {
      forall pl | pl in places[..n]
        ensures !Touches(pl, a)
      {
        var i :| 0 <= i < n && places[i] == pl;
        assert PageDisjoint(places[i], places[j]);
      }
      Untouched(c, file, places[..n], a);
    } else {
      OwnSegmentOnly(c, file, places[..n], j, a);
      assert PageDisjoint(places[n], places[j]);
    }
  }

  /** The loader asks for the file page it means: always on 64 bits, and with 4096-byte pages. */
  predicate OffsetArrives(sp: Span, p: Phdr)
    requires sp.page > 0
  {
    Is64(sp.abi) || sp.page == 4096 || PageDown(p.offset, sp.page) == 0
  }

  /** The file offset from which byte `k` of a segment is really mapped. */
  function ArrivingOffset(sp: Span, p: Phdr, k: nat): nat
    requires Above(sp, p)
  {
    PlaceOf(sp, p).fileOff + (p.offset - PageDown(p.offset, sp.page)) + k
  }

  /** Likewise when the kernel honoured only some of the calls. */
  lemma {:induction false} OwnReplyOnly(abi: Abi, c: Cell, file: seq<Byte>, places: seq<Place>, replies: seq<Reply>, j: nat, a: nat)
    requires |replies| == |places| && j < |places| && places[j].start <= a < places[j].end
    requires forall i :: 0 <= i < |places| ==> places[i].start <= places[i].fileEnd <= places[i].filePageEnd <= places[i].end
    requires forall i :: 0 <= i < |places| && i != j ==> PageDisjoint(places[i], places[j])
    ensures AfterReplies(abi, c, file, places, replies, a) == AfterReply(abi, c, file, places[j], replies[j], a)
  {
    hide Honoured;
    var n := |places| - 1;
    if j == n {
      Unanswered(abi, c, file, places[..n], replies[..n], places[n], a);
    } else {
      OwnReplyOnly(abi, c, file, places[..n], replies[..n], j, a);
      assert PageDisjoint(places[n], places[j]);
    }
  }

  lemma {:induction false} Unanswered(abi: Abi, c: Cell, file: seq<Byte>, places: seq<Place>, replies: seq<Reply>, own: Place, a: nat)
    requires |replies| == |places| && own.start <= a < own.end
    requires forall i :: 0 <= i < |places| ==> places[i].start <= places[i].fileEnd <= places[i].filePageEnd <= places[i].end
    requires forall i :: 0 <= i < |places| ==> PageDisjoint(places[i], own)
    ensures AfterReplies(abi, c, file, places, replies, a) == c
  {
    hide Honoured;
    if places != [] {
      var n := |places| - 1;
      Unanswered(abi, c, file, places[..n], replies[..n], own, a);
      assert PageDisjoint(places[n], own);
    }
  }

  /** One segment's bytes, over a span that was reserved as zero pages. */
  lemma SegmentContents(sp: Span, file: seq<Byte>, p: Phdr, k: nat)
    requires Above(sp, p) && Aligned(sp.base, sp.page) && Aligned(sp.lo, sp.page)
    requires WellFormed(sp.abi, p, sp.page, |file|) && k < p.memsz
    ensures var pl := PlaceOf(sp, p);
            var a := Addr(sp, p.vaddr + k);
            var c := AfterPlace(Mapped(0, NO_ACCESS), file, pl, a);
            pl.start <= a < pl.end && c.Mapped? &&
            (k < p.filesz ==> Touches(pl, a) && c.byte == FileByte(file, ArrivingOffset(sp, p, k))) &&
            (k < p.filesz && OffsetArrives(sp, p) ==> c.byte == file[p.offset + k]) &&
            (k >= p.filesz && (Writable(p) || p.filesz == 0 || a >= pl.filePageEnd) ==> c.byte == 0)
  {
    hide PageDown, PageUp;
    var pl := PlaceOf(sp, p);
    RoundedAddress(sp, p.vaddr);
    assert Addr(sp, p.vaddr + k) - pl.start == p.offset + k - PageDown(p.offset, sp.page);
    BoundariesAreAligned(p.offset, sp.page);
    OffsetArrivesExactlyWhen(sp.abi, PageDown(p.offset, sp.page), sp.page);
    Monotone(Addr(sp, p.vaddr + p.filesz), Addr(sp, p.vaddr + p.memsz), sp.page);
  }

  /** A well-formed segment's file pages end inside its own pages. */
  lemma FilePagesInside(sp: Span, p: Phdr, fileLen: nat)
    requires Above(sp, p) && WellFormed(sp.abi, p, sp.page, fileLen)
    ensures PlaceOf(sp, p).start <= PlaceOf(sp, p).filePageEnd <= PlaceOf(sp, p).end
  {
    hide PageDown, PageUp;
    Monotone(Addr(sp, p.vaddr + p.filesz), Addr(sp, p.vaddr + p.memsz), sp.page);
  }

  /** The facts about segment `j` that the image theorems share. */
  lemma SegmentAlone(sp: Span, phdrs: seq<Phdr>, fileLen: nat, j: nat)
    requires sp.page > 0 && forall p :: p in phdrs && IsLoad(p) ==> Above(sp, p)
    requires GoodSegments(sp, phdrs, fileLen) && j < |Loads(phdrs)|
    ensures |Places(sp, phdrs)| == |Loads(phdrs)| && Loads(phdrs)[j] in phdrs
    ensures Places(sp, phdrs)[j] == PlaceOf(sp, Loads(phdrs)[j])
    ensures forall i :: 0 <= i < |Loads(phdrs)| ==>
              Places(sp, phdrs)[i].start <= Places(sp, phdrs)[i].filePageEnd <= Places(sp, phdrs)[i].end
    ensures forall i :: 0 <= i < |Loads(phdrs)| && i != j ==> PageDisjoint(Places(sp, phdrs)[i], Places(sp, phdrs)[j])
  {
    hide PageDown, PageUp;
    PlacesOfLoads(sp, phdrs);
    var loads, places := Loads(phdrs), Places(sp, phdrs);
    forall i | 0 <= i < |loads|
      ensures loads[i] in phdrs && places[i] == PlaceOf(sp, loads[i])
      ensures places[i].start <= places[i].filePageEnd <= places[i].end
    {
      assert loads[i] in loads;
      FilePagesInside(sp, loads[i], fileLen);
    }
  }

  /** The cell at `a` after the reservation and the mapping loop. */
  ghost function Image(sp: Span, file: seq<Byte>, phdrs: seq<Phdr>, a: nat): Cell
    requires forall p :: p in phdrs && IsLoad(p) ==> Above(sp, p)
  {
    AfterPlaces(Mapped(0, NO_ACCESS), file, Places(sp, phdrs), a)
  }

  /**
   Byte `k` of segment `p` is the file's byte at its vaddr_to_offset, when the
   offset of its page arrives, and zero past the file contents.
   */
  ghost predicate ByteAsLinked(sp: Span, file: seq<Byte>, phdrs: seq<Phdr>, p: Phdr, k: nat, c: Cell)
    requires Above(sp, p)
  {
    c.Mapped? &&
    (k < p.filesz ==>
       FileOffset(sp.abi, phdrs, p.vaddr + k) == Some(p.offset + k) && p.offset + k < |file| &&
       c.byte == FileByte(file, ArrivingOffset(sp, p, k)) && (OffsetArrives(sp, p) ==> c.byte == file[p.offset + k])) &&
    (k >= p.filesz && (Writable(p) || p.filesz == 0 || Addr(sp, p.vaddr + k) >= PlaceOf(sp, p).filePageEnd) ==>
       c.byte == 0)
  }

  /**
   The memory image: over a reserved span, every byte of a segment's file part
   is the file's byte at its vaddr_to_offset when its page's offset arrives, and the rest up to memsz is zero
   for a writable segment, for one without file contents, and on every page
   past the file pages.
   */
  lemma MemoryImage(sp: Span, file: seq<Byte>, phdrs: seq<Phdr>, j: nat, k: nat)
    requires sp.page > 0 && Aligned(sp.base, sp.page) && Aligned(sp.lo, sp.page)
    requires forall p :: p in phdrs && IsLoad(p) ==> Above(sp, p)
    requires GoodSegments(sp, phdrs, |file|) && j < |Loads(phdrs)| && k < Loads(phdrs)[j].memsz
    ensures Loads(phdrs)[j] in phdrs
    ensures ByteAsLinked(sp, file, phdrs, Loads(phdrs)[j], k, Image(sp, file, phdrs, Addr(sp, Loads(phdrs)[j].vaddr + k)))
  {
    hide PageDown, PageUp, AfterPlaces, AfterPlace, SegmentByte, Writable, KernelOffset, OffsetArg, FileOffset, ArrivingOffset;
    SegmentAlone(sp, phdrs, |file|, j);
    var p := Loads(phdrs)[j];
    SegmentContents(sp, file, p, k);
    OwnSegmentOnly(Mapped(0, NO_ACCESS), file, Places(sp, phdrs), j, Addr(sp, p.vaddr + k));
    if k < p.filesz {
      HeldOffset(sp, phdrs, |file|, j, k);
    }
  }

  lemma HeldOffset(sp: Span, phdrs: seq<Phdr>, fileLen: nat, j: nat, k: nat)
    requires sp.page > 0 && forall p :: p in phdrs && IsLoad(p) ==> Above(sp, p)
    requires GoodSegments(sp, phdrs, fileLen) && j < |Loads(phdrs)| && k < Loads(phdrs)[j].filesz
    ensures FileOffset(sp.abi, phdrs, Loads(phdrs)[j].vaddr + k) == Some(Loads(phdrs)[j].offset + k)
  {
    hide PageDown, PageUp, FileOffset, PlaceOf;
    var p := Loads(phdrs)[j];
    assert p in Loads(phdrs);
    OnlyHolder(sp, phdrs, fileLen, j, p.vaddr + k);
    UniqueOffset(sp.abi, phdrs, p, p.vaddr + k);
  }

  /** Page-disjoint segments cannot both hold a vaddr. */
  lemma OnlyHolder(sp: Span, phdrs: seq<Phdr>, fileLen: nat, j: nat, v: nat)
    requires sp.page > 0 && forall p :: p in phdrs && IsLoad(p) ==> Above(sp, p)
    requires GoodSegments(sp, phdrs, fileLen) && j < |Loads(phdrs)| && FileHolds(sp.abi, Loads(phdrs)[j], v)
    ensures forall q :: q in phdrs && FileHolds(sp.abi, q, v) ==> q == Loads(phdrs)[j]
  {
    SegmentAlone(sp, phdrs, fileLen, j);
    PlacesOfLoads(sp, phdrs);
    forall q | q in phdrs && FileHolds(sp.abi, q, v)
      ensures q == Loads(phdrs)[j]
    {
      assert q in Loads(phdrs);
      var i :| 0 <= i < |Loads(phdrs)| && Loads(phdrs)[i] == q;
      if i != j {
        assert false;
      }
    }
  }

  lemma {:induction false} UniqueOffset(abi: Abi, phdrs: seq<Phdr>, p: Phdr, v: nat)
    requires p in phdrs && FileHolds(abi, p, v)
    requires forall q :: q in phdrs && FileHolds(abi, q, v) ==> q == p
    ensures FileOffset(abi, phdrs, v) == Some(p.offset + (v - p.vaddr))
  {
    hide Wrap;
    if phdrs[0] != p {
      UniqueOffset(abi, phdrs[1..], p, v);
    }
  }

  // --- Final protections ---------------------------------------------------------------------

  /** The mprotect loop gives segment `j` its own record, or nothing past the table. */
  lemma {:induction false} OwnRecordOnly(c: Cell, segs: seq<Seg>, j: nat, a: nat, own: Seg)
    requires c.Mapped? && InRange(a, own.addr, own.len)
    requires forall i :: 0 <= i < |segs| && i != j ==> !InRange(a, segs[i].addr, segs[i].len)
    requires j < |segs| ==> segs[j] == own
    ensures AfterProtect(c, segs, a) == if j < |segs| then c.(prot := own.prot) else c
  {
    if segs != [] {
      var n := |segs| - 1;
      OwnRecordOnly(c, segs[..n], j, a, own);
    }
  }

  /** The protection loop gives a page of segment `j` its ELF flags, or nothing past the table. */
  lemma RecordDecides(sp: Span, phdrs: seq<Phdr>, fileLen: nat, j: nat, c: Cell, a: nat)
    requires sp.page > 0 && forall p :: p in phdrs && IsLoad(p) ==> Above(sp, p)
    requires GoodSegments(sp, phdrs, fileLen) && j < |Loads(phdrs)| && Loads(phdrs)[j] in phdrs
    requires PlaceOf(sp, Loads(phdrs)[j]).start <= a < PlaceOf(sp, Loads(phdrs)[j]).end && c.Mapped?
    ensures AfterProtect(c, Records(sp, phdrs), a) == if j < MAX_SEGMENTS then c.(prot := ElfProt(Loads(phdrs)[j])) else c
  {
    hide PageDown, PageUp;
    SegmentAlone(sp, phdrs, fileLen, j);
    PlacesOfLoads(sp, phdrs);
    var segs := Records(sp, phdrs);
    forall i | 0 <= i < |segs| && i != j
      ensures !InRange(a, segs[i].addr, segs[i].len)
    {
      assert PageDisjoint(Places(sp, phdrs)[i], Places(sp, phdrs)[j]);
      assert segs[i] == SegmentRecord(sp, Loads(phdrs)[i]);
    }
    OwnRecordOnly(c, segs, j, a, SegmentRecord(sp, Loads(phdrs)[j]));
  }

  /** What the loader leaves segment `j` with: its ELF flags, or the mapping protection past the table. */
  lemma FinalProtection(sp: Span, file: seq<Byte>, phdrs: seq<Phdr>, j: nat, a: nat)
    requires sp.page > 0 && forall p :: p in phdrs && IsLoad(p) ==> Above(sp, p)
    requires GoodSegments(sp, phdrs, |file|) && j < |Loads(phdrs)| && Loads(phdrs)[j] in phdrs
    requires PlaceOf(sp, Loads(phdrs)[j]).start <= a < PlaceOf(sp, Loads(phdrs)[j]).end
    ensures var pl := PlaceOf(sp, Loads(phdrs)[j]);
            var mapped := Image(sp, file, phdrs, a);
            mapped.Mapped? &&
            AfterProtect(mapped, Records(sp, phdrs), a) ==
              mapped.(prot := if j < MAX_SEGMENTS then ElfProt(Loads(phdrs)[j])
                              else if Touches(pl, a) then READ_WRITE else NO_ACCESS)
  {
    hide PageDown, PageUp;
    SegmentAlone(sp, phdrs, |file|, j);
    PlacesOfLoads(sp, phdrs);
    OwnSegmentOnly(Mapped(0, NO_ACCESS), file, Places(sp, phdrs), j, a);
    RecordDecides(sp, phdrs, |file|, j, Image(sp, file, phdrs, a), a);
  }

  ghost predicate HasElfProt(sp: Span, file: seq<Byte>, phdrs: seq<Phdr>, p: Phdr, a: nat)
    requires forall p :: p in phdrs && IsLoad(p) ==> Above(sp, p)
  {
    var c := AfterProtect(Image(sp, file, phdrs, a), Records(sp, phdrs), a);
    c.Mapped? && c.prot == ElfProt(p)
  }

  /**
   Every mapped page ends with its segment's ELF flags exactly when there are at
   most 64 PT_LOADs or every later one that maps anything is plain read-write.
   */
  lemma ProtectionsExact(sp: Span, file: seq<Byte>, phdrs: seq<Phdr>)
    requires sp.page > 0 && forall p :: p in phdrs && IsLoad(p) ==> Above(sp, p)
    requires GoodSegments(sp, phdrs, |file|)
    ensures (forall p, a: nat :: p in phdrs && IsLoad(p) && Touches(PlaceOf(sp, p), a) ==>
               HasElfProt(sp, file, phdrs, p, a))
            <==> (forall j :: MAX_SEGMENTS <= j < |Loads(phdrs)| ==>
                    ElfProt(Loads(phdrs)[j]) == READ_WRITE || !MapsSomething(PlaceOf(sp, Loads(phdrs)[j])))
  {
    hide PageDown, PageUp;
    var loads := Loads(phdrs);
    forall j: nat, a: nat | j < |loads| && Touches(PlaceOf(sp, loads[j]), a)
      ensures loads[j] in phdrs
      ensures HasElfProt(sp, file, phdrs, loads[j], a) <==> j < MAX_SEGMENTS || ElfProt(loads[j]) == READ_WRITE
    {
      SegmentAlone(sp, phdrs, |file|, j);
      FilePagesInside(sp, loads[j], |file|);
      FinalProtection(sp, file, phdrs, j, a);
    }
    forall p | p in phdrs && IsLoad(p)
      ensures exists j: nat :: j < |loads| && loads[j] == p
    {
      assert p in loads;
    }
  }

  ghost predicate MapsSomething(pl: Place) {
    exists a: nat :: Touches(pl, a)
  }
}
