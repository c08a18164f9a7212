/**
 The end of remote_csoloader_load_and_resolve_entry: the address the loader
 calls in the tracee, followed into the loaded image.
 */
module EntryPoint {
  import opened Options
  import opened Abis
  import opened Pages
  import opened RemoteLoader
  import opened LoadedImage
  import opened Relocation
  import opened RelocatedImage
  import opened LibraryLoad
  import opened ElfHash
  import opened ElfSymbols
  import opened SymbolCount

  /** The address of the symbol `name`: the load bias plus the value the scan found. */
  ghost function EntryAddress(c: Context, sp: Span, off: nat, name: string): Option<nat>
    requires Countable(c.abi, c.file, off)
  {
    match SymbolCount.Lookup(c.abi, c.file, off, c.dyn, name)
    case None => None
    case Some(v) => Some(Wrap(c.abi, Bias(c.abi, sp) + v))
  }

  /** `a` is where vaddr `v` of segment `j` went, with the byte and the protection it was linked with. */
  ghost predicate AtLinkedByte(c: Context, phdrs: seq<Phdr>, sp: Span, final: Space, j: nat, v: nat, a: nat) {
    j < |Loads(phdrs)| && Above(sp, Loads(phdrs)[j]) && InRange(v, Loads(phdrs)[j].vaddr, Loads(phdrs)[j].memsz) &&
    a == Addr(sp, v) && InRange(a, sp.base, sp.size) &&
    ByteAsLinked(sp, c.file, phdrs, Loads(phdrs)[j], v - Loads(phdrs)[j].vaddr, final(a)) &&
    (j < MAX_SEGMENTS ==> final(a).prot == ElfProt(Loads(phdrs)[j]))
  }

  /**
   After a load that returned success without an errno, the address of a defined
   symbol whose value lies in a segment is the place of that value in the reserved
   span, and the byte there is the one the file was linked with.
   */
  lemma EntryIsLinkedByte(c: Context, phdrs: seq<Phdr>, before: Space, r: Run, final: Space, items: seq<Item>,
                          off: nat, t: GnuTable, syms: seq<Symbol>, i: nat, j: nat)
    requires HoldsIndex(c.abi, c.file, off, c.dyn, t, syms) && i < |syms| && IsFirstDefined(syms, syms[i].name, i)
    requires syms[i].name != "" && GoodRun(c, phdrs, before, r, final, items) && Unpatched(c.abi, items, syms[i].value)
    requires j < |Loads(phdrs)| && InRange(syms[i].value, Loads(phdrs)[j].vaddr, Loads(phdrs)[j].memsz)
    ensures Countable(c.abi, c.file, off)
    ensures EntryAddress(c, r.sp, off, syms[i].name).Some?
    ensures AtLinkedByte(c, phdrs, r.sp, final, j, syms[i].value, EntryAddress(c, r.sp, off, syms[i].name).value)
  {
    hide ElfSymbols.WellFormed, HoldsTable, HoldsSymbols, NumSyms, DynsymFrom, Wrap, IsLayout, GoodTable, Succeeded, NoErrno,
      Completed, Loaded, GoodSegments, AllItems, TargetsApart, Unpatched, ByteAsLinked, ElfProt, PageDown, PageUp;
    GoodRunIsLoaded(c, phdrs, before, r, final, items);
    var first := LinearScanFinds(c.abi, c.file, off, c.dyn, t, syms, i);
    assert first == i;
    ValueInSegment(c, phdrs, before, r, final, items, j, syms[i].value);
    BiasedAddress(c.abi, r.sp, syms[i].value);
  }

  lemma ValueInSegment(c: Context, phdrs: seq<Phdr>, before: Space, r: Run, final: Space, items: seq<Item>, j: nat, v: nat)
    requires GoodRun(c, phdrs, before, r, final, items) && Unpatched(c.abi, items, v)
    requires j < |Loads(phdrs)| && InRange(v, Loads(phdrs)[j].vaddr, Loads(phdrs)[j].memsz)
    ensures r.sp.lo <= v && AtLinkedByte(c, phdrs, r.sp, final, j, v, Addr(r.sp, v))
  {
    hide Wrap, IsLayout, GoodTable, Succeeded, NoErrno, Completed, Loaded, GoodSegments, AllItems, TargetsApart, Unpatched,
      ByteAsLinked, ElfProt, PageDown, PageUp;
    GoodRunIsLoaded(c, phdrs, before, r, final, items);
    LoadedByte(c, phdrs, before, r, final, items, j, v - Loads(phdrs)[j].vaddr);
    SegmentInSpan(c.abi, r.sp, phdrs, Loads(phdrs)[j], v - Loads(phdrs)[j].vaddr);
  }
}
