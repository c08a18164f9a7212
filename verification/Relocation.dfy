/**
 Relocation processing of the remote ELF loader: RELA, REL and PLT tables,
 symbol resolution, and the words written into the tracee
 (loader/src/ptracer/remote_csoloader.cpp).
 */
module Relocation {
  import opened Options
  import opened Words
  import opened Abis
  import opened CStrings
  import opened RemoteLoader

  // --- File structures -----------------------------------------------------------

  datatype Sym = Sym(name: nat, shndx: nat, value: nat)

  const SHN_UNDEF: nat := 0

  function SymBytes(abi: Abi): nat {
    if Is64(abi) then 24 else 16
  }

  function Field(file: seq<Byte>, off: nat, len: nat): nat
    requires off + len <= |file|
  {
    LeValue(file[off..off + len])
  }

  function SymAt(abi: Abi, file: seq<Byte>, off: nat): Option<Sym> {
    if off + SymBytes(abi) > |file| then None
    else if Is64(abi) then Some(Sym(Field(file, off, 4), Field(file, off + 6, 2), Field(file, off + 8, 8)))
    else Some(Sym(Field(file, off, 4), Field(file, off + 14, 2), Field(file, off + 4, 4)))
  }

  datatype Reloc = Reloc(offset: nat, rtype: nat, sym: nat, addend: nat)

  function RelocBytes(abi: Abi, rela: bool): nat {
    if Is64(abi) then if rela then 24 else 16 else if rela then 12 else 8
  }

  /** The whole entries in a table of `size` bytes. */
  function EntryCount(abi: Abi, size: nat, rela: bool): nat {
    if Is64(abi) then if rela then size / 24 else size / 16 else if rela then size / 12 else size / 8
  }

  function EntryOffset(abi: Abi, off: nat, i: nat, rela: bool): nat {
    if Is64(abi) then if rela then off + i * 24 else off + i * 16 else if rela then off + i * 12 else off + i * 8
  }

  /** ELF64_R_TYPE/ELF64_R_SYM and their 32-bit forms. REL entries carry no addend. */
  function RelocAt(abi: Abi, file: seq<Byte>, off: nat, rela: bool): Option<Reloc> {
    var w := WordBytes(abi);
    if off + RelocBytes(abi, rela) > |file| then None
    else
      var info := Field(file, off + w, w);
      var addend := if rela then Field(file, off + 2 * w, w) else 0;
      if Is64(abi) then Some(Reloc(Field(file, off, w), info % 0x1_0000_0000, info / 0x1_0000_0000, addend))
      else Some(Reloc(Field(file, off, w), info % 0x100, info / 0x100, addend))
  }

  /** The parts of elf_dyn_info that relocation uses. `strtab` holds strsz characters and a final NUL. */
  datatype DynInfo = DynInfo(symtabOff: nat, syment: nat, strtab: string,
                             relaOff: nat, relaSz: nat, relOff: nat, relSz: nat,
                             jmprelOff: nat, jmprelSz: nat, pltrelType: nat)

  const DT_RELA: nat := 7
  const DT_REL: nat := 17

  // --- Symbol resolution ------------------------------------------------------------

  /** The exports found in each DT_NEEDED library (None when it is not mapped) and in the linker. */
  datatype Exports = Exports(needed: seq<Option<map<string, nat>>>, linker: map<string, nat>)

  function Lookup(exports: map<string, nat>, name: string): nat {
    if name in exports then exports[name] else 0
  }

  function FirstExport(needed: seq<Option<map<string, nat>>>, name: string): nat {
    if needed == [] then 0
    else if needed[0].Some? && Lookup(needed[0].value, name) != 0 then Lookup(needed[0].value, name)
    else FirstExport(needed[1..], name)
  }

  predicate IsEhFrame(name: string) {
    name == "__register_frame" || name == "__deregister_frame"
  }

  /** The dl* family also lives in the linker, under its own names. */
  function LinkerName(name: string): Option<string> {
    if name == "dlopen" then Some("__dl_dlopen")
    else if name == "dlsym" then Some("__dl_dlsym")
    else if name == "dlerror" then Some("__dl_dlerror")
    else if name == "dl_iterate_phdr" then Some("__dl_dl_iterate_phdr")
    else if name == "dlclose" then Some("__dl_dlclose")
    else None
  }

  datatype Context = Context(abi: Abi, file: seq<Byte>, dyn: DynInfo, exports: Exports)

  /** Everything about a symbol except the load bias. */
  datatype Resolution = Unresolved | Local(value: nat) | External(addr: nat)

  function Resolve(c: Context, sym: nat): Resolution {
    match SymAt(c.abi, c.file, c.dyn.symtabOff + sym * c.dyn.syment)
    case None => Unresolved
    case Some(s) =>
      if s.shndx != SHN_UNDEF then Local(s.value)
      else if s.name == 0 || s.name + 1 >= |c.dyn.strtab| then Unresolved
      else
        var name := CString(c.dyn.strtab[s.name..]);
        if name == "" then Unresolved
        else if IsEhFrame(name) then External(0)
        else if FirstExport(c.exports.needed, name) != 0 then External(FirstExport(c.exports.needed, name))
        else if LinkerName(name).Some? && Lookup(c.exports.linker, LinkerName(name).value) != 0 then
          External(Lookup(c.exports.linker, LinkerName(name).value))
        else Unresolved
  }

  /** resolve_symbol_addr. */
  method ResolveSymbolAddr(c: Context, bias: nat, sym: nat) returns (r: Option<nat>)
    ensures r == match Resolve(c, sym)
                 case Unresolved => None
                 case Local(v) => Some(Wrap(c.abi, bias + v))
                 case External(a) => Some(a)
  {
    hide SymAt, IsEhFrame, LinkerName, CString, Wrap;
    var entry := SymAt(c.abi, c.file, c.dyn.symtabOff + sym * c.dyn.syment);
    if entry.None? {
      return None;
    }
    if entry.value.shndx != SHN_UNDEF {
      return Some(Wrap(c.abi, bias + entry.value.value));
    }
    if entry.value.name == 0 || entry.value.name + 1 >= |c.dyn.strtab| {
      return None;
    }
    var name := CString(c.dyn.strtab[entry.value.name..]);
    if name == "" {
      return None;
    }
    if IsEhFrame(name) {
      return Some(0);
    }
    for i := 0 to |c.exports.needed|
      invariant FirstExport(c.exports.needed, name) == FirstExport(c.exports.needed[i..], name)
    {
      if c.exports.needed[i].None? {
        continue;
      }
      var addr := Lookup(c.exports.needed[i].value, name);
      if addr != 0 {
        return Some(addr);
      }
    }
    var linkerName := LinkerName(name);
    if linkerName.Some? {
      var addr := Lookup(c.exports.linker, linkerName.value);
      if addr != 0 {
        return Some(addr);
      }
    }
    return None;
  }

  // --- Relocation types -----------------------------------------------------------------

  /** What a relocation type asks for; `addend` says whether the addend is added to the symbol. */
  datatype Action = Relative | Symbolic(addend: bool) | Unsupported

  function RelaAction(abi: Abi, rtype: nat): Action {
    match abi
    case AArch64 =>
      if rtype == 1027 then Relative
      else if rtype == 1025 || rtype == 1026 || rtype == 257 then Symbolic(true)
      else Unsupported
    case X86_64 =>
      if rtype == 8 then Relative
      else if rtype == 6 || rtype == 7 || rtype == 1 then Symbolic(true)
      else Unsupported
    case _ => if rtype == 0 then Relative else Unsupported
  }

  function RelAction(abi: Abi, rtype: nat): Action {
    match abi
    case Arm =>
      if rtype == 23 then Relative
      else if rtype == 21 || rtype == 22 then Symbolic(false)
      else if rtype == 2 then Symbolic(true)
      else Unsupported
    case I386 =>
      if rtype == 8 then Relative
      else if rtype == 6 || rtype == 7 then Symbolic(false)
      else if rtype == 1 then Symbolic(true)
      else Unsupported
    case _ => Unsupported
  }

  /** A table entry with the kind of table it came from. */
  datatype Item = Item(rela: bool, r: Reloc)

  function ActionOf(abi: Abi, it: Item): Action {
    if it.rela then RelaAction(abi, it.r.rtype) else RelAction(abi, it.r.rtype)
  }

  /** The word `it` puts at its target, given the word that is there now. None: the loader gives up. */
  function NewWord(c: Context, bias: nat, it: Item, current: nat): Option<nat> {
    WordFor(c.abi, bias, ActionOf(c.abi, it), Resolve(c, it.r.sym), if it.rela then it.r.addend else current)
  }

  function WordFor(abi: Abi, bias: nat, action: Action, res: Resolution, addend: nat): Option<nat> {
    match action
    case Unsupported => None
    case Relative => Some(Wrap(abi, bias + addend))
    case Symbolic(adds) =>
      match res
      case Unresolved => None
      case Local(v) => Some(SymbolWord(abi, Wrap(abi, bias + v), adds, addend))
      case External(a) => Some(SymbolWord(abi, a, adds, addend))
  }

  /** A null symbol stays null. */
  function SymbolWord(abi: Abi, addr: nat, adds: bool, addend: nat): nat {
    if addr == 0 then 0 else if adds then Wrap(abi, addr + addend) else Wrap(abi, addr)
  }

  function Target(c: Context, bias: nat, it: Item): nat {
    Wrap(c.abi, bias + it.r.offset)
  }

  // --- Memory words -------------------------------------------------------------------------

  ghost predicate WordMapped(s: Space, addr: nat, n: nat) {
    forall a: nat :: InRange(a, addr, n) ==> s(a).Mapped?
  }

  ghost predicate WordWritable(s: Space, addr: nat, n: nat) {
    forall a: nat :: InRange(a, addr, n) ==> s(a).Mapped? && s(a).prot.write
  }

  function BytesIn(s: Space, addr: nat, n: nat): (r: seq<Byte>)
    ensures |r| == n
    ensures forall i :: 0 <= i < n && s(addr + i).Mapped? ==> r[i] == s(addr + i).byte
  {
    seq(n, i requires 0 <= i < n => if s(addr + i).Mapped? then s(addr + i).byte else 0)
  }

  function WordIn(s: Space, addr: nat, n: nat): nat {
    LeValue(BytesIn(s, addr, n))
  }

  /** Overwrites the mapped bytes at `addr`. */
  function Patch(s: Space, addr: nat, data: seq<Byte>): Space {
    (a: nat) => if InRange(a, addr, |data|) && s(a).Mapped? then s(a).(byte := data[a - addr]) else s(a)
  }

  ghost predicate SameSpace(s: Space, t: Space) {
    forall a: nat :: s(a) == t(a)
  }

  /** read_proc of one word. */
  method ReadRemoteAddr(t: Tracee, abi: Abi, addr: nat) returns (r: Option<nat>)
    ensures r.Some? ==> WordMapped(t.space, addr, WordBytes(abi)) && r.value == WordIn(t.space, addr, WordBytes(abi))
  {
    var ok: bool := *;
    if ok && forall a: nat :: addr <= a < addr + WordBytes(abi) ==> t.space(a).Mapped? {
      return Some(WordIn(t.space, addr, WordBytes(abi)));
    }
    return None;
  }

  // --- The three tables ------------------------------------------------------------------------

  /** The entries of a table of `size` bytes, or None when the file is too short. */
  function TableItems(abi: Abi, file: seq<Byte>, off: nat, count: nat, rela: bool): Option<seq<Item>> {
    if count == 0 then Some([])
    else
      match TableItems(abi, file, off, count - 1, rela)
      case None => None
      case Some(before) =>
        match RelocAt(abi, file, EntryOffset(abi, off, count - 1, rela), rela)
        case None => None
        case Some(r) => Some(before + [Item(rela, r)])
  }

  /** All entries can be applied in order, and the space they leave. */
  function Apply(c: Context, bias: nat, s: Space, items: seq<Item>): Option<Space> {
    if items == [] then Some(s)
    else
      match Apply(c, bias, s, items[..|items| - 1])
      case None => None
      case Some(before) =>
        var it := items[|items| - 1];
        var target := Target(c, bias, it);
        match NewWord(c, bias, it, WordIn(before, target, WordBytes(c.abi)))
        case None => None
        case Some(w) => Some(Patch(before, target, LeBytes(w, WordBytes(c.abi))))
  }

  /** Mappings and protections survive relocation whatever its outcome. */
  ghost predicate SameMappings(s: Space, t: Space) {
    forall a: nat :: s(a).Mapped? == t(a).Mapped? && (s(a).Mapped? ==> s(a).prot == t(a).prot)
  }

  /** Mappings are those of the space relocation started from. */
  lemma {:induction false} ApplyKeepsMappings(c: Context, bias: nat, s: Space, items: seq<Item>)
    requires Apply(c, bias, s, items).Some?
    ensures SameMappings(s, Apply(c, bias, s, items).value)
  {
    hide WordFor, Resolve, WordIn, Wrap;
    if items != [] {
      ApplyKeepsMappings(c, bias, s, items[..|items| - 1]);
    }
  }

  lemma SameWord(s: Space, t: Space, addr: nat, n: nat)
    requires forall a: nat :: InRange(a, addr, n) ==> s(a) == t(a)
    ensures WordIn(s, addr, n) == WordIn(t, addr, n)
  {
    forall i | 0 <= i < n
      ensures BytesIn(s, addr, n)[i] == BytesIn(t, addr, n)[i]
    {
      assert InRange(addr + i, addr, n);
    }
    assert BytesIn(s, addr, n) == BytesIn(t, addr, n);
  }

  /** The value of one entry. */
  method ComputeValue(t: Tracee, c: Context, bias: nat, action: Action, it: Item, target: nat) returns (r: Option<nat>)
    ensures r.Some? ==>
              r == WordFor(c.abi, bias, action, Resolve(c, it.r.sym),
                           if it.rela then it.r.addend else WordIn(t.space, target, WordBytes(c.abi)))
  {
    hide Resolve, WordIn, BytesIn;
    var symAddr := None;
    if action.Unsupported? {
      return None;
    }
    if action.Symbolic? {
      symAddr := ResolveSymbolAddr(c, bias, it.r.sym);
      if symAddr.None? {
        return None;
      }
      if symAddr.value == 0 {
        return Some(0);
      }
      if !action.addend {
        return Some(Wrap(c.abi, symAddr.value));
      }
    }
    var addend := it.r.addend;
    if !it.rela {
      var word := ReadRemoteAddr(t, c.abi, target);
      if word.None? {
        return None;
      }
      addend := word.value;
    }
    if action.Relative? {
      return Some(Wrap(c.abi, bias + addend));
    }
    return Some(Wrap(c.abi, symAddr.value + addend));
  }

  ghost predicate OneApplied(c: Context, bias: nat, s: Space, it: Item, t: Space) {
    var target := Target(c, bias, it);
    var w := NewWord(c, bias, it, WordIn(s, target, WordBytes(c.abi)));
    w.Some? && WordWritable(s, target, WordBytes(c.abi)) && SameSpace(t, Patch(s, target, LeBytes(w.value, WordBytes(c.abi))))
  }

  /** One entry of apply_rela_section or apply_rel_section. */
  method ApplyItem(t: Tracee, c: Context, bias: nat, it: Item) returns (ok: bool)
    modifies t
    ensures SameMappings(old(t.space), t.space)
    ensures ok ==> OneApplied(c, bias, old(t.space), it, t.space)
  {
    hide Resolve, WordFor, WordIn, BytesIn, LeBytes;
    var target := Target(c, bias, it);
    var value := ComputeValue(t, c, bias, ActionOf(c.abi, it), it, target);
    if value.None? {
      return false;
    }
    ok := t.WriteProc(target, LeBytes(value.value, WordBytes(c.abi)));
  }

  /** Every word the entries patch can be written in `s`. */
  ghost predicate TargetsWritable(c: Context, bias: nat, s: Space, items: seq<Item>) {
    forall i :: 0 <= i < |items| ==> WordWritable(s, Target(c, bias, items[i]), WordBytes(c.abi))
  }

  /** `t` is what applying `items` in order to `s` leaves, and each of the writes could be made. */
  ghost predicate Applied(c: Context, bias: nat, s: Space, items: seq<Item>, t: Space) {
    var r := Apply(c, bias, s, items);
    r.Some? && SameSpace(t, r.value) && TargetsWritable(c, bias, s, items)
  }

  /** apply_rela_section and apply_rel_section. */
  method ApplySection(t: Tracee, c: Context, bias: nat, off: nat, size: nat, rela: bool) returns (ok: bool)
    modifies t
    ensures SameMappings(old(t.space), t.space)
    ensures ok ==> TableItems(c.abi, c.file, off, EntryCount(c.abi, size, rela), rela).Some?
    ensures ok ==> Applied(c, bias, old(t.space),
                           TableItems(c.abi, c.file, off, EntryCount(c.abi, size, rela), rela).value, t.space)
  {
    var count := EntryCount(c.abi, size, rela);
    ghost var items: seq<Item> := [];
    for i := 0 to count
      invariant SameMappings(old(t.space), t.space)
      invariant TableItems(c.abi, c.file, off, i, rela) == Some(items)
      invariant Applied(c, bias, old(t.space), items, t.space)
    {
      var r := RelocAt(c.abi, c.file, EntryOffset(c.abi, off, i, rela), rela);
      if r.None? {
        return false;
      }
      var it := Item(rela, r.value);
      ghost var s := t.space;
      var applied := ApplyItem(t, c, bias, it);
      if !applied {
        return false;
      }
      AppliedOneMore(c, bias, old(t.space), items, it, s, t.space);
      TableOneMore(c.abi, c.file, off, i, rela, items, r.value);
      items := items + [it];
    }
    ok := true;
  }

  lemma TableOneMore(abi: Abi, file: seq<Byte>, off: nat, i: nat, rela: bool, items: seq<Item>, r: Reloc)
    requires TableItems(abi, file, off, i, rela) == Some(items)
    requires RelocAt(abi, file, EntryOffset(abi, off, i, rela), rela) == Some(r)
    ensures TableItems(abi, file, off, i + 1, rela) == Some(items + [Item(rela, r)])
  {
  }

  lemma AppliedOneMore(c: Context, bias: nat, s0: Space, items: seq<Item>, it: Item, s: Space, t: Space)
    requires Applied(c, bias, s0, items, s)
    requires OneApplied(c, bias, s, it, t)
    ensures Applied(c, bias, s0, items + [it], t)
  {
    var before := Apply(c, bias, s0, items).value;
    assert (items + [it])[..|items|] == items;
    SameWord(s, before, Target(c, bias, it), WordBytes(c.abi));
    ApplyKeepsMappings(c, bias, s0, items);
    WritableBefore(s0, before, Target(c, bias, it), WordBytes(c.abi));
  }

  lemma WritableBefore(s: Space, t: Space, addr: nat, n: nat)
    requires SameMappings(s, t) && WordWritable(t, addr, n)
    ensures WordWritable(s, addr, n)
  {
  }

  // --- apply_relocations ---------------------------------------------------------------

  function SectionItems(c: Context, off: nat, size: nat, rela: bool): Option<seq<Item>> {
    if size != 0 && off != 0 then TableItems(c.abi, c.file, off, EntryCount(c.abi, size, rela), rela) else Some([])
  }

  /** The PLT table is RELA or REL as DT_PLTREL says; any other tag is an error. */
  function PltItems(c: Context): Option<seq<Item>> {
    if c.dyn.jmprelSz == 0 || c.dyn.jmprelOff == 0 then Some([])
    else if c.dyn.pltrelType == DT_RELA then SectionItems(c, c.dyn.jmprelOff, c.dyn.jmprelSz, true)
    else if c.dyn.pltrelType == DT_REL then SectionItems(c, c.dyn.jmprelOff, c.dyn.jmprelSz, false)
    else None
  }

  /** Every relocation of the library in the order it is applied. */
  function AllItems(c: Context): Option<seq<Item>> {
    match (SectionItems(c, c.dyn.relaOff, c.dyn.relaSz, true),
           SectionItems(c, c.dyn.relOff, c.dyn.relSz, false),
           PltItems(c))
    case (Some(a), Some(b), Some(p)) => Some(a + b + p)
    case _ => None
  }

  method ApplyRelocations(t: Tracee, c: Context, bias: nat) returns (ok: bool)
    modifies t
    ensures SameMappings(old(t.space), t.space)
    ensures ok ==> AllItems(c).Some? && Applied(c, bias, old(t.space), AllItems(c).value, t.space)
  {
    hide Apply, TableItems;
    var d := c.dyn;
    ghost var items: seq<Item> := [];
    assert Applied(c, bias, t.space, [], t.space) by {
      NothingApplied(c, bias, t.space);
    }
    if d.relaSz != 0 && d.relaOff != 0 {
      ghost var s := t.space;
      var done := ApplySection(t, c, bias, d.relaOff, d.relaSz, true);
      if !done {
        return false;
      }
      ghost var more := SectionItems(c, d.relaOff, d.relaSz, true).value;
      AppliedAppend(c, bias, old(t.space), items, s, more, t.space);
      items := items + more;
    }
    if d.relSz != 0 && d.relOff != 0 {
      ghost var s := t.space;
      var done := ApplySection(t, c, bias, d.relOff, d.relSz, false);
      if !done {
        return false;
      }
      ghost var more := SectionItems(c, d.relOff, d.relSz, false).value;
      AppliedAppend(c, bias, old(t.space), items, s, more, t.space);
      items := items + more;
    }
    if d.jmprelSz != 0 && d.jmprelOff != 0 {
      if d.pltrelType != DT_RELA && d.pltrelType != DT_REL {
        return false;
      }
      ghost var s := t.space;
      var done := ApplySection(t, c, bias, d.jmprelOff, d.jmprelSz, d.pltrelType == DT_RELA);
      if !done {
        return false;
      }
      ghost var more := SectionItems(c, d.jmprelOff, d.jmprelSz, d.pltrelType == DT_RELA).value;
      AppliedAppend(c, bias, old(t.space), items, s, more, t.space);
      items := items + more;
    }
    assert items == SectionItems(c, d.relaOff, d.relaSz, true).value + SectionItems(c, d.relOff, d.relSz, false).value
                    + PltItems(c).value;
    ok := true;
  }

  lemma NothingApplied(c: Context, bias: nat, s: Space)
    ensures Applied(c, bias, s, [], s)
  {
  }

  lemma {:induction false} AppliedAppend(c: Context, bias: nat, s0: Space, done: seq<Item>, s: Space, more: seq<Item>, t: Space)
    requires Applied(c, bias, s0, done, s) && Applied(c, bias, s, more, t)
    ensures Applied(c, bias, s0, done + more, t)
  {
    hide WordFor, Resolve, WordIn, LeBytes, Target, Patch;
    if more == [] {
      assert done + more == done;
    } else {
      var init, it := more[..|more| - 1], more[|more| - 1];
      var mid := Apply(c, bias, s, init).value;
      ApplyKeepsMappings(c, bias, s, init);
      WritableBefore(mid, s, Target(c, bias, it), WordBytes(c.abi));
      AppliedAppend(c, bias, s0, done, s, init, mid);
      AppliedOneMore(c, bias, s0, done + init, it, mid, t);
      assert done + more == done + init + [it];
    }
  }
}
