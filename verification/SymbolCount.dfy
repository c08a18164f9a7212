/**
 The dynamic symbol count the loader derives from the GNU hash section, and the
 lookup of `entry` over it (loader/src/ptracer/remote_csoloader.cpp).
 */
module SymbolCount {
  import opened Options
  import opened Words
  import opened Abis
  import opened CStrings
  import opened ElfHash
  import opened ElfSymbols
  import opened Relocation

  function Word32(file: seq<Byte>, off: nat): Option<nat> {
    ReadWord(file, off, 4)
  }

  /** The offset of 32-bit entry `k`; the product is a uint32_t. */
  function Entry(base: nat, k: nat): nat {
    base + k * 4 % WORD
  }

  /** The largest bucket from `b` on; a short file ends the scan. */
  function MaxBucket(file: seq<Byte>, buckets: nat, b: nat, nbuckets: nat, sofar: nat): nat
    decreases nbuckets - b
  {
    if b >= nbuckets then sofar
    else
      match Word32(file, Entry(buckets, b))
      case None => sofar
      case Some(v) => MaxBucket(file, buckets, b + 1, nbuckets, if v > sofar then v else sofar)
  }

  /** The walk stops at chain entry `k`: the file ends there, or the chain does. */
  predicate StopsAt(file: seq<Byte>, chains: nat, k: nat) {
    var v := Word32(file, Entry(chains, k));
    v.None? || v.value % 2 == 1
  }

  predicate EndsIn(file: seq<Byte>, chains: nat, k: nat, n: nat)
    decreases n
  {
    StopsAt(file, chains, k) || (n > 0 && EndsIn(file, chains, (k + 1) % WORD, n - 1))
  }

  /** The walk from `k` ends; in a file of 4 GiB or more it may go round for ever. */
  ghost predicate WalkEnds(file: seq<Byte>, chains: nat, k: nat) {
    exists n: nat :: EndsIn(file, chains, k, n)
  }

  /** How many entries the walk still passes. */
  ghost function Remaining(file: seq<Byte>, chains: nat, k: nat): (n: nat)
    requires WalkEnds(file, chains, k)
    ensures EndsIn(file, chains, k, n) && forall m: nat :: m < n ==> !EndsIn(file, chains, k, m)
  {
    var n: nat :| EndsIn(file, chains, k, n);
    Least(file, chains, k, n)
  }

  ghost function Least(file: seq<Byte>, chains: nat, k: nat, n: nat): (r: nat)
    requires EndsIn(file, chains, k, n)
    ensures r <= n && EndsIn(file, chains, k, r) && forall m: nat :: m < r ==> !EndsIn(file, chains, k, m)
  {
    if m: nat :| m < n && EndsIn(file, chains, k, m) then Least(file, chains, k, m) else n
  }

  lemma GoesOn(file: seq<Byte>, chains: nat, k: nat)
    requires WalkEnds(file, chains, k) && !StopsAt(file, chains, k)
    ensures WalkEnds(file, chains, (k + 1) % WORD)
    ensures Remaining(file, chains, (k + 1) % WORD) < Remaining(file, chains, k)
  {
    hide StopsAt;
    var n := Remaining(file, chains, k);
    assert EndsIn(file, chains, (k + 1) % WORD, n - 1);
  }

  lemma StepBack(file: seq<Byte>, chains: nat, k: nat)
    requires WalkEnds(file, chains, (k + 1) % WORD)
    ensures WalkEnds(file, chains, k)
  {
    hide StopsAt;
    var n: nat :| EndsIn(file, chains, (k + 1) % WORD, n);
    assert EndsIn(file, chains, k, n + 1);
  }

  /** One past the symbol at which the walk from chain entry `k` stops. */
  ghost function ChainEnd(file: seq<Byte>, chains: nat, k: nat, sym: nat): nat
    requires WalkEnds(file, chains, k)
    decreases Remaining(file, chains, k)
  {
    if StopsAt(file, chains, k) then (sym + 1) % WORD
    else
      GoesOn(file, chains, k);
      ChainEnd(file, chains, (k + 1) % WORD, (sym + 1) % WORD)
  }

  function Buckets(abi: Abi, off: nat, bloomSize: nat): nat {
    if Is64(abi) then off + 16 + bloomSize * 8 else off + 16 + bloomSize * 4 % WORD
  }

  /** The count comes to an end: the header is cut short, no symbol is hashed, or the chain walk ends. */
  ghost predicate Countable(abi: Abi, file: seq<Byte>, off: nat) {
    match (Word32(file, off), Word32(file, off + 4), Word32(file, off + 8), Word32(file, off + 12))
    case (Some(nbuckets), Some(symoffset), Some(bloomSize), Some(_)) =>
      var buckets := Buckets(abi, off, bloomSize);
      var largest := MaxBucket(file, buckets, 0, nbuckets, 0);
      largest >= symoffset ==> WalkEnds(file, Entry(buckets, nbuckets), largest - symoffset)
    case _ => true
  }

  ghost function NumSyms(abi: Abi, file: seq<Byte>, off: nat): nat
    requires Countable(abi, file, off)
  {
    match (Word32(file, off), Word32(file, off + 4), Word32(file, off + 8), Word32(file, off + 12))
    case (Some(nbuckets), Some(symoffset), Some(bloomSize), Some(_)) =>
      var buckets := Buckets(abi, off, bloomSize);
      var largest := MaxBucket(file, buckets, 0, nbuckets, 0);
      if largest >= symoffset then ChainEnd(file, Entry(buckets, nbuckets), largest - symoffset, largest) else symoffset
    case _ => 0
  }

  /** The GNU hash part of elf_load_dyn_info. It returns exactly when the chain walk ends. */
  method CountSymbols(abi: Abi, file: seq<Byte>, off: nat) returns (nsyms: nat)
    requires Countable(abi, file, off)
    ensures nsyms == NumSyms(abi, file, off)
  {
    hide ReadWord;
    var h0, h1, h2, h3 := Word32(file, off), Word32(file, off + 4), Word32(file, off + 8), Word32(file, off + 12);
    if h0.None? || h1.None? || h2.None? || h3.None? {
      return 0;
    }
    var nbuckets, symoffset := h0.value, h1.value;
    var buckets := Buckets(abi, off, h2.value);
    var maxBucket := 0;
    var b := 0;
    while b < nbuckets
      invariant b <= nbuckets
      invariant MaxBucket(file, buckets, b, nbuckets, maxBucket) == MaxBucket(file, buckets, 0, nbuckets, 0)
    {
      var v := Word32(file, Entry(buckets, b));
      if v.None? {
        break;
      }
      if v.value > maxBucket {
        maxBucket := v.value;
      }
      b := b + 1;
    }
    assert maxBucket == MaxBucket(file, buckets, 0, nbuckets, 0);
    if maxBucket < symoffset {
      return symoffset;
    }
    nsyms := WalkChain(file, Entry(buckets, nbuckets), maxBucket - symoffset, maxBucket);
  }

  method WalkChain(file: seq<Byte>, chains: nat, k0: nat, sym0: nat) returns (nsyms: nat)
    requires WalkEnds(file, chains, k0)
    ensures nsyms == ChainEnd(file, chains, k0, sym0)
  {
    hide ReadWord, Entry, EndsIn;
    var k: nat, sym: nat := k0, sym0;
    while true
      invariant WalkEnds(file, chains, k) && ChainEnd(file, chains, k, sym) == ChainEnd(file, chains, k0, sym0)
      decreases Remaining(file, chains, k)
    {
      var v := Word32(file, Entry(chains, k));
      if v.None? || v.value % 2 == 1 {
        return (sym + 1) % WORD;
      }
      GoesOn(file, chains, k);
      k, sym := (k + 1) % WORD, (sym + 1) % WORD;
    }
  }

  /** A readable entry of a small file is not the last one before the offset wraps. */
  lemma EntryAdvances(file: seq<Byte>, chains: nat, k: nat)
    requires |file| < WORD && Word32(file, Entry(chains, k)).Some?
    ensures (k + 1) % WORD * 4 % WORD == k * 4 % WORD + 4
  {
  }

  /** Below 4 GiB every walk ends, whatever the file holds. */
  lemma {:induction false} SmallFilesEnd(file: seq<Byte>, chains: nat, k: nat)
    requires |file| < WORD
    ensures WalkEnds(file, chains, k)
    decreases WORD - k * 4 % WORD
  {
    hide Word32, Entry, EndsIn;
    if StopsAt(file, chains, k) {
      StopsInNone(file, chains, k);
    } else {
      EntryAdvances(file, chains, k);
      SmallFilesEnd(file, chains, (k + 1) % WORD);
      StepBack(file, chains, k);
    }
  }

  lemma StopsInNone(file: seq<Byte>, chains: nat, k: nat)
    requires StopsAt(file, chains, k)
    ensures EndsIn(file, chains, k, 0) && WalkEnds(file, chains, k)
  {
    assert EndsIn(file, chains, k, 0);
  }

  lemma SmallFilesAreCountable(abi: Abi, file: seq<Byte>, off: nat)
    requires |file| < WORD
    ensures Countable(abi, file, off)
  {
    hide WalkEnds, MaxBucket;
    forall chains: nat, k: nat ensures WalkEnds(file, chains, k) {
      SmallFilesEnd(file, chains, k);
    }
  }

  // --- Well-formed tables ---------------------------------------------------------------------

  /** `file` holds table `t` at `off`, entry for entry. */
  ghost predicate HoldsTable(abi: Abi, file: seq<Byte>, off: nat, t: GnuTable) {
    var buckets := Buckets(abi, off, |t.bloom|);
    var chains := buckets + |t.bucket| * 4;
    |t.bucket| * 4 < WORD && |t.bloom| * 8 < WORD && (t.symindx + |t.chain|) * 4 < WORD && chains + |t.chain| * 4 <= |file| &&
    Word32(file, off) == Some(|t.bucket|) && Word32(file, off + 4) == Some(t.symindx) &&
    Word32(file, off + 8) == Some(|t.bloom|) && Word32(file, off + 12) == Some(t.shift2) &&
    (forall b :: 0 <= b < |t.bucket| ==> Word32(file, Entry(buckets, b)) == Some(t.bucket[b])) &&
    (forall k :: 0 <= k < |t.chain| ==> Word32(file, Entry(chains, k)) == Some(t.chain[k]))
  }

  /** The bucket scan finds the largest bucket. */
  lemma {:induction false} MaxBucketIsMaximum(file: seq<Byte>, buckets: nat, bucket: seq<nat>, b: nat, sofar: nat, top: nat)
    requires b <= |bucket| && (forall i :: 0 <= i < |bucket| ==> Word32(file, Entry(buckets, i)) == Some(bucket[i]))
    requires forall i :: b <= i < |bucket| ==> bucket[i] <= top
    requires sofar == top || (sofar <= top && exists i :: b <= i < |bucket| && bucket[i] == top)
    ensures MaxBucket(file, buckets, b, |bucket|, sofar) == top
    decreases |bucket| - b
  {
    hide Word32, Entry;
    if b < |bucket| {
      MaxBucketIsMaximum(file, buckets, bucket, b + 1, if bucket[b] > sofar then bucket[b] else sofar, top);
    }
  }

  lemma BucketInRange(t: GnuTable, syms: seq<Symbol>, i: nat)
    requires |t.bucket| > 0 && i < |syms|
    ensures BucketOf(t, syms, i) < |t.bucket|
  {
  }

  /** No chain starts after the one that holds the last symbol. */
  lemma LastChainIsHighest(t: GnuTable, syms: seq<Symbol>)
    requires WellFormed(t, syms) && |t.chain| > 0
    ensures |t.bucket| > 0 && |syms| > 0
    ensures BucketOf(t, syms, |syms| - 1) < |t.bucket|
    ensures var last := BucketOf(t, syms, |syms| - 1);
            t.symindx <= t.bucket[last] < |syms| &&
            forall b :: 0 <= b < |t.bucket| ==> t.bucket[b] <= t.bucket[last]
  {
    hide GnuHash, Residue, InBloom, BucketOf, WellFormed;
    TableSized(t, syms);
    var end := |syms| - 1;
    BucketInRange(t, syms, end);
    ChainReaches(t, syms, end);
    var last := BucketOf(t, syms, end);
    forall b | 0 <= b < |t.bucket| ensures t.bucket[b] <= t.bucket[last] {
      if t.bucket[b] > t.bucket[last] {
        BucketIsFirst(t, syms, b);
        assert false;
      }
    }
  }

  lemma BucketIsFirst(t: GnuTable, syms: seq<Symbol>, b: nat)
    requires WellFormed(t, syms) && b < |t.bucket| && t.bucket[b] >= t.symindx
    ensures t.bucket[b] < |syms| && BucketOf(t, syms, t.bucket[b]) == b
  {
    hide GnuHash, Residue, InBloom, BucketOf;
  }

  ghost predicate HoldsChain(file: seq<Byte>, chains: nat, t: GnuTable) {
    forall k :: 0 <= k < |t.chain| ==> Word32(file, Entry(chains, k)) == Some(t.chain[k])
  }

  ghost predicate LastChain(t: GnuTable, syms: seq<Symbol>, i: nat) {
    |t.bucket| > 0 && forall k :: i <= k < |syms| ==> BucketOf(t, syms, k) == BucketOf(t, syms, |syms| - 1)
  }

  /** From inside the last chain the walk stops one past the last symbol. */
  lemma {:induction false} WalkToEnd(file: seq<Byte>, chains: nat, t: GnuTable, syms: seq<Symbol>, i: nat)
    requires WellFormed(t, syms) && |syms| * 4 < WORD && t.symindx <= i < |syms|
    requires HoldsChain(file, chains, t) && LastChain(t, syms, i)
    ensures WalkEnds(file, chains, i - t.symindx)
    ensures ChainEnd(file, chains, i - t.symindx, i) == |syms|
    decreases |syms| - i
  {
    hide GnuHash, Residue, InBloom, BucketOf, Word32, Entry, WellFormed;
    TableSized(t, syms);
    ChainEntry(t, syms, i);
    var k := i - t.symindx;
    assert Word32(file, Entry(chains, k)) == Some(t.chain[k]);
    assert (k + 1) % WORD == k + 1 && (i + 1) % WORD == i + 1;
    if i + 1 < |syms| {
      assert BucketOf(t, syms, i + 1) == BucketOf(t, syms, i);
      WalkToEnd(file, chains, t, syms, i + 1);
      StepBack(file, chains, k);
    } else {
      StopsInNone(file, chains, k);
    }
  }

  /**
   For a well-formed table the bucket maximum and the chain walk give exactly
   one past the last symbol of the dynamic symbol table.
   */
  lemma SymbolCountExact(abi: Abi, file: seq<Byte>, off: nat, t: GnuTable, syms: seq<Symbol>)
    requires WellFormed(t, syms) && HoldsTable(abi, file, off, t)
    ensures Countable(abi, file, off)
    ensures NumSyms(abi, file, off) == |syms|
  {
    hide GnuHash, Residue, InBloom, BucketOf, Word32, MaxBucket, ChainEnd, WellFormed;
    TableSized(t, syms);
    var buckets := Buckets(abi, off, |t.bloom|);
    var chains := buckets + |t.bucket| * 4;
    assert Entry(buckets, |t.bucket|) == chains;
    if |t.chain| == 0 {
      var top := MaxOf(t.bucket);
      NoChains(t, syms, top);
      MaxBucketIsMaximum(file, buckets, t.bucket, 0, 0, top);
    } else {
      LastChainIsHighest(t, syms);
      ChainReaches(t, syms, |syms| - 1);
      var start := t.bucket[BucketOf(t, syms, |syms| - 1)];
      MaxBucketIsMaximum(file, buckets, t.bucket, 0, 0, start);
      assert HoldsChain(file, chains, t);
      assert LastChain(t, syms, start);
      WalkToEnd(file, chains, t, syms, start);
    }
  }

  lemma NoChains(t: GnuTable, syms: seq<Symbol>, v: nat)
    requires WellFormed(t, syms) && |t.chain| == 0 && v in t.bucket
    ensures v < t.symindx
  {
    hide GnuHash, Residue, InBloom, BucketOf, WellFormed;
    TableSized(t, syms);
    var b :| 0 <= b < |t.bucket| && t.bucket[b] == v;
    if v >= t.symindx {
      BucketIsFirst(t, syms, b);
      assert false;
    }
  }

  function MaxOf(s: seq<nat>): (m: nat)
    requires |s| > 0
    ensures m in s && forall i :: 0 <= i < |s| ==> s[i] <= m
  {
    if |s| == 1 then s[0] else var m := MaxOf(s[1..]); if s[0] > m then s[0] else m
  }

  // --- find_dynsym_value -----------------------------------------------------------------------

  /** The name of a dynamic symbol; entries without a usable name have none. */
  function SymName(dyn: DynInfo, s: Sym): string {
    if s.name == 0 || s.name + 1 >= |dyn.strtab| then "" else CString(dyn.strtab[s.name..])
  }

  function SymOffset(dyn: DynInfo, i: nat): nat {
    dyn.symtabOff + i * dyn.syment
  }

  function DynsymFrom(abi: Abi, file: seq<Byte>, dyn: DynInfo, nsyms: nat, name: string, i: nat): Option<nat>
    decreases nsyms - i
  {
    if i >= nsyms then None
    else
      match SymAt(abi, file, SymOffset(dyn, i))
      case None => None
      case Some(s) =>
        if s.name != 0 && s.name + 1 < |dyn.strtab| && SymName(dyn, s) == name && s.shndx != SHN_UNDEF then Some(s.value)
        else DynsymFrom(abi, file, dyn, nsyms, name, i + 1)
  }

  method FindDynsymValue(abi: Abi, file: seq<Byte>, dyn: DynInfo, nsyms: nat, name: string) returns (r: Option<nat>)
    ensures r == DynsymFrom(abi, file, dyn, nsyms, name, 0)
  {
    hide SymAt;
    for i := 0 to nsyms
      invariant DynsymFrom(abi, file, dyn, nsyms, name, i) == DynsymFrom(abi, file, dyn, nsyms, name, 0)
    {
      var s := SymAt(abi, file, SymOffset(dyn, i));
      if s.None? {
        return None;
      }
      if s.value.name == 0 || s.value.name + 1 >= |dyn.strtab| {
        continue;
      }
      if CString(dyn.strtab[s.value.name..]) != name || s.value.shndx == SHN_UNDEF {
        continue;
      }
      return Some(s.value.value);
    }
    return None;
  }

  /** `syms` is the dynamic symbol table of the file. */
  ghost predicate HoldsSymbols(abi: Abi, file: seq<Byte>, dyn: DynInfo, syms: seq<Symbol>) {
    forall i :: 0 <= i < |syms| ==>
      var s := SymAt(abi, file, SymOffset(dyn, i));
      s.Some? && SymName(dyn, s.value) == syms[i].name && s.value.value == syms[i].value &&
      (syms[i].defined <==> s.value.shndx != SHN_UNDEF)
  }

  /** The first defined symbol with that name. */
  ghost predicate IsFirstDefined(syms: seq<Symbol>, name: string, i: nat) {
    i < |syms| && syms[i].name == name && syms[i].defined &&
    forall k :: 0 <= k < i ==> syms[k].name != name || !syms[k].defined
  }

  lemma {:induction false} ScanFindsDefined(abi: Abi, file: seq<Byte>, dyn: DynInfo, syms: seq<Symbol>, name: string, from: nat, i: nat)
    requires HoldsSymbols(abi, file, dyn, syms) && name != "" && IsFirstDefined(syms, name, i) && from <= i
    ensures DynsymFrom(abi, file, dyn, |syms|, name, from) == Some(syms[i].value)
    decreases i - from
  {
    hide SymAt, SymOffset, CString;
    var s := SymAt(abi, file, SymOffset(dyn, from));
    assert s.Some? && SymName(dyn, s.value) == syms[from].name;
    if from < i {
      ScanFindsDefined(abi, file, dyn, syms, name, from + 1, i);
    }
  }

  /** The file holds both the hash table and the symbols it indexes. */
  ghost predicate HoldsIndex(abi: Abi, file: seq<Byte>, off: nat, dyn: DynInfo, t: GnuTable, syms: seq<Symbol>) {
    WellFormed(t, syms) && HoldsTable(abi, file, off, t) && HoldsSymbols(abi, file, dyn, syms)
  }

  /** The lookup as the loader performs it: over the derived count, from symbol 0. */
  ghost function Lookup(abi: Abi, file: seq<Byte>, off: nat, dyn: DynInfo, name: string): Option<nat>
    requires Countable(abi, file, off)
  {
    DynsymFrom(abi, file, dyn, NumSyms(abi, file, off), name, 0)
  }

  /** With the derived count, the linear scan finds every defined symbol: the first of its name. */
  lemma LinearScanFinds(abi: Abi, file: seq<Byte>, off: nat, dyn: DynInfo, t: GnuTable, syms: seq<Symbol>, i: nat)
    returns (j: nat)
    requires HoldsIndex(abi, file, off, dyn, t, syms) && i < |syms| && syms[i].defined && syms[i].name != ""
    ensures j <= i && IsFirstDefined(syms, syms[i].name, j)
    ensures Countable(abi, file, off)
    ensures Lookup(abi, file, off, dyn, syms[i].name) == Some(syms[j].value)
  {
    hide WellFormed, HoldsTable, HoldsSymbols, NumSyms, DynsymFrom;
    SymbolCountExact(abi, file, off, t, syms);
    j := FirstDefined(syms, syms[i].name, i);
    ScanFindsDefined(abi, file, dyn, syms, syms[i].name, 0, j);
  }

  /** `name` names one symbol of the table only. */
  ghost predicate NamesOne(syms: seq<Symbol>, name: string) {
    forall j, k :: 0 <= j < |syms| && 0 <= k < |syms| && syms[j].name == name && syms[k].name == name ==> j == k
  }

  /** When the name is unique, the scan of a defined hashed symbol returns what the GNU hash lookup returns. */
  lemma LinearScanAgreesWithHash(abi: Abi, file: seq<Byte>, off: nat, dyn: DynInfo, t: GnuTable, syms: seq<Symbol>, i: nat)
    requires HoldsIndex(abi, file, off, dyn, t, syms)
    requires t.symindx <= i < |syms| && syms[i].defined && syms[i].name != "" && NamesOne(syms, syms[i].name)
    ensures Countable(abi, file, off)
    ensures Lookup(abi, file, off, dyn, syms[i].name) == Some(ValueAt(syms, FirstFrom(syms, syms[i].name, t.symindx)))
  {
    hide WellFormed, HoldsTable, HoldsSymbols, NumSyms, DynsymFrom, Lookup;
    var j := LinearScanFinds(abi, file, off, dyn, t, syms, i);
  }

  lemma {:induction false} FirstDefined(syms: seq<Symbol>, name: string, i: nat) returns (j: nat)
    requires i < |syms| && syms[i].name == name && syms[i].defined
    ensures IsFirstDefined(syms, name, j) && j <= i
  {
    if k :| 0 <= k < i && syms[k].name == name && syms[k].defined {
      j := FirstDefined(syms, name, k);
    } else {
      j := i;
    }
  }
}
