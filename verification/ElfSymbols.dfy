/** The two symbol hash functions (loader/src/include/elf_parser.hpp). A char stands for a byte. */
module ElfHash {
  import Pages

  const WORD: nat := 0x1_0000_0000

  /** The bucket a hash selects among `n`. */
  function Residue(h: nat, n: nat): (r: nat)
    requires n > 0
    ensures r < n
  {
    h - Pages.PageDown(h, n)
  }

  /** Residues are defined without division, so that facts about buckets stay linear. */
  lemma ResidueIsRemainder(h: nat, n: nat)
    requires n > 0
    ensures Residue(h, n) == h % n
  {
    Pages.RoundsDown(h, n);
  }

  function Code(c: char): nat {
    c as int % 256
  }

  function GnuHash(name: string): (h: nat)
    ensures h < WORD
  {
    if name == [] then 5381
    else (GnuHash(name[..|name| - 1]) * 33 + Code(name[|name| - 1])) % WORD
  }

  /** calculateGnuHash: `(h << 5) + h + c` in 32 bits. */
  method CalculateGnuHash(name: string) returns (h: nat)
    ensures h == GnuHash(name)
  {
    hide Code;
    h := 5381;
    for i := 0 to |name|
      invariant h == GnuHash(name[..i])
    {
      assert name[..i + 1][..i] == name[..i];
      h := (h * 32 % WORD + h + Code(name[i])) % WORD;
    }
    assert name[..|name|] == name;
  }

  /** The unbounded polynomial behind the hash. */
  function GnuPolynomial(name: string): nat {
    if name == [] then 5381 else GnuPolynomial(name[..|name| - 1]) * 33 + Code(name[|name| - 1])
  }

  lemma ReduceFirst(p: nat, c: nat)
    ensures (p % WORD * 33 + c) % WORD == (p * 33 + c) % WORD
  {
    var q, r := p / WORD, p % WORD;
    assert p * 33 + c == (r * 33 + c) + WORD * (33 * q);
    AddMultiple(r * 33 + c, 33 * q);
  }

  lemma AddMultiple(x: nat, k: nat)
    ensures (x + WORD * k) % WORD == x % WORD
  {
  }

  /** The 32-bit wrap-around of every step only reduces the final value. */
  lemma {:induction false} GnuHashIsPolynomial(name: string)
    ensures GnuHash(name) == GnuPolynomial(name) % WORD
  {
    if name != [] {
      GnuHashIsPolynomial(name[..|name| - 1]);
      ReduceFirst(GnuPolynomial(name[..|name| - 1]), Code(name[|name| - 1]));
    }
  }

  function Code32(c: char): bv32 {
    Code(c) as bv32
  }

  function ShiftIn(h: bv32, c: bv32): bv32 {
    (h << 4) + c
  }

  function TopNibble(h: bv32): bv32 {
    h & 0xf000_0000
  }

  function Fold(h: bv32, g: bv32): bv32 {
    (if g != 0 then h ^ (g >> 24) else h) & !g
  }

  function SysvStep(h: bv32, c: bv32): bv32 {
    Fold(ShiftIn(h, c), TopNibble(ShiftIn(h, c)))
  }

  function SysvHash(name: string): bv32 {
    if name == [] then 0 else SysvStep(SysvHash(name[..|name| - 1]), Code32(name[|name| - 1]))
  }

  /** Folds a non-zero top nibble back into the hash, and clears it. */
  method FoldTop(h0: bv32, g: bv32) returns (h: bv32)
    ensures h == Fold(h0, g)
  {
    h := h0;
    if g != 0 {
      h := h ^ (g >> 24);
    }
    h := h & !g;
  }

  /** calculateSysvHash. */
  method CalculateSysvHash(name: string) returns (h: bv32)
    ensures h == SysvHash(name)
  {
    hide Code32, Fold, ShiftIn, TopNibble;
    h := 0;
    for i := 0 to |name|
      invariant h == SysvHash(name[..i])
    {
      assert name[..i + 1][..i] == name[..i];
      h := ShiftIn(h, Code32(name[i]));
      h := FoldTop(h, TopNibble(h));
    }
    assert name[..|name|] == name;
  }

  /** The top four bits are always folded away, as "Hash Table" in chapter 5 of the gABI requires. */
  lemma {:induction false} SysvHashIs28Bits(name: string)
    ensures TopNibble(SysvHash(name)) == 0
  {
    if name != [] {
      FoldClearsTop(ShiftIn(SysvHash(name[..|name| - 1]), Code32(name[|name| - 1])));
    }
  }

  lemma FoldClearsTop(h: bv32)
    ensures TopNibble(Fold(h, TopNibble(h))) == 0
  {
  }
}

/** Symbol lookup in the ELF hash tables (loader/src/common/elf_parser.cpp). */
module ElfSymbols {
  import opened Options
  import opened ElfHash

  datatype Symbol = Symbol(name: string, defined: bool, value: nat)

  /** The first symbol from `i` on with that name: the plain search of a symbol table. */
  function FirstFrom(syms: seq<Symbol>, name: string, i: nat): (r: Option<nat>)
    ensures r.Some? ==> i <= r.value < |syms| && syms[r.value].name == name &&
                        forall k :: i <= k < r.value ==> syms[k].name != name
    ensures r.None? ==> forall k :: i <= k < |syms| ==> syms[k].name != name
    decreases |syms| - i
  {
    if i >= |syms| then None
    else if syms[i].name == name then Some(i)
    else FirstFrom(syms, name, i + 1)
  }

  function ValueAt(syms: seq<Symbol>, i: Option<nat>): nat
    requires i.Some? ==> i.value < |syms|
  {
    if i.Some? then syms[i.value].value else 0
  }

  // --- GNU hash table -------------------------------------------------------------

  /**
   A Bloom word is the set of its one-bits, so `(word & mask) == mask` is
   `mask <= word`. `bits` is the width of ElfW(Addr).
   */
  datatype GnuTable = GnuTable(bits: nat, symindx: nat, shift2: nat, bloom: seq<set<nat>>, bucket: seq<nat>, chain: seq<nat>)

  function ShiftRight(h: nat, n: nat): nat {
    if n == 0 then h else ShiftRight(h / 2, n - 1)
  }

  /** The two bits a hash sets, and the word it sets them in. */
  function BloomMask(t: GnuTable, h: nat): set<nat>
    requires t.bits > 0
  {
    {Residue(h, t.bits), Residue(ShiftRight(h, t.shift2), t.bits)}
  }

  function BloomWord(t: GnuTable, h: nat): set<nat>
    requires t.bits > 0 && |t.bloom| > 0
  {
    t.bloom[Residue(if t.bits == 64 then h / 64 else h / 32, |t.bloom|)]
  }

  /** The Bloom test for a hash passes. */
  predicate InBloom(t: GnuTable, h: nat)
    requires t.bits > 0 && |t.bloom| > 0
  {
    BloomMask(t, h) <= BloomWord(t, h)
  }

  predicate Sized(t: GnuTable, n: nat) {
    (t.bits == 32 || t.bits == 64) && t.symindx >= 1 && t.symindx + |t.chain| == n &&
    |t.bucket| > 0 && |t.bloom| > 0 && t.shift2 < 32
  }

  /** The bucket of symbol `i`. */
  function BucketOf(t: GnuTable, syms: seq<Symbol>, i: nat): nat
    requires |t.bucket| > 0 && i < |syms|
  {
    Residue(GnuHash(syms[i].name), |t.bucket|)
  }

  predicate StartsChain(t: GnuTable, syms: seq<Symbol>, i: nat)
    requires Sized(t, |syms|) && t.symindx <= i < |syms|
  {
    i == t.symindx || BucketOf(t, syms, i - 1) != BucketOf(t, syms, i)
  }

  predicate EndsChain(t: GnuTable, syms: seq<Symbol>, i: nat)
    requires Sized(t, |syms|) && t.symindx <= i < |syms|
  {
    i + 1 == |syms| || BucketOf(t, syms, i + 1) != BucketOf(t, syms, i)
  }

  /**
   What a linker writes: every hashed symbol has its Bloom bits and its hash in
   its chain entry, chains are contiguous, the low bit marks a chain's end, and a
   bucket holds its chain's first index, or an index below symindx when it is empty.
   */
  ghost predicate WellFormed(t: GnuTable, syms: seq<Symbol>) {
    Sized(t, |syms|) &&
    (forall i {:trigger InBloom(t, GnuHash(syms[i].name))} :: t.symindx <= i < |syms| ==> InBloom(t, GnuHash(syms[i].name))) &&
    (forall i {:trigger EndsChain(t, syms, i)} :: t.symindx <= i < |syms| ==>
       t.chain[i - t.symindx] / 2 == GnuHash(syms[i].name) / 2 &&
       (t.chain[i - t.symindx] % 2 == 1 <==> EndsChain(t, syms, i))) &&
    (forall i {:trigger StartsChain(t, syms, i)} :: t.symindx <= i < |syms| && StartsChain(t, syms, i) ==> t.bucket[BucketOf(t, syms, i)] == i) &&
    (forall b :: 0 <= b < |t.bucket| && t.bucket[b] >= t.symindx ==>
       t.bucket[b] < |syms| && BucketOf(t, syms, t.bucket[b]) == b && StartsChain(t, syms, t.bucket[b]))
  }

  /** A bucket's first index is at or before each of its symbols, with nothing else in between. */
  lemma {:induction false} ChainReaches(t: GnuTable, syms: seq<Symbol>, i: nat)
    requires WellFormed(t, syms) && t.symindx <= i < |syms|
    ensures t.symindx <= t.bucket[BucketOf(t, syms, i)] <= i
    ensures forall k :: t.bucket[BucketOf(t, syms, i)] <= k <= i ==> BucketOf(t, syms, k) == BucketOf(t, syms, i)
    decreases i
  {
    hide Residue, GnuHash, InBloom, BucketOf;
    if !StartsChain(t, syms, i) {
      ChainReaches(t, syms, i - 1);
    }
  }

  lemma SameNameSameBucket(t: GnuTable, syms: seq<Symbol>, name: string)
    requires Sized(t, |syms|)
    ensures forall k :: 0 <= k < |syms| && syms[k].name == name ==> BucketOf(t, syms, k) == Residue(GnuHash(name), |t.bucket|)
  {
    hide Residue, GnuHash;
  }

  /** What a lookup of `name` meets when some hashed symbol has it: Bloom bits, and a chain that reaches it. */
  lemma LookupReaches(t: GnuTable, syms: seq<Symbol>, name: string)
    requires WellFormed(t, syms)
    ensures var b := Residue(GnuHash(name), |t.bucket|);
            (t.bucket[b] >= t.symindx ==> t.bucket[b] < |syms| && BucketOf(t, syms, t.bucket[b]) == b) &&
            (FirstFrom(syms, name, t.symindx).Some? ==>
               var i := FirstFrom(syms, name, t.symindx).value;
               InBloom(t, GnuHash(name)) && t.symindx <= t.bucket[b] <= i &&
               forall k :: t.bucket[b] <= k <= i ==> BucketOf(t, syms, k) == b)
  {
    hide Residue, GnuHash, InBloom, BucketOf;
    SameNameSameBucket(t, syms, name);
    if FirstFrom(syms, name, t.symindx).Some? {
      ChainReaches(t, syms, FirstFrom(syms, name, t.symindx).value);
    }
  }

  lemma ChainEntry(t: GnuTable, syms: seq<Symbol>, i: nat)
    requires WellFormed(t, syms) && t.symindx <= i < |syms|
    ensures i - t.symindx < |t.chain|
    ensures t.chain[i - t.symindx] / 2 == GnuHash(syms[i].name) / 2
    ensures t.chain[i - t.symindx] % 2 == 1 <==> EndsChain(t, syms, i)
  {
    assert EndsChain(t, syms, i) || !EndsChain(t, syms, i);
  }

  lemma TableSized(t: GnuTable, syms: seq<Symbol>)
    requires WellFormed(t, syms)
    ensures Sized(t, |syms|)
  {
  }

  /**
   findSymbolByGnuHash. On a well-formed table it agrees with the plain search of
   the hashed symbols: neither the Bloom test nor the chain walk loses one.
   */
  method FindSymbolByGnuHash(t: GnuTable, syms: seq<Symbol>, name: string, gnuHash: nat) returns (value: nat)
    requires WellFormed(t, syms) && gnuHash == GnuHash(name)
    ensures value == ValueAt(syms, FirstFrom(syms, name, t.symindx))
  {
    hide Residue, GnuHash, InBloom, BucketOf, WellFormed;
    TableSized(t, syms);
    LookupReaches(t, syms, name);
    ghost var first := FirstFrom(syms, name, t.symindx);
    if !InBloom(t, gnuHash) {
      return 0;
    }
    var b := Residue(gnuHash, |t.bucket|);
    var symIndex := t.bucket[b];
    if symIndex < t.symindx {
      return 0;
    }
    while true
      invariant t.bucket[b] <= symIndex < |syms|
      invariant BucketOf(t, syms, symIndex) == b
      invariant first.Some? ==> symIndex <= first.value
      decreases |syms| - symIndex
    {
      ChainEntry(t, syms, symIndex);
      var entry := t.chain[symIndex - t.symindx];
      if entry / 2 == gnuHash / 2 {
        if syms[symIndex].name == name {
          return syms[symIndex].value;
        }
      }
      if entry % 2 == 1 {
        break;
      }
      symIndex := symIndex + 1;
    }
    return 0;
  }

  // --- System V hash table ------------------------------------------------------------

  datatype SysvTable = SysvTable(bucket: seq<nat>, chain: seq<nat>)

  /** The chain from `n` reaches 0 in at most `steps` links. */
  predicate ChainEnds(chain: seq<nat>, n: nat, steps: nat)
    decreases steps
  {
    n == 0 || (steps > 0 && n < |chain| && ChainEnds(chain, chain[n], steps - 1))
  }

  /** The symbols a lookup visits from `n`. */
  function Walk(chain: seq<nat>, n: nat, steps: nat): seq<nat>
    requires ChainEnds(chain, n, steps)
    decreases steps
  {
    if n == 0 then [] else [n] + Walk(chain, chain[n], steps - 1)
  }

  ghost predicate SysvShape(t: SysvTable, syms: seq<Symbol>) {
    |t.bucket| > 0 && |t.chain| == |syms| &&
    forall b :: 0 <= b < |t.bucket| ==> ChainEnds(t.chain, t.bucket[b], |t.chain|)
  }

  function Index(h: bv32): nat {
    h as nat
  }

  function SysvStart(t: SysvTable, name: string): nat
    requires |t.bucket| > 0
  {
    t.bucket[Residue(Index(SysvHash(name)), |t.bucket|)]
  }

  /** No chain is cyclic, and every symbol but the null one is on the chain of its name. */
  ghost predicate SysvWellFormed(t: SysvTable, syms: seq<Symbol>) {
    SysvShape(t, syms) &&
    forall i :: 1 <= i < |syms| ==> i in Walk(t.chain, SysvStart(t, syms[i].name), |t.chain|)
  }

  /** Indices of real symbols: not the null symbol, inside the table. */
  predicate InTable(walk: seq<nat>, n: nat) {
    forall k :: 0 <= k < |walk| ==> 0 < walk[k] < n
  }

  function FirstOnWalk(syms: seq<Symbol>, walk: seq<nat>, name: string): (r: Option<nat>)
    requires InTable(walk, |syms|)
    ensures r.Some? ==> r.value in walk && r.value < |syms| && syms[r.value].name == name
    ensures r.None? ==> forall i :: i in walk ==> syms[i].name != name
  {
    if walk == [] then None
    else if syms[walk[0]].name == name then Some(walk[0])
    else FirstOnWalk(syms, walk[1..], name)
  }

  lemma {:induction false} WalkInTable(chain: seq<nat>, n: nat, steps: nat)
    requires ChainEnds(chain, n, steps)
    ensures InTable(Walk(chain, n, steps), |chain|)
    decreases steps
  {
    if n != 0 {
      WalkInTable(chain, chain[n], steps - 1);
    }
  }

  /** findSymbolBySysvHash: the first match on the chain, found in finitely many steps. */
  method FindSymbolBySysvHash(t: SysvTable, syms: seq<Symbol>, name: string, sysvHash: bv32) returns (value: nat)
    requires SysvShape(t, syms) && sysvHash == SysvHash(name)
    ensures InTable(Walk(t.chain, SysvStart(t, name), |t.chain|), |syms|)
    ensures value == ValueAt(syms, FirstOnWalk(syms, Walk(t.chain, SysvStart(t, name), |t.chain|), name))
  {
    hide Residue, Index, SysvHash;
    var n := t.bucket[Residue(Index(sysvHash), |t.bucket|)];
    ghost var steps: nat := |t.chain|;
    WalkInTable(t.chain, n, steps);
    while n != 0
      invariant ChainEnds(t.chain, n, steps)
      invariant InTable(Walk(t.chain, n, steps), |syms|)
      invariant FirstOnWalk(syms, Walk(t.chain, SysvStart(t, name), |t.chain|), name)
             == FirstOnWalk(syms, Walk(t.chain, n, steps), name)
      decreases steps
    {
      if syms[n].name == name {
        return syms[n].value;
      }
      WalkInTable(t.chain, t.chain[n], steps - 1);
      n, steps := t.chain[n], steps - 1;
    }
    return 0;
  }

  ghost predicate UniqueNames(syms: seq<Symbol>, lo: nat) {
    forall i, j :: lo <= i < j < |syms| ==> syms[i].name != syms[j].name
  }

  /** On a well-formed table a name is found exactly when a symbol has it; unique names give the plain search. */
  lemma SysvAgrees(t: SysvTable, syms: seq<Symbol>, name: string)
    requires SysvWellFormed(t, syms)
    ensures InTable(Walk(t.chain, SysvStart(t, name), |t.chain|), |syms|)
    ensures var found := FirstOnWalk(syms, Walk(t.chain, SysvStart(t, name), |t.chain|), name);
            (found.Some? <==> FirstFrom(syms, name, 1).Some?) &&
            (UniqueNames(syms, 1) ==> found == FirstFrom(syms, name, 1))
  {
    WalkInTable(t.chain, SysvStart(t, name), |t.chain|);
  }

  // --- The whole lookup ------------------------------------------------------------------

  datatype TabSym = TabSym(name: string, kind: nat, size: nat, value: nat)

  /** STT_OBJECT or STT_FUNC, with a size. */
  predicate Cacheable(s: TabSym) {
    (s.kind == 1 || s.kind == 2) && s.size > 0
  }

  /** The first cacheable symbol with that name among the first `n`. */
  function FirstCacheable(symtab: seq<TabSym>, name: string): (r: Option<nat>)
    ensures r.Some? ==> r.value < |symtab| && symtab[r.value].name == name && Cacheable(symtab[r.value])
    ensures r.None? ==> forall k :: 0 <= k < |symtab| ==> symtab[k].name != name || !Cacheable(symtab[k])
  {
    if symtab == [] then None
    else
      var n := |symtab| - 1;
      var before := FirstCacheable(symtab[..n], name);
      if before.Some? then before
      else if symtab[n].name == name && Cacheable(symtab[n]) then Some(n)
      else None
  }

  /** `cache` maps each cacheable name to its first symbol. */
  ghost predicate IsCache(symtab: seq<TabSym>, cache: map<string, nat>) {
    forall name: string :: FirstCacheable(symtab, name) == if name in cache then Some(cache[name]) else None
  }

  function LinearScan(symtab: seq<TabSym>, name: string): nat {
    var found := FirstCacheable(symtab, name);
    if found.Some? then symtab[found.value].value else 0
  }

  /** The hash tables of one image; a missing section is None. */
  datatype Tables = Tables(gnu: Option<GnuTable>, sysv: Option<SysvTable>, dynsym: seq<Symbol>, symtab: seq<TabSym>)

  ghost predicate GoodTables(t: Tables) {
    (t.gnu.Some? ==> WellFormed(t.gnu.value, t.dynsym)) && (t.sysv.Some? ==> SysvWellFormed(t.sysv.value, t.dynsym))
  }

  function GnuOffset(t: Tables, name: string): nat {
    if t.gnu.Some? then ValueAt(t.dynsym, FirstFrom(t.dynsym, name, t.gnu.value.symindx)) else 0
  }

  ghost function SysvOffset(t: Tables, name: string): nat
    requires GoodTables(t)
  {
    if t.sysv.None? then 0
    else
      SysvAgrees(t.sysv.value, t.dynsym, name);
      ValueAt(t.dynsym, FirstOnWalk(t.dynsym, Walk(t.sysv.value.chain, SysvStart(t.sysv.value, name), |t.sysv.value.chain|), name))
  }

  class ElfImage {
    const tables: Tables
    var symbolCache: map<string, nat>

    ghost predicate Valid()
      reads this
    {
      GoodTables(tables) && (symbolCache == map[] || IsCache(tables.symtab, symbolCache))
    }

    constructor (t: Tables)
      requires GoodTables(t)
      ensures Valid() && tables == t
    {
      tables := t;
      symbolCache := map[];
    }

    /** Fills the cache on first use; an emplace keeps the first symbol of a name. */
    method BuildSymbolCache()
      requires Valid()
      modifies this
      ensures Valid() && IsCache(tables.symtab, symbolCache)
    {
      if symbolCache != map[] {
        return;
      }
      var symtab := tables.symtab;
      var cache: map<string, nat> := map[];
      for i := 0 to |symtab|
        invariant IsCache(symtab[..i], cache)
      {
        assert symtab[..i + 1][..i] == symtab[..i];
        if Cacheable(symtab[i]) && symtab[i].name !in cache {
          cache := cache[symtab[i].name := i];
        }
      }
      assert symtab[..|symtab|] == symtab;
      symbolCache := cache;
    }

    method FindSymbolByLinearScan(name: string) returns (value: nat)
      requires Valid()
      modifies this
      ensures Valid() && value == LinearScan(tables.symtab, name)
    {
      BuildSymbolCache();
      assert FirstCacheable(tables.symtab, name) == if name in symbolCache then Some(symbolCache[name]) else None;
      if name in symbolCache {
        return tables.symtab[symbolCache[name]].value;
      }
      return 0;
    }

    /** findSymbolOffset: GNU hash, then System V hash, then the cached linear scan. */
    method FindSymbolOffset(name: string, gnuHash: nat, sysvHash: bv32) returns (value: nat)
      requires Valid() && gnuHash == GnuHash(name) && sysvHash == SysvHash(name)
      modifies this
      ensures Valid()
      ensures value == Offset(tables, name)
    {
      if tables.gnu.Some? {
        var offset := FindSymbolByGnuHash(tables.gnu.value, tables.dynsym, name, gnuHash);
        if offset > 0 {
          return offset;
        }
      }
      if tables.sysv.Some? {
        var offset := FindSymbolBySysvHash(tables.sysv.value, tables.dynsym, name, sysvHash);
        if offset > 0 {
          return offset;
        }
      }
      value := FindSymbolByLinearScan(name);
    }
  }

  ghost function Offset(t: Tables, name: string): nat
    requires GoodTables(t)
  {
    if GnuOffset(t, name) > 0 then GnuOffset(t, name)
    else if SysvOffset(t, name) > 0 then SysvOffset(t, name)
    else LinearScan(t.symtab, name)
  }

  /** With unique dynamic names, the three lookups together are a plain search of dynsym, then of symtab. */
  lemma OffsetIsPlainSearch(t: Tables, name: string)
    requires GoodTables(t) && t.sysv.Some? && UniqueNames(t.dynsym, 1)
    ensures var plain := ValueAt(t.dynsym, FirstFrom(t.dynsym, name, 1));
            Offset(t, name) == if plain > 0 then plain else LinearScan(t.symtab, name)
  {
    hide SysvHash, GnuHash, Walk, FirstOnWalk, ChainEnds, LinearScan, FirstFrom;
    SysvAgrees(t.sysv.value, t.dynsym, name);
    if t.gnu.Some? {
      GnuSymindx(t.gnu.value, t.dynsym);
      if FirstFrom(t.dynsym, name, t.gnu.value.symindx).Some? {
        FirstIsOnly(t.dynsym, name, t.gnu.value.symindx);
      }
    }
  }

  lemma GnuSymindx(t: GnuTable, syms: seq<Symbol>)
    requires WellFormed(t, syms)
    ensures t.symindx >= 1
  {
  }

  lemma FirstIsOnly(syms: seq<Symbol>, name: string, i: nat)
    requires UniqueNames(syms, 1) && i >= 1 && FirstFrom(syms, name, i).Some?
    ensures FirstFrom(syms, name, 1) == FirstFrom(syms, name, i)
  {
    hide FirstFrom;
    var a, b := FirstFrom(syms, name, 1), FirstFrom(syms, name, i);
    assert syms[b.value].name == name;
  }
}
