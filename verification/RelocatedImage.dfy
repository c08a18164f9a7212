/**
 What relocation does to the loaded image: the word at every target, everything
 else untouched, and how two loads of one library at different bases differ.
 */
module RelocatedImage {
  import opened Options
  import opened Words
  import opened Abis
  import opened Pages
  import opened RemoteLoader
  import opened LoadedImage
  import opened Relocation

  /** `a` lies in the word `it` patches. */
  predicate InTarget(c: Context, bias: nat, it: Item, a: nat) {
    InRange(a, Target(c, bias, it), WordBytes(c.abi))
  }

  ghost predicate Disjoint(c: Context, bias: nat, x: Item, y: Item) {
    Target(c, bias, x) + WordBytes(c.abi) <= Target(c, bias, y) ||
    Target(c, bias, y) + WordBytes(c.abi) <= Target(c, bias, x)
  }

  ghost predicate NonOverlapping(c: Context, bias: nat, items: seq<Item>) {
    forall i, j :: 0 <= i < j < |items| ==> Disjoint(c, bias, items[i], items[j])
  }

  lemma WordFits(abi: Abi, bias: nat, action: Action, res: Resolution, addend: nat)
    requires WordFor(abi, bias, action, res, addend).Some?
    ensures WordFor(abi, bias, action, res, addend).value < Pow256(WordBytes(abi))
  {
    ModulusIsWord(abi);
  }

  lemma PatchedWord(s: Space, addr: nat, w: nat, n: nat)
    requires WordMapped(s, addr, n) && w < Pow256(n)
    ensures WordIn(Patch(s, addr, LeBytes(w, n)), addr, n) == w
  {
    var t := Patch(s, addr, LeBytes(w, n));
    forall i | 0 <= i < n
      ensures BytesIn(t, addr, n)[i] == LeBytes(w, n)[i]
    {
      assert InRange(addr + i, addr, n);
    }
    assert BytesIn(t, addr, n) == LeBytes(w, n);
    ValueOfBytes(w, n);
  }

  /** Bytes outside every target keep their value. */
  lemma {:induction false} OutsideTargets(c: Context, bias: nat, s: Space, items: seq<Item>, a: nat)
    requires Apply(c, bias, s, items).Some?
    requires forall j :: 0 <= j < |items| ==> !InTarget(c, bias, items[j], a)
    ensures Apply(c, bias, s, items).value(a) == s(a)
  {
    hide WordFor, Resolve, WordIn, Wrap;
    if items != [] {
      OutsideTargets(c, bias, s, items[..|items| - 1], a);
      assert !InTarget(c, bias, items[|items| - 1], a);
    }
  }

  /**
   With non-overlapping targets, each target ends up holding the word its entry
   asks for, computed from the original contents; order does not matter.
   */
  lemma {:induction false} TargetWord(c: Context, bias: nat, s: Space, items: seq<Item>, j: nat)
    requires Apply(c, bias, s, items).Some? && NonOverlapping(c, bias, items) && j < |items|
    requires WordMapped(s, Target(c, bias, items[j]), WordBytes(c.abi))
    ensures NewWord(c, bias, items[j], WordIn(s, Target(c, bias, items[j]), WordBytes(c.abi)))
            == Some(WordIn(Apply(c, bias, s, items).value, Target(c, bias, items[j]), WordBytes(c.abi)))
  {
    hide WordFor, Resolve, WordIn, Wrap;
    var n, w := |items| - 1, WordBytes(c.abi);
    var target := Target(c, bias, items[j]);
    var before := Apply(c, bias, s, items[..n]).value;
    if j == n {
      forall a: nat | InRange(a, target, w)
        ensures before(a) == s(a)
      {
        OutsideTargets(c, bias, s, items[..n], a);
      }
      SameWord(before, s, target, w);
      var word := NewWord(c, bias, items[j], WordIn(before, target, w)).value;
      WordFits(c.abi, bias, ActionOf(c.abi, items[j]), Resolve(c, items[j].r.sym),
               if items[j].rela then items[j].r.addend else WordIn(before, target, w));
      PatchedWord(before, target, word, w);
    } else {
      TargetWord(c, bias, s, items[..n], j);
      assert Disjoint(c, bias, items[j], items[n]);
      SameWord(Apply(c, bias, s, items).value, before, target, w);
    }
  }

  // --- Two loads at different bases ------------------------------------------------------------

  /** Entries whose word follows the load bias: RELATIVE and locally defined symbols. */
  predicate MovesWithBase(c: Context, it: Item) {
    match ActionOf(c.abi, it)
    case Relative => true
    case Symbolic(_) => Resolve(c, it.r.sym).Local?
    case Unsupported => false
  }

  /** A locally defined symbol whose address wraps to zero at this bias. */
  predicate LocalNull(c: Context, bias: nat, it: Item) {
    ActionOf(c.abi, it).Symbolic? && Resolve(c, it.r.sym).Local? && Wrap(c.abi, bias + Resolve(c, it.r.sym).value) == 0
  }

  /**
   How the words of one entry at two biases compare: they differ by the biases or not
   at all, except that a symbol at address zero gives a zero word.
   */
  predicate Rebased(c: Context, b1: nat, b2: nat, it: Item, w1: nat, w2: nat) {
    (!MovesWithBase(c, it) ==> w1 == w2) &&
    (MovesWithBase(c, it) && !LocalNull(c, b1, it) && !LocalNull(c, b2, it) ==>
       Wrap(c.abi, w1 - w2) == Wrap(c.abi, b1 - b2)) &&
    (LocalNull(c, b1, it) ==> w1 == 0) && (LocalNull(c, b2, it) ==> w2 == 0)
  }

  /** The words two biases give the same entry over the same original word. */
  lemma RebasedWord(c: Context, b1: nat, b2: nat, it: Item, current: nat)
    requires NewWord(c, b1, it, current).Some? && NewWord(c, b2, it, current).Some?
    ensures Rebased(c, b1, b2, it, NewWord(c, b1, it, current).value, NewWord(c, b2, it, current).value)
  {
    hide Resolve, ActionOf, Wrap, SymbolWord;
    var addend := if it.rela then it.r.addend else current;
    WrapDifference(c.abi, b1, b2, addend);
    var action, res := ActionOf(c.abi, it), Resolve(c, it.r.sym);
    if action.Symbolic? && res.Local? {
      NullWord(c.abi, action.addend, addend);
      if !LocalNull(c, b1, it) && !LocalNull(c, b2, it) {
        RebasedLocal(c.abi, b1, b2, res.value, action.addend, addend);
      }
    }
  }

  lemma NullWord(abi: Abi, adds: bool, addend: nat)
    ensures SymbolWord(abi, 0, adds, addend) == 0
  {
  }

  lemma RebasedLocal(abi: Abi, b1: nat, b2: nat, v: nat, adds: bool, addend: nat)
    requires Wrap(abi, b1 + v) != 0 && Wrap(abi, b2 + v) != 0
    ensures Wrap(abi, SymbolWord(abi, Wrap(abi, b1 + v), adds, addend) - SymbolWord(abi, Wrap(abi, b2 + v), adds, addend))
            == Wrap(abi, b1 - b2)
  {
    hide Wrap;
    WrapDifference(abi, b1, b2, v);
    WrapDifference(abi, b1, b2, v + addend);
    WrapTwice(abi, b1 + v, addend);
    WrapTwice(abi, b2 + v, addend);
    WrapTwice(abi, b1 + v, 0);
    WrapTwice(abi, b2 + v, 0);
  }

  lemma WrapDifference(abi: Abi, b1: nat, b2: nat, k: nat)
    ensures Wrap(abi, Wrap(abi, b1 + k) - Wrap(abi, b2 + k)) == Wrap(abi, b1 - b2)
  {
    WrapIsShift(abi, b1 + k);
    WrapIsShift(abi, b2 + k);
    var q1 :| Wrap(abi, b1 + k) == b1 + k - q1 * Modulus(abi);
    var q2 :| Wrap(abi, b2 + k) == b2 + k - q2 * Modulus(abi);
    ShiftedWrap(abi, b1 - b2, q2 - q1);
  }

  lemma WrapIsShift(abi: Abi, x: int)
    ensures exists q :: Wrap(abi, x) == x - q * Modulus(abi)
  {
    assert Wrap(abi, x) == x - (x / Modulus(abi)) * Modulus(abi);
  }

  lemma ShiftedWrap(abi: Abi, x: int, q: int)
    ensures Wrap(abi, x + q * Modulus(abi)) == Wrap(abi, x)
  {
    if Is64(abi) {
      Remainder64(x / 0x1_0000_0000_0000_0000 + q, x % 0x1_0000_0000_0000_0000);
    } else {
      Remainder32(x / 0x1_0000_0000 + q, x % 0x1_0000_0000);
    }
  }

  lemma Remainder64(d: int, r: nat)
    requires r < 0x1_0000_0000_0000_0000
    ensures (d * 0x1_0000_0000_0000_0000 + r) % 0x1_0000_0000_0000_0000 == r
  {
  }

  lemma Remainder32(d: int, r: nat)
    requires r < 0x1_0000_0000
    ensures (d * 0x1_0000_0000 + r) % 0x1_0000_0000 == r
  {
  }

  lemma WrapTwice(abi: Abi, x: nat, k: nat)
    ensures Wrap(abi, Wrap(abi, x) + k) == Wrap(abi, x + k)
  {
  }

  /** A relocation target inside the span. */
  ghost predicate TargetInSpan(abi: Abi, sp: Span, it: Item) {
    sp.lo <= it.r.offset && it.r.offset + WordBytes(abi) <= sp.lo + sp.size
  }

  ghost predicate SameLayout(sp1: Span, sp2: Span) {
    sp1.page > 0 && sp1.abi == sp2.abi && sp1.lo == sp2.lo && sp1.size == sp2.size && sp1.page == sp2.page &&
    Aligned(sp1.base, sp1.page) && Aligned(sp2.base, sp1.page) && Aligned(sp1.lo, sp1.page)
  }

  /** Before relocation the image at one base is the image at another, moved. */
  lemma {:induction false} ImageMoves(sp1: Span, sp2: Span, file: seq<Byte>, phdrs: seq<Phdr>, v: nat)
    requires SameLayout(sp1, sp2) && sp1.lo <= v
    requires forall p :: p in phdrs && IsLoad(p) ==> Above(sp1, p) && Above(sp2, p)
    ensures Image(sp1, file, phdrs, Addr(sp1, v)) == Image(sp2, file, phdrs, Addr(sp2, v))
  {
    if phdrs != [] {
      var n := |phdrs| - 1;
      ImageMoves(sp1, sp2, file, phdrs[..n], v);
      if IsLoad(phdrs[n]) {
        PlaceMoves(sp1, sp2, file, phdrs[n], v);
        var before1, before2 := Places(sp1, phdrs[..n]), Places(sp2, phdrs[..n]);
        assert Places(sp1, phdrs)[..|before1|] == before1;
        assert Places(sp2, phdrs)[..|before2|] == before2;
      }
    }
  }

  lemma PlaceMoves(sp1: Span, sp2: Span, file: seq<Byte>, p: Phdr, v: nat)
    requires SameLayout(sp1, sp2) && sp1.lo <= v && Above(sp1, p) && Above(sp2, p)
    ensures forall c: Cell :: AfterPlace(c, file, PlaceOf(sp1, p), Addr(sp1, v)) == AfterPlace(c, file, PlaceOf(sp2, p), Addr(sp2, v))
  {
    hide PageDown, PageUp;
    RoundedAddress(sp1, p.vaddr);
    RoundedAddress(sp2, p.vaddr);
    RoundedAddress(sp1, p.vaddr + p.filesz);
    RoundedAddress(sp2, p.vaddr + p.filesz);
    RoundedAddress(sp1, p.vaddr + p.memsz);
    RoundedAddress(sp2, p.vaddr + p.memsz);
  }

  /** One finished load: the reserved and mapped space, the relocated space, and what is assumed of them. */
  ghost predicate Loaded(c: Context, sp: Span, phdrs: seq<Phdr>, items: seq<Item>, mapped: Space, relocated: Space)
    requires forall p :: p in phdrs && IsLoad(p) ==> Above(sp, p)
  {
    ValidSpan(c.abi, sp) &&
    (forall a: nat :: InRange(a, sp.base, sp.size) ==> mapped(a) == Image(sp, c.file, phdrs, a)) &&
    Applied(c, Bias(c.abi, sp), mapped, items, relocated) &&
    NonOverlapping(c, Bias(c.abi, sp), items) &&
    forall j :: 0 <= j < |items| ==> TargetInSpan(c.abi, sp, items[j])
  }

  function Bias(abi: Abi, sp: Span): nat {
    Wrap(abi, sp.base - sp.lo)
  }

  /** Every byte of the span stays mapped up to relocation. */
  lemma {:induction false} ImageMapped(sp: Span, file: seq<Byte>, places: seq<Place>, a: nat)
    ensures AfterPlaces(Mapped(0, NO_ACCESS), file, places, a).Mapped?
  {
    if places != [] {
      ImageMapped(sp, file, places[..|places| - 1], a);
    }
  }

  lemma TargetAddress(c: Context, sp: Span, it: Item)
    requires ValidSpan(c.abi, sp) && TargetInSpan(c.abi, sp, it)
    ensures Target(c, Bias(c.abi, sp), it) == Addr(sp, it.r.offset)
  {
    hide PageDown;
    BiasedAddress(c.abi, sp, it.r.offset);
  }

  /** The relocated word of one entry, in terms of the mapped image. */
  lemma LoadedWord(c: Context, sp: Span, phdrs: seq<Phdr>, items: seq<Item>, mapped: Space, relocated: Space, j: nat)
    requires forall p :: p in phdrs && IsLoad(p) ==> Above(sp, p)
    requires Loaded(c, sp, phdrs, items, mapped, relocated) && j < |items|
    ensures sp.lo <= items[j].r.offset
    ensures var a := Addr(sp, items[j].r.offset);
            NewWord(c, Bias(c.abi, sp), items[j], WordIn(mapped, a, WordBytes(c.abi)))
            == Some(WordIn(relocated, a, WordBytes(c.abi)))
  {
    hide Wrap, Resolve, WordFor, WordIn, Apply;
    var bias, w := Bias(c.abi, sp), WordBytes(c.abi);
    TargetAddress(c, sp, items[j]);
    var a := Addr(sp, items[j].r.offset);
    forall x: nat | InRange(x, a, w)
      ensures mapped(x).Mapped?
    {
      ImageMapped(sp, c.file, Places(sp, phdrs), x);
      assert InRange(x, sp.base, sp.size);
    }
    TargetWord(c, bias, mapped, items, j);
    SameWord(relocated, Apply(c, bias, mapped, items).value, a, w);
  }

  /**
   Loading the same file at two bases gives images that differ only at RELATIVE
   and locally defined symbol targets, and there by the difference of the load
   biases unless the symbol's address wraps to zero; the words of external symbols
   are equal.
   */
  lemma RebasedTargets(c: Context, sp1: Span, sp2: Span, phdrs: seq<Phdr>, items: seq<Item>,
                       m1: Space, r1: Space, m2: Space, r2: Space, j: nat)
    requires SameLayout(sp1, sp2) && forall p :: p in phdrs && IsLoad(p) ==> Above(sp1, p) && Above(sp2, p)
    requires Loaded(c, sp1, phdrs, items, m1, r1) && Loaded(c, sp2, phdrs, items, m2, r2) && j < |items|
    ensures sp1.lo <= items[j].r.offset
    ensures var w1 := WordIn(r1, Addr(sp1, items[j].r.offset), WordBytes(c.abi));
            var w2 := WordIn(r2, Addr(sp2, items[j].r.offset), WordBytes(c.abi));
            Rebased(c, Bias(c.abi, sp1), Bias(c.abi, sp2), items[j], w1, w2)
  {
    hide Wrap, Resolve, WordFor, WordIn, Apply, BytesIn;
    var w, off := WordBytes(c.abi), items[j].r.offset;
    LoadedWord(c, sp1, phdrs, items, m1, r1, j);
    LoadedWord(c, sp2, phdrs, items, m2, r2, j);
    SameOriginalWord(c, sp1, sp2, phdrs, m1, m2, off);
    RebasedWord(c, Bias(c.abi, sp1), Bias(c.abi, sp2), items[j], WordIn(m1, Addr(sp1, off), w));
  }

  lemma SameOriginalWord(c: Context, sp1: Span, sp2: Span, phdrs: seq<Phdr>, m1: Space, m2: Space, off: nat)
    requires SameLayout(sp1, sp2) && forall p :: p in phdrs && IsLoad(p) ==> Above(sp1, p) && Above(sp2, p)
    requires sp1.lo <= off && off + WordBytes(c.abi) <= sp1.lo + sp1.size
    requires forall a: nat :: InRange(a, sp1.base, sp1.size) ==> m1(a) == Image(sp1, c.file, phdrs, a)
    requires forall a: nat :: InRange(a, sp2.base, sp2.size) ==> m2(a) == Image(sp2, c.file, phdrs, a)
    ensures WordIn(m1, Addr(sp1, off), WordBytes(c.abi)) == WordIn(m2, Addr(sp2, off), WordBytes(c.abi))
  {
    hide Image;
    var w := WordBytes(c.abi);
    forall i | 0 <= i < w
      ensures BytesIn(m1, Addr(sp1, off), w)[i] == BytesIn(m2, Addr(sp2, off), w)[i]
    {
      ImageMoves(sp1, sp2, c.file, phdrs, off + i);
      assert InRange(Addr(sp1, off) + i, sp1.base, sp1.size) && InRange(Addr(sp2, off) + i, sp2.base, sp2.size);
    }
    assert BytesIn(m1, Addr(sp1, off), w) == BytesIn(m2, Addr(sp2, off), w);
  }

  /** Outside the targets the two images are the same, byte for byte and protection for protection. */
  lemma RebasedElsewhere(c: Context, sp1: Span, sp2: Span, phdrs: seq<Phdr>, items: seq<Item>,
                         m1: Space, r1: Space, m2: Space, r2: Space, v: nat)
    requires SameLayout(sp1, sp2) && forall p :: p in phdrs && IsLoad(p) ==> Above(sp1, p) && Above(sp2, p)
    requires Loaded(c, sp1, phdrs, items, m1, r1) && Loaded(c, sp2, phdrs, items, m2, r2)
    requires InRange(v, sp1.lo, sp1.size)
    requires forall j :: 0 <= j < |items| ==> !InRange(v, items[j].r.offset, WordBytes(c.abi))
    ensures r1(Addr(sp1, v)) == r2(Addr(sp2, v)) == Image(sp1, c.file, phdrs, Addr(sp1, v))
  {
    hide Wrap, Resolve, WordFor, WordIn, Apply, Image;
    ImageMoves(sp1, sp2, c.file, phdrs, v);
    OutsideInSpan(c, sp1, items, m1, r1, v);
    OutsideInSpan(c, sp2, items, m2, r2, v);
    assert InRange(Addr(sp1, v), sp1.base, sp1.size) && InRange(Addr(sp2, v), sp2.base, sp2.size);
  }

  /** Away from the targets a byte of the span is the mapped one, whatever was mapped. */
  lemma OutsideInSpan(c: Context, sp: Span, items: seq<Item>, mapped: Space, relocated: Space, v: nat)
    requires ValidSpan(c.abi, sp) && Applied(c, Bias(c.abi, sp), mapped, items, relocated) && sp.lo <= v
    requires forall j :: 0 <= j < |items| ==> TargetInSpan(c.abi, sp, items[j]) && !InRange(v, items[j].r.offset, WordBytes(c.abi))
    ensures relocated(Addr(sp, v)) == mapped(Addr(sp, v))
  {
    hide Wrap, Resolve, WordFor, WordIn, Apply;
    forall j | 0 <= j < |items|
      ensures !InTarget(c, Bias(c.abi, sp), items[j], Addr(sp, v))
    {
      TargetAddress(c, sp, items[j]);
    }
    OutsideTargets(c, Bias(c.abi, sp), mapped, items, Addr(sp, v));
  }
}
