/**
 Recompaction of libc's atexit table in place, and the page arithmetic around it
 (loader/src/injector/atexit.cpp, loader/src/include/atexit.hpp).
 */
module Atexit {
  import opened Options
  import opened Abis
  import opened Pages

  /** `fn` 0 is a null callback: the entry has been run and removed. */
  datatype Entry = Entry(fn: nat, arg: nat, dso: nat)

  const NULL_ENTRY := Entry(0, 0, 0)

  /** The byte at which entry `idx` begins: three words each. */
  function ByteOf(abi: Abi, idx: nat): nat {
    if Is64(abi) then idx * 24 else idx * 12
  }

  function PageEndOfIndex(abi: Abi, page: nat, idx: nat): nat
    requires page > 0
  {
    PageUp(ByteOf(abi, idx), page)
  }

  /** The entries that are kept. */
  function NonNull(s: seq<Entry>): seq<Entry> {
    if s == [] then [] else (if s[0].fn != 0 then [s[0]] else []) + NonNull(s[1..])
  }

  lemma {:induction false} NonNullConcat(a: seq<Entry>, b: seq<Entry>)
    ensures NonNull(a + b) == NonNull(a) + NonNull(b)
  {
    if a == [] {
      assert a + b == b;
    } else {
      assert (a + b)[1..] == a[1..] + b;
      NonNullConcat(a[1..], b);
    }
  }

  lemma NonNullAppend(s: seq<Entry>, k: nat)
    requires k < |s|
    ensures NonNull(s[..k + 1]) == NonNull(s[..k]) + (if s[k].fn != 0 then [s[k]] else [])
  {
    assert s[..k + 1] == s[..k] + [s[k]];
    NonNullConcat(s[..k], [s[k]]);
    assert NonNull([s[k]]) == (if s[k].fn != 0 then [s[k]] else []) + NonNull([]);
  }

  lemma {:induction false} NonNullLength(s: seq<Entry>)
    ensures |NonNull(s)| <= |s| && forall e :: e in NonNull(s) ==> e.fn != 0
  {
    if s != [] {
      NonNullLength(s[1..]);
    }
  }

  /** Every entry with a callback is kept, behind exactly those that stood before it. */
  lemma KeptInOrder(s: seq<Entry>, k: nat)
    requires k < |s| && s[k].fn != 0
    ensures |NonNull(s[..k])| < |NonNull(s)| && NonNull(s)[|NonNull(s[..k])|] == s[k]
  {
    NonNullAppend(s, k);
    assert s == s[..k + 1] + s[k + 1..];
    NonNullConcat(s[..k + 1], s[k + 1..]);
  }

  lemma {:induction false} NonNullIsIdempotent(s: seq<Entry>)
    requires forall i :: 0 <= i < |s| ==> s[i].fn != 0
    ensures NonNull(s) == s
  {
    if s != [] {
      NonNullIsIdempotent(s[1..]);
    }
  }

  /** The table's fields, with the slots of its first `size` entries. */
  datatype Table = Table(entries: seq<Entry>, extracted: nat, totalAppends: nat)

  function Recompacted(t: Table): Table {
    var kept := NonNull(t.entries);
    Table(kept, 0, |kept|)
  }

  /** The page range given to madvise: what the table no longer reaches. */
  function Discarded(abi: Abi, page: nat, size: nat, kept: nat): Option<(nat, nat)>
    requires page > 0
  {
    var newBytes, oldBytes := PageEndOfIndex(abi, page, kept), PageEndOfIndex(abi, page, size);
    if newBytes < oldBytes then Some((newBytes, oldBytes - newBytes)) else None
  }

  predicate NeedsRecompaction(abi: Abi, page: nat, t: Table)
    requires page > 0 && t.extracted <= |t.entries|
  {
    PageEndOfIndex(abi, page, |t.entries| - t.extracted) < PageEndOfIndex(abi, page, |t.entries|)
  }

  /** A second recompaction changes nothing and discards nothing. */
  lemma RecompactionIsIdempotent(abi: Abi, page: nat, t: Table)
    requires page > 0
    ensures Recompacted(Recompacted(t)) == Recompacted(t)
    ensures Discarded(abi, page, |Recompacted(t).entries|, |Recompacted(Recompacted(t)).entries|) == None
  {
    NonNullLength(t.entries);
    NonNullIsIdempotent(NonNull(t.entries));
  }

  /** The discarded pages hold no byte of an entry that is kept, and lie within the pages of the old table. */
  lemma DiscardsNoKeptByte(abi: Abi, page: nat, t: Table, k: nat, byte: nat)
    requires page > 0
    requires k < |Recompacted(t).entries| && ByteOf(abi, k) <= byte < ByteOf(abi, k + 1)
    ensures var d := Discarded(abi, page, |t.entries|, |Recompacted(t).entries|);
            d.Some? ==> byte < d.value.0 && d.value.0 + d.value.1 == PageEndOfIndex(abi, page, |t.entries|)
  {
  }

  /**
   needs_recompaction, which is only logged, predicts whether pages are given back
   whenever extracted_count_ is the number of null entries.
   */
  lemma NeedsExactlyWhenDiscarding(abi: Abi, page: nat, t: Table)
    requires page > 0 && t.extracted <= |t.entries| && |NonNull(t.entries)| == |t.entries| - t.extracted
    ensures NeedsRecompaction(abi, page, t) <==> Discarded(abi, page, |t.entries|, |Recompacted(t).entries|).Some?
  {
  }

  class AtexitArray {
    const entries: array<Entry>
    var size: nat
    var extractedCount: nat
    var totalAppends: nat

    ghost predicate Valid()
      reads this
    {
      size <= entries.Length
    }

    ghost function View(): Table
      requires Valid()
      reads this, entries
    {
      Table(entries[..size], extractedCount, totalAppends)
    }

    constructor (existing: array<Entry>, n: nat, extracted: nat, appends: nat)
      requires n <= existing.Length
      ensures Valid() && entries == existing && View() == Table(existing[..n], extracted, appends)
    {
      entries := existing;
      size := n;
      extractedCount := extracted;
      totalAppends := appends;
    }

    /** Skips the leading entries that are kept, then shifts the others forward and clears what they leave. */
    method ShiftEntries() returns (dst: nat)
      requires Valid()
      modifies entries
      ensures dst <= size && entries[..dst] == NonNull(old(entries[..size]))
      ensures forall i :: dst <= i < size ==> entries[i] == NULL_ENTRY
      ensures forall i :: size <= i < entries.Length ==> entries[i] == old(entries[i])
    {
      hide NonNull;
      ghost var was := entries[..size];
      NonNullEmpty();
      var src: nat := 0;
      dst := 0;
      while src < size && entries[src].fn != 0
        invariant src == dst <= size
        invariant forall i :: 0 <= i < entries.Length ==> entries[i] == old(entries[i])
        invariant NonNull(was[..src]) == was[..src]
      {
        NonNullAppend(was, src);
        assert was[..src] + [was[src]] == was[..src + 1];
        src, dst := src + 1, dst + 1;
      }
      while src < size
        invariant dst <= src <= size
        invariant entries[..dst] == NonNull(was[..src])
        invariant forall i :: dst <= i < src ==> entries[i] == NULL_ENTRY
        invariant forall i :: src <= i < entries.Length ==> entries[i] == old(entries[i])
      {
        var entry := entries[src];
        assert entry == was[src];
        NonNullAppend(was, src);
        ghost var front := entries[..dst];
        entries[src] := NULL_ENTRY;
        assert entries[..dst] == front;
        if entry.fn != 0 {
          entries[dst] := entry;
          dst := dst + 1;
          assert entries[..dst] == front + [entry];
        }
        src := src + 1;
      }
      assert was[..src] == was;
    }

    /** Moves the entries that are kept to the front in one pass; answers the pages it gives back. */
    method Recompact(abi: Abi, page: nat) returns (discarded: Option<(nat, nat)>)
      requires Valid() && page > 0
      modifies this, entries
      ensures Valid() && View() == Recompacted(old(View())) && size <= old(size)
      ensures forall i :: size <= i < old(size) ==> entries[i] == NULL_ENTRY
      ensures forall i :: old(size) <= i < entries.Length ==> entries[i] == old(entries[i])
      ensures discarded == Discarded(abi, page, old(size), size)
    {
      hide NonNull, PageEndOfIndex;
      var dst := ShiftEntries();
      discarded := None;
      var oldBytes, newBytes := PageEndOfIndex(abi, page, size), PageEndOfIndex(abi, page, dst);
      if newBytes < oldBytes {
        discarded := Some((newBytes, oldBytes - newBytes));
      }
      size := dst;
      extractedCount := 0;
      totalAppends := size;
    }
  }

  lemma NonNullEmpty()
    ensures NonNull([]) == []
  {
  }
}
