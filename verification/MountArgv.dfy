/**
 The mount argument block that init leaves on the stack zygote inherits
 (MountArgv in loader/src/injector/fossil.cpp): writing it, and parsing it back.
 */
module MountArgv {
  import opened Options
  import opened Words

  datatype Argv = Argv(source: seq<Byte>, target: seq<Byte>, fsType: seq<Byte>, mountOptions: seq<Byte>, baseFlags: nat)

  const FLAG_BYTES: nat := 4

  /** The block: four strings with their terminators, and the flags. */
  function Block(a: Argv): seq<Byte> {
    (a.source + [0]) + (a.target + [0]) + (a.fsType + [0]) + (a.mountOptions + [0]) + LeBytes(a.baseFlags, FLAG_BYTES)
  }

  /** m_fossil_size of the second constructor. */
  function FossilSize(a: Argv): nat {
    (|a.source| + 1) + (|a.target| + 1) + (|a.fsType| + 1) + (|a.mountOptions| + 1) + FLAG_BYTES
  }

  /** strnlen. */
  function StrNLen(mem: seq<Byte>, p: nat, limit: nat): (n: nat)
    requires p <= limit <= |mem|
    ensures p + n <= limit && (p + n < limit ==> mem[p + n] == 0) && forall k :: p <= k < p + n ==> mem[k] != 0
    decreases limit - p
  {
    if p == limit || mem[p] == 0 then 0 else 1 + StrNLen(mem, p + 1, limit)
  }

  /** parse_and_copy_string_field: the string at `p`, and the position behind its terminator. */
  function StringField(mem: seq<Byte>, p: nat, limit: nat): (r: Option<(seq<Byte>, nat)>)
    requires p <= limit <= |mem|
    ensures r.Some? ==> p < r.value.1 <= limit
  {
    var len := StrNLen(mem, p, limit);
    if len == limit - p then None else Some((mem[p..p + len], p + len + 1))
  }

  /** find_double_null, as the length of the remnants in front of it. */
  function Remnants(mem: seq<Byte>, p: nat, start: nat, limit: nat): nat
    requires start <= p <= limit <= |mem|
    decreases limit - p
  {
    if p + 1 >= limit then 0 else if mem[p] == 0 && mem[p + 1] == 0 then p - start else Remnants(mem, p + 1, start, limit)
  }

  datatype Fossil = Fossil(argv: Argv, fossilSize: nat, remnantSize: nat)

  /** parseFromMemory; None stands for an invalid object. */
  function Parse(mem: seq<Byte>, start: nat, limit: nat): Option<Fossil>
    requires limit <= |mem|
  {
    if start >= limit then None
    else
      var source := StringField(mem, start, limit);
      if source.None? then None
      else
        var target := StringField(mem, source.value.1, limit);
        if target.None? then None
        else
          var fsType := StringField(mem, target.value.1, limit);
          if fsType.None? then None
          else
            var options := StringField(mem, fsType.value.1, limit);
            if options.None? then None
            else
              var p := options.value.1;
              if p + FLAG_BYTES > limit then None
              else
                var end := p + FLAG_BYTES;
                Some(Fossil(Argv(source.value.0, target.value.0, fsType.value.0, options.value.0, LeValue(mem[p..end])),
                            end - start, Remnants(mem, end, end, limit)))
  }

  predicate NulFree(s: seq<Byte>) {
    0 !in s
  }

  predicate AllNulFree(a: Argv) {
    NulFree(a.source) && NulFree(a.target) && NulFree(a.fsType) && NulFree(a.mountOptions)
  }

  /** `bytes` stand at `p`. */
  ghost predicate At(mem: seq<Byte>, p: nat, bytes: seq<Byte>) {
    p + |bytes| <= |mem| && mem[p..p + |bytes|] == bytes
  }

  lemma AtSplit(mem: seq<Byte>, p: nat, a: seq<Byte>, b: seq<Byte>)
    requires At(mem, p, a + b)
    ensures At(mem, p, a) && At(mem, p + |a|, b)
  {
    var s := mem[p..p + |a + b|];
    assert mem[p..p + |a|] == s[..|a|] && (a + b)[..|a|] == a;
    assert mem[p + |a|..p + |a| + |b|] == s[|a|..] && (a + b)[|a|..] == b;
  }

  lemma {:induction false} StrNLenIs(mem: seq<Byte>, p: nat, limit: nat, n: nat)
    requires p + n < limit <= |mem| && mem[p + n] == 0 && forall k :: p <= k < p + n ==> mem[k] != 0
    ensures StrNLen(mem, p, limit) == n
    decreases n
  {
    if n > 0 {
      StrNLenIs(mem, p + 1, limit, n - 1);
    }
  }

  /** A terminated string without a NUL inside is read back, when it lies below the limit. */
  lemma StringFieldAt(mem: seq<Byte>, p: nat, limit: nat, s: seq<Byte>)
    requires At(mem, p, s + [0]) && p + |s| < limit <= |mem| && NulFree(s)
    ensures StringField(mem, p, limit) == Some((s, p + |s| + 1))
  {
    AtSplit(mem, p, s, [0]);
    assert mem[p + |s|] == mem[p + |s|..p + |s| + 1][0];
    forall k | p <= k < p + |s| ensures mem[k] != 0 {
      assert mem[k] == mem[p..p + |s|][k - p];
    }
    StrNLenIs(mem, p, limit, |s|);
  }

  lemma Associate(a: seq<Byte>, b: seq<Byte>, c: seq<Byte>, d: seq<Byte>, e: seq<Byte>)
    ensures a + b + c + d + e == a + (b + (c + (d + e)))
  {
  }

  /** The positions at which the parts of a block begin. */
  lemma BlockParts(mem: seq<Byte>, start: nat, a: Argv)
    requires At(mem, start, Block(a))
    ensures |Block(a)| == FossilSize(a)
    ensures var p1 := start + |a.source| + 1;
            var p2 := p1 + |a.target| + 1;
            var p3 := p2 + |a.fsType| + 1;
            var p4 := p3 + |a.mountOptions| + 1;
            At(mem, start, a.source + [0]) && At(mem, p1, a.target + [0]) && At(mem, p2, a.fsType + [0]) &&
            At(mem, p3, a.mountOptions + [0]) && At(mem, p4, LeBytes(a.baseFlags, FLAG_BYTES))
  {
    hide At, LeBytes;
    var flags := LeBytes(a.baseFlags, FLAG_BYTES);
    var t3 := (a.mountOptions + [0]) + flags;
    var t2 := (a.fsType + [0]) + t3;
    var t1 := (a.target + [0]) + t2;
    Associate(a.source + [0], a.target + [0], a.fsType + [0], a.mountOptions + [0], flags);
    AtSplit(mem, start, a.source + [0], t1);
    AtSplit(mem, start + |a.source| + 1, a.target + [0], t2);
    AtSplit(mem, start + |a.source| + 1 + |a.target| + 1, a.fsType + [0], t3);
    AtSplit(mem, start + |a.source| + 1 + |a.target| + 1 + |a.fsType| + 1, a.mountOptions + [0], flags);
  }

  lemma FlagsRoundTrip(mem: seq<Byte>, p: nat, flags: nat)
    requires At(mem, p, LeBytes(flags, FLAG_BYTES)) && flags < 0x1_0000_0000
    ensures LeValue(mem[p..p + FLAG_BYTES]) == flags
  {
    assert Pow256(2) == 0x1_0000 && Pow256(4) == 0x1_0000_0000;
    ValueOfBytes(flags, FLAG_BYTES);
  }

  /** Parsing what was written gives back the fields and the size, when no field has a NUL and the block fits. */
  lemma ParseUndoesWrite(mem: seq<Byte>, start: nat, limit: nat, a: Argv)
    requires limit <= |mem| && At(mem, start, Block(a)) && a.baseFlags < 0x1_0000_0000
    requires AllNulFree(a) && start + FossilSize(a) <= limit
    ensures var end := start + FossilSize(a);
            Parse(mem, start, limit) == Some(Fossil(a, FossilSize(a), Remnants(mem, end, end, limit)))
  {
    hide StringField, At, LeBytes, LeValue, NulFree, Remnants;
    BlockParts(mem, start, a);
    var p1 := start + |a.source| + 1;
    var p2 := p1 + |a.target| + 1;
    var p3 := p2 + |a.fsType| + 1;
    StringFieldAt(mem, start, limit, a.source);
    StringFieldAt(mem, p1, limit, a.target);
    StringFieldAt(mem, p2, limit, a.fsType);
    StringFieldAt(mem, p3, limit, a.mountOptions);
    FlagsRoundTrip(mem, p3 + |a.mountOptions| + 1, a.baseFlags);
  }

  lemma StringFieldIsNulFree(mem: seq<Byte>, p: nat, limit: nat)
    requires p <= limit <= |mem|
    ensures var r := StringField(mem, p, limit); r.Some? ==> NulFree(r.value.0) && r.value.1 == p + |r.value.0| + 1
  {
  }

  /** Whatever memory holds, a valid parse has fields without NULs and lies below the limit. */
  lemma ParsedShape(mem: seq<Byte>, start: nat, limit: nat)
    requires limit <= |mem| && Parse(mem, start, limit).Some?
    ensures var f := Parse(mem, start, limit).value;
            AllNulFree(f.argv) && f.fossilSize == FossilSize(f.argv) && start + f.fossilSize <= limit
  {
    hide StringField, LeValue, NulFree, Remnants;
    var source := StringField(mem, start, limit).value;
    StringFieldIsNulFree(mem, start, limit);
    var target := StringField(mem, source.1, limit).value;
    StringFieldIsNulFree(mem, source.1, limit);
    var fsType := StringField(mem, target.1, limit).value;
    StringFieldIsNulFree(mem, target.1, limit);
    StringFieldIsNulFree(mem, fsType.1, limit);
  }

  /** The block is read back exactly when it has no NUL inside a field and lies below the limit. */
  lemma RoundTripExactlyWhen(mem: seq<Byte>, start: nat, limit: nat, a: Argv)
    requires limit <= |mem| && At(mem, start, Block(a)) && a.baseFlags < 0x1_0000_0000
    ensures (Parse(mem, start, limit).Some? && Parse(mem, start, limit).value.argv == a) <==>
            AllNulFree(a) && start + FossilSize(a) <= limit
  {
    hide Parse, At, Block, AllNulFree, FossilSize;
    if AllNulFree(a) && start + FossilSize(a) <= limit {
      ParseUndoesWrite(mem, start, limit, a);
    }
    if Parse(mem, start, limit).Some? {
      ParsedShape(mem, start, limit);
    }
  }

  // --- Writing ------------------------------------------------------------------------------------------

  /** memcpy. */
  method Copy(mem: array<Byte>, p: nat, bytes: seq<Byte>)
    requires p + |bytes| <= mem.Length
    modifies mem
    ensures mem[p..p + |bytes|] == bytes
    ensures forall k :: 0 <= k < mem.Length && !(p <= k < p + |bytes|) ==> mem[k] == old(mem[k])
  {
    for i := 0 to |bytes|
      invariant forall k :: 0 <= k < i ==> mem[p + k] == bytes[k]
      invariant forall k :: 0 <= k < mem.Length && !(p <= k < p + i) ==> mem[k] == old(mem[k])
    {
      mem[p + i] := bytes[i];
    }
  }

  /** Copies a string with its terminator behind what has been written since `start`; answers the next position. */
  method Append(mem: array<Byte>, start: nat, p: nat, bytes: seq<Byte>, ghost written: seq<Byte>) returns (q: nat)
    requires start <= p && p + |bytes| <= mem.Length && mem[start..p] == written
    modifies mem
    ensures q == p + |bytes| && mem[start..q] == written + bytes
    ensures forall k :: 0 <= k < mem.Length && !(start <= k < q) ==> mem[k] == old(mem[k])
  {
    Copy(mem, p, bytes);
    q := p + |bytes|;
    assert mem[start..q] == mem[start..p] + mem[p..q];
  }

  /** writeToMemory. */
  method WriteToMemory(mem: array<Byte>, start: nat, a: Argv)
    requires start + FossilSize(a) <= mem.Length
    modifies mem
    ensures mem[start..start + FossilSize(a)] == Block(a)
    ensures forall k :: 0 <= k < mem.Length && !(start <= k < start + FossilSize(a)) ==> mem[k] == old(mem[k])
  {
    hide LeBytes;
    ghost var w := mem[start..start];
    var p := Append(mem, start, start, a.source + [0], w);
    w := a.source + [0];
    p := Append(mem, start, p, a.target + [0], w);
    w := w + (a.target + [0]);
    p := Append(mem, start, p, a.fsType + [0], w);
    w := w + (a.fsType + [0]);
    p := Append(mem, start, p, a.mountOptions + [0], w);
    w := w + (a.mountOptions + [0]);
    p := Append(mem, start, p, LeBytes(a.baseFlags, FLAG_BYTES), w);
  }

  // --- Parsing ------------------------------------------------------------------------------------------

  /** parse_and_copy_string_field: scans for the terminator and copies what precedes it. */
  method ParseStringField(mem: seq<Byte>, p: nat, limit: nat) returns (r: Option<(seq<Byte>, nat)>)
    requires p <= limit <= |mem|
    ensures r == StringField(mem, p, limit)
  {
    var len := 0;
    while len < limit - p && mem[p + len] != 0
      invariant p + len <= limit && len + StrNLen(mem, p + len, limit) == StrNLen(mem, p, limit)
    {
      len := len + 1;
    }
    if len == limit - p {
      return None;
    }
    return Some((mem[p..p + len], p + len + 1));
  }

  predicate DoubleNull(mem: seq<Byte>, k: nat) {
    k + 1 < |mem| && mem[k] == 0 && mem[k + 1] == 0
  }

  method FindDoubleNull(mem: seq<Byte>, start: nat, limit: nat) returns (remnants: nat)
    requires start <= limit <= |mem|
    ensures remnants == Remnants(mem, start, start, limit)
    ensures remnants > 0 ==> start + remnants + 1 < limit && DoubleNull(mem, start + remnants)
    ensures forall k :: start <= k < start + remnants ==> !DoubleNull(mem, k)
  {
    var p := start;
    while p + 1 < limit
      invariant start <= p <= limit && Remnants(mem, p, start, limit) == Remnants(mem, start, start, limit)
      invariant forall k :: start <= k < p ==> !DoubleNull(mem, k)
    {
      if mem[p] == 0 && mem[p + 1] == 0 {
        return p - start;
      }
      p := p + 1;
    }
    return 0;
  }

  /** parseFromMemory. */
  method ParseFromMemory(mem: seq<Byte>, start: nat, limit: nat) returns (r: Option<Fossil>)
    requires limit <= |mem|
    ensures r == Parse(mem, start, limit)
  {
    hide StringField, Remnants, LeValue;
    if start >= limit {
      return None;
    }
    var source := ParseStringField(mem, start, limit);
    if source.None? {
      return None;
    }
    var target := ParseStringField(mem, source.value.1, limit);
    if target.None? {
      return None;
    }
    var fsType := ParseStringField(mem, target.value.1, limit);
    if fsType.None? {
      return None;
    }
    var options := ParseStringField(mem, fsType.value.1, limit);
    if options.None? || options.value.1 + FLAG_BYTES > limit {
      return None;
    }
    var end := options.value.1 + FLAG_BYTES;
    var flags := LeValue(mem[options.value.1..end]);
    var remnants := FindDoubleNull(mem, end, limit);
    return Some(Fossil(Argv(source.value.0, target.value.0, fsType.value.0, options.value.0, flags), end - start, remnants));
  }
}
