/** The conventional Some/None datatype. */
module Options {
  datatype Option<+T> = None | Some(value: T)
}

/**
 Bytes and little-endian machine words, the encoding of every ELF table and of
 every word the loader patches in the tracee.
 */
module Words {
  import opened Options

  type Byte = x: int | 0 <= x < 256

  function Pow256(n: nat): (r: nat)
    ensures r > 0
  {
    if n == 0 then 1 else 256 * Pow256(n - 1)
  }

  /** The `n` low bytes of `v`, least significant first. */
  function LeBytes(v: nat, n: nat): (r: seq<Byte>)
    ensures |r| == n
  {
    if n == 0 then [] else [v % 256] + LeBytes(v / 256, n - 1)
  }

  function LeValue(bytes: seq<Byte>): (r: nat)
    ensures r < Pow256(|bytes|)
  {
    if bytes == [] then 0 else bytes[0] + 256 * LeValue(bytes[1..])
  }

  lemma {:induction false} ValueOfBytes(v: nat, n: nat)
    requires v < Pow256(n)
    ensures LeValue(LeBytes(v, n)) == v
  {
    if n > 0 {
      ValueOfBytes(v / 256, n - 1);
      assert LeBytes(v, n)[1..] == LeBytes(v / 256, n - 1);
    }
  }

  lemma SplitByte(low: Byte, high: nat)
    ensures (low + 256 * high) % 256 == low && (low + 256 * high) / 256 == high
  {
  }

  lemma {:induction false} BytesOfValue(bytes: seq<Byte>)
    ensures LeBytes(LeValue(bytes), |bytes|) == bytes
  {
    if bytes != [] {
      BytesOfValue(bytes[1..]);
      var high := LeValue(bytes[1..]);
      SplitByte(bytes[0], high);
      calc {
        LeBytes(LeValue(bytes), |bytes|);
        [(bytes[0] + 256 * high) % 256] + LeBytes((bytes[0] + 256 * high) / 256, |bytes| - 1);
        [bytes[0]] + LeBytes(high, |bytes| - 1);
        [bytes[0]] + bytes[1..];
      }
    }
  }

  /** `pread_full` of one word: fails when the file ends first. */
  function ReadWord(file: seq<Byte>, off: nat, len: nat): (r: Option<nat>)
    ensures r.Some? <==> off + len <= |file|
    ensures r.Some? ==> r.value < Pow256(len)
  {
    if off + len <= |file| then Some(LeValue(file[off..off + len])) else None
  }
}

/** NUL-terminated strings inside a string table; a char stands for a byte. */
module CStrings {

  /** The C string at the front of `s`. */
  function CString(s: string): string {
    if s == [] || s[0] == '\0' then [] else [s[0]] + CString(s[1..])
  }
}

/** The four ABIs the loader is built for, and address arithmetic modulo their word. */
module Abis {
  import opened Words

  datatype Abi = AArch64 | X86_64 | Arm | I386

  predicate Is64(abi: Abi) {
    abi.AArch64? || abi.X86_64?
  }

  function WordBytes(abi: Abi): nat {
    if Is64(abi) then 8 else 4
  }

  /** One past the largest address. */
  function Modulus(abi: Abi): nat {
    if Is64(abi) then 0x1_0000_0000_0000_0000 else 0x1_0000_0000
  }

  /** Unsigned wrap-around of an address computation. */
  function Wrap(abi: Abi, x: int): (r: nat)
    ensures r < Modulus(abi)
    ensures 0 <= x < Modulus(abi) ==> r == x
  {
    if Is64(abi) then x % 0x1_0000_0000_0000_0000 else x % 0x1_0000_0000
  }

  lemma ModulusIsWord(abi: Abi)
    ensures Modulus(abi) == Pow256(WordBytes(abi))
  {
    assert Pow256(2) == 0x1_0000;
    assert Pow256(4) == 0x1_0000_0000;
    assert Pow256(6) == 0x1_0000_0000_0000;
    assert Pow256(8) == 0x1_0000_0000_0000_0000;
  }
}
