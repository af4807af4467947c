/** The byte buffer that the code emitters fill through a moving offset, and the
frontend-entry stub every emitted program starts with.
*/
module Emitter {
  import opened Words
  import opened Encoders

  /** xor r13,r13 and mov r15d,imm32, then the four-byte PENTER control. */
  const PENTER_BYTES: nat := 13

  function EntryAlignment(frontend: u32): nat {
    if frontend == FRONTEND_AARCH64 || frontend == FRONTEND_RISCV then 4 else 1
  }

  /** The stub size predicted at an offset; it includes the padding before the stub. */
  function PenterSizeAt(offset: nat, frontend: u32): nat {
    var align := EntryAlignment(frontend);
    var target := offset + PENTER_BYTES;
    PENTER_BYTES + (if align > 1 then (align - target % align) % align else 0)
  }

  function Nops(n: nat): (b: seq<u8>)
    ensures |b| == n
  {
    seq(n, _ => 0x90)
  }

  function PenterBytes(offset: nat, frontend: u32): seq<u8> {
    Nops(PenterSizeAt(offset, frontend) - PENTER_BYTES)
    + [0x4d, 0x31, 0xed, 0x41, 0xbf] + Bytes32(frontend) + [0x0f, 0x3a, 0xfc, 0x03]
  }

  /** The code after the stub is aligned for its frontend, and no shorter padding would
      align it; the emitted stub has exactly the predicted size. */
  lemma PenterPaddingIsLeast(offset: nat, frontend: u32, pad: nat)
    ensures |PenterBytes(offset, frontend)| == PenterSizeAt(offset, frontend)
    ensures (offset + PenterSizeAt(offset, frontend)) % EntryAlignment(frontend) == 0
    ensures (offset + pad + PENTER_BYTES) % EntryAlignment(frontend) == 0
            ==> PenterSizeAt(offset, frontend) <= pad + PENTER_BYTES
  {
  }

  function MovAbsBytes(rd: nat, value: u64): (b: seq<u8>)
    requires rd < 32
    ensures |b| == 16
  {
    var ws := Aarch64MovAbs(rd, value);
    Bytes32(ws[0]) + Bytes32(ws[1]) + Bytes32(ws[2]) + Bytes32(ws[3])
  }

  lemma Regroup(done: seq<u8>, b: u8, rest: seq<u8>)
    ensures done + ([b] + rest) == done + [b] + rest
  {
  }

  class CodeBuffer {
    const bytes: array<u8>
    var offset: nat

    ghost predicate Valid()
      reads this
    {
      offset <= bytes.Length
    }

    ghost function Emitted(): seq<u8>
      requires Valid()
      reads this, bytes
    {
      bytes[..offset]
    }

    /** A fresh anonymous mapping: all bytes zero. */
    constructor (size: nat)
      ensures Valid() && fresh(bytes) && offset == 0 && bytes.Length == size
      ensures forall i :: 0 <= i < size ==> bytes[i] == 0
    {
      bytes := new u8[size](_ => 0);
      offset := 0;
    }

    method EmitByte(b: u8)
      requires Valid() && offset < bytes.Length
      modifies this, bytes
      ensures Valid() && offset == old(offset) + 1
      ensures Emitted() == old(Emitted()) + [b]
      ensures forall i :: offset <= i < bytes.Length ==> bytes[i] == old(bytes[i])
    {
      bytes[offset] := b;
      offset := offset + 1;
    }

    method EmitU32(value: u32)
      requires Valid() && offset + 4 <= bytes.Length
      modifies this, bytes
      ensures Valid() && offset == old(offset) + 4
      ensures Emitted() == old(Emitted()) + Bytes32(value)
      ensures forall i :: offset <= i < bytes.Length ==> bytes[i] == old(bytes[i])
    {
      EmitByte(value % 256);
      EmitByte(value / 0x100 % 256);
      EmitByte(value / 0x1_0000 % 256);
      EmitByte(value / 0x100_0000 % 256);
    }

    method EmitU64(value: u64)
      requires Valid() && offset + 8 <= bytes.Length
      modifies this, bytes
      ensures Valid() && offset == old(offset) + 8
      ensures Emitted() == old(Emitted()) + BytesOf(value, 8)
      ensures forall i :: offset <= i < bytes.Length ==> bytes[i] == old(bytes[i])
    {
      hide BytesOf;
      var rest: nat := value;
      ghost var goal := Emitted() + BytesOf(value, 8);
      for n := 0 to 8
        invariant Valid() && offset == old(offset) + n
        invariant goal == Emitted() + BytesOf(rest, 8 - n)
        invariant forall i :: offset <= i < bytes.Length ==> bytes[i] == old(bytes[i])
      {
        BytesOfSplit(rest, 8 - n);
        Regroup(Emitted(), rest % 256, BytesOf(rest / 256, 7 - n));
        EmitByte(rest % 256);
        rest := rest / 256;
      }
      assert Emitted() + BytesOf(rest, 0) == Emitted();
    }

    method EmitPadding(count: nat, b: u8)
      requires Valid() && offset + count <= bytes.Length
      modifies this, bytes
      ensures Valid() && offset == old(offset) + count
      ensures Emitted() == old(Emitted()) + seq(count, _ => b)
      ensures forall i :: offset <= i < bytes.Length ==> bytes[i] == old(bytes[i])
    {
      for n := 0 to count
        invariant Valid() && offset == old(offset) + n
        invariant Emitted() == old(Emitted()) + seq(n, _ => b)
        invariant forall i :: offset <= i < bytes.Length ==> bytes[i] == old(bytes[i])
      {
        EmitByte(b);
      }
    }

    method EmitBytes(input: seq<u8>)
      requires Valid() && offset + |input| <= bytes.Length
      modifies this, bytes
      ensures Valid() && offset == old(offset) + |input|
      ensures Emitted() == old(Emitted()) + input
      ensures forall i :: offset <= i < bytes.Length ==> bytes[i] == old(bytes[i])
    {
      for n := 0 to |input|
        invariant Valid() && offset == old(offset) + n
        invariant Emitted() == old(Emitted()) + input[..n]
        invariant forall i :: offset <= i < bytes.Length ==> bytes[i] == old(bytes[i])
      {
        EmitByte(input[n]);
      }
    }

    method EmitPenter(frontend: u32)
      requires Valid() && offset + PenterSizeAt(offset, frontend) <= bytes.Length
      modifies this, bytes
      ensures Valid() && offset == old(offset + PenterSizeAt(offset, frontend))
      ensures Emitted() == old(Emitted()) + old(PenterBytes(offset, frontend))
      ensures forall i :: offset <= i < bytes.Length ==> bytes[i] == old(bytes[i])
    {
      EmitPadding(PenterSizeAt(offset, frontend) - PENTER_BYTES, 0x90);
      EmitBytes([0x4d, 0x31, 0xed, 0x41, 0xbf]);
      EmitU32(frontend);
      EmitBytes([0x0f, 0x3a, 0xfc, 0x03]);
    }

    method EmitMovAbs(rd: nat, value: u64)
      requires Valid() && offset + 16 <= bytes.Length && rd < 32
      modifies this, bytes
      ensures Valid() && offset == old(offset) + 16
      ensures Emitted() == old(Emitted()) + MovAbsBytes(rd, value)
      ensures forall i :: offset <= i < bytes.Length ==> bytes[i] == old(bytes[i])
    {
      var words := Aarch64MovAbs(rd, value);
      EmitU32(words[0]);
      EmitU32(words[1]);
      EmitU32(words[2]);
      EmitU32(words[3]);
    }

    /** Overwrites one word in place; the offset does not move. */
    method StoreU32(at: nat, value: u32)
      requires Valid() && at + 4 <= offset
      modifies bytes
      ensures bytes[..] == old(bytes[..at]) + Bytes32(value) + old(bytes[at + 4..])
      ensures Emitted() == old(Emitted())[..at] + Bytes32(value) + old(Emitted())[at + 4..]
      ensures forall i :: offset <= i < bytes.Length ==> bytes[i] == old(bytes[i])
    {
      bytes[at] := value % 256;
      bytes[at + 1] := value / 0x100 % 256;
      bytes[at + 2] := value / 0x1_0000 % 256;
      bytes[at + 3] := value / 0x100_0000 % 256;
    }
  }
}
