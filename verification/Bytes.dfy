/** Bytes, big-endian fields and copying into buffers. */
module Bytes {
  type byte = b: int | 0 <= b < 256

  /** htons: the two bytes of a 16-bit field as they lie in memory. */
  function Be16(n: nat): (r: seq<byte>)
    ensures |r| == 2
  {
    [(n / 256) % 256, n % 256]
  }

  function FromBe16(b: seq<byte>): nat
    requires |b| == 2
  {
    b[0] as nat * 256 + b[1] as nat
  }

  lemma Be16ReadsBack(n: nat)
    requires n < 0x1_0000
    ensures FromBe16(Be16(n)) == n
  {
  }

  function Zeros(n: nat): (r: seq<byte>)
    ensures |r| == n && forall i :: 0 <= i < n ==> r[i] == 0
  {
    seq(n, _ => 0)
  }

  /** What is transferred of count bytes at an offset of a memory. */
  function Clamped(size: nat, offset: nat, count: nat): (r: nat)
    requires offset <= size
    ensures r <= count && offset + r <= size && (r < count ==> offset + r == size)
  {
    if offset + count > size then size - offset else count
  }

  /** Memory after count bytes were copied to an offset. */
  function Overlay(mem: seq<byte>, offset: nat, data: seq<byte>): (r: seq<byte>)
    requires offset + |data| <= |mem|
    ensures |r| == |mem|
    ensures forall i :: 0 <= i < |mem| ==>
              r[i] == if offset <= i < offset + |data| then data[i - offset] else mem[i]
  {
    mem[..offset] + data + mem[offset + |data|..]
  }

  /** memcpy into a buffer. */
  method Copy(buffer: array<byte>, offset: nat, data: seq<byte>)
    requires offset + |data| <= buffer.Length
    modifies buffer
    ensures buffer[..] == Overlay(old(buffer[..]), offset, data)
  {
    var k := 0;
    while k < |data|
      invariant k <= |data|
      invariant forall i :: 0 <= i < buffer.Length ==>
                  buffer[i] == if offset <= i < offset + k then data[i - offset] else old(buffer[i])
    {
      buffer[offset + k] := data[k];
      k := k + 1;
    }
  }

  lemma Regroup<T>(a: seq<T>, b: seq<T>, c: seq<T>)
    ensures a + b + c == a + (b + c)
  {
  }

  /** A buffer after a copy: what lies before the copied bytes, those, and what lies behind them. */
  lemma OverlayParts(mem: seq<byte>, offset: nat, piece: seq<byte>, from: nat, to: nat)
    requires offset + |piece| <= to <= |mem| && from <= offset + |piece|
    ensures from <= offset ==> Overlay(mem, offset, piece)[from..offset + |piece|] == mem[from..offset] + piece
    ensures Overlay(mem, offset, piece)[offset..to] == piece + mem[offset + |piece|..to]
    ensures Overlay(mem, offset, piece)[to..] == mem[to..]
    ensures Overlay(mem, offset, piece)[offset + |piece|..] == mem[offset..][|piece|..]
  {
  }
}
