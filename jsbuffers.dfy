/** The parts of JavaScript's ArrayBuffer, Uint8Array and DataView that the
    bid codec relies on, with buffers as byte strings. */
module JsBuffers {
  import opened Wrappers
  import opened Bytes

  /** The two exceptions the decoder can throw: a TypeError when it calls
      `map` on the null that `match` returns, and a RangeError when a
      DataView read runs past the end of its buffer. */
  datatype JsError = TypeError | RangeError

  /** `new ArrayBuffer(n)`: n zero bytes. */
  function Zeros(n: nat): (r: seq<byte>)
    ensures |r| == n && forall i :: 0 <= i < n ==> r[i] == 0
  {
    seq(n, _ => 0)
  }

  /** `slice(start, end)` on a Uint8Array or an ArrayBuffer, for non-negative
      bounds: both are clamped to the length, and an empty range gives an
      empty buffer. */
  function Slice(buf: seq<byte>, start: nat, end: nat): (r: seq<byte>)
    ensures start <= end <= |buf| ==> r == buf[start..end]
    ensures |buf| <= start ==> r == []
    ensures start <= |buf| <= end ==> r == buf[start..]
  {
    var s := if start < |buf| then start else |buf|;
    var e := if end < |buf| then end else |buf|;
    if e <= s then [] else buf[s..e]
  }

  /** `view.setBigUint64(offset, v)` on a buffer big enough for the write:
      v is first reduced modulo 2^64 (ToBigUint64), then written as 8 bytes,
      most significant first; nothing else in the buffer changes. */
  function SetBigUint64(buf: seq<byte>, offset: nat, v: int): (r: seq<byte>)
    requires offset + 8 <= |buf|
    ensures |r| == |buf|
    ensures forall i :: 0 <= i < |buf| && !(offset <= i < offset + 8) ==> r[i] == buf[i]
    ensures r[offset..offset + 8] == BeBytes(v % TWO_64, 8)
  {
    var r := buf[..offset] + BeBytes(v % TWO_64, 8) + buf[offset + 8..];
    assert r[offset..offset + 8] == BeBytes(v % TWO_64, 8);
    r
  }

  /** The same write, in place on an array, as the DataView performs it on
      the ArrayBuffer it views. */
  method SetBigUint64At(buf: array<byte>, offset: nat, v: int)
    requires offset + 8 <= buf.Length
    modifies buf
    ensures buf[..] == SetBigUint64(old(buf[..]), offset, v)
  {
    var bytes := BeBytes(v % TWO_64, 8);
    forall i | offset <= i < offset + 8 {
      buf[i] := bytes[i - offset];
    }
  }

  /** `view.getBigUint64(offset)`: the 8 bytes from offset read big-endian,
      or a RangeError when they are not all inside the buffer. */
  function GetBigUint64(buf: seq<byte>, offset: nat): (r: Result<nat, JsError>)
    ensures r.Ok? <==> offset + 8 <= |buf|
    ensures r.Err? ==> r.error == RangeError
    ensures r.Ok? ==> r.value < TWO_64
  {
    Pow256Eight();
    if offset + 8 > |buf| then Err(RangeError) else Ok(BeValue(buf[offset..offset + 8]))
  }
}
