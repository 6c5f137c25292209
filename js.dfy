/** The few JavaScript runtime operations the host code relies on, over
    linear memory taken as a value: `DataView.getUint8`, `DataView.getUint32`
    (little-endian) and `Uint8Array.prototype.set`. Each throws a `RangeError`
    instead of reading or writing outside the buffer, which is modelled as
    a `Throw` result. */
module Js {
  import opened Bytes

  /** The exceptions the modelled code can raise. */
  datatype JsError =
    | RangeError  // a DataView or typed-array access outside the buffer
    | TypeError   // a call through `wasmExports` before it was set

  /** A value, or the exception that was thrown instead. */
  datatype Result<+T> = Ok(value: T) | Throw(error: JsError) {
    predicate IsFailure() {
      Throw?
    }

    function PropagateFailure<U>(): Result<U>
      requires Throw?
    {
      Throw(error)
    }

    function Extract(): T
      requires Ok?
    {
      value
    }
  }

  /** Whether the `width` bytes from `offset` on lie inside `buffer`; a
      negative offset never does. */
  predicate InRange(buffer: seq<byte>, offset: int, width: nat) {
    0 <= offset && offset + width <= |buffer|
  }

  /** `new DataView(buffer).getUint8(offset)`: the one-byte unsigned
      integer at `offset`, read by the same decoder as `getUint32`. */
  function GetUint8(buffer: seq<byte>, offset: int): (r: Result<byte>)
    ensures r.Ok? <==> InRange(buffer, offset, 1)
    ensures r.Ok? ==> r.value == FromLittleEndian(buffer[offset..offset + 1]) == buffer[offset]
    ensures r.Throw? ==> r.error == RangeError
  {
    if InRange(buffer, offset, 1) then
      assert buffer[offset..offset + 1][1..] == [];
      Ok(buffer[offset])
    else
      Throw(RangeError)
  }

  /** `new DataView(buffer).getUint32(offset, true)`: the little-endian
      unsigned 32-bit integer at `offset`. */
  function GetUint32(buffer: seq<byte>, offset: int): (r: Result<u32>)
    ensures r.Ok? <==> InRange(buffer, offset, 4)
    ensures r.Ok? ==> r.value == LittleEndian32(buffer[offset], buffer[offset + 1],
                                                buffer[offset + 2], buffer[offset + 3])
    ensures r.Throw? ==> r.error == RangeError
  {
    if InRange(buffer, offset, 4) then
      var bytes := buffer[offset..offset + 4];
      FromLittleEndian4(bytes);
      Ok(FromLittleEndian(bytes))
    else
      Throw(RangeError)
  }

  /** Reading back the four bytes that encode `x`, wherever they sit in the
      buffer, gives `x`. */
  lemma GetUint32RoundTrip(prefix: seq<byte>, x: u32, suffix: seq<byte>)
    ensures GetUint32(prefix + ToLittleEndian(x, 4) + suffix, |prefix|) == Ok(x)
  {
    assert Pow256(4) == 0x1_0000_0000;
    var buffer := prefix + ToLittleEndian(x, 4) + suffix;
    assert buffer[|prefix|..|prefix| + 4] == ToLittleEndian(x, 4);
  }

  /** `new Uint8Array(target).set(source, offset)`, on values: the buffer
      with `source` copied over the bytes from `offset` on. */
  function SetBytes(target: seq<byte>, source: seq<byte>, offset: int): (r: Result<seq<byte>>)
    ensures r.Ok? <==> InRange(target, offset, |source|)
    ensures r.Throw? ==> r.error == RangeError
    ensures r.Ok? ==> |r.value| == |target|
    ensures r.Ok? ==> r.value[offset..offset + |source|] == source
    ensures r.Ok? ==> forall i :: 0 <= i < |target| && !(offset <= i < offset + |source|)
                             ==> r.value[i] == target[i]
  {
    if InRange(target, offset, |source|) then
      Ok(target[..offset] + source + target[offset + |source|..])
    else
      Throw(RangeError)
  }
}
