/** `toBuffer`: coerces what the caller passed to `parseZip` into a Node buffer. */
module Buffers {
  import opened Wrappers
  import opened Interop

  /** The kinds of value `toBuffer` tells apart. A typed view carries its
      `BYTES_PER_ELEMENT` (absent for a `DataView`) and the window
      `[byteOffset, byteOffset + byteLength)` it shows of its backing buffer. */
  datatype RawInput =
    | Falsy                                    // undefined, null, false, 0; "" only from a direct parseZip call
    | NodeBuffer(bytes: Bytes)
    | ArrayBuffer(bytes: Bytes)
    | TypedView(bytesPerElement: Option<nat>, byteOffset: nat, byteLength: nat, buffer: Bytes)
    | OtherValue                               // any other truthy value

  /** A typed view never reaches past the end of its backing buffer. */
  predicate WellFormed(input: RawInput) {
    input.TypedView? ==> input.byteOffset + input.byteLength <= |input.buffer|
  }

  /** The bytes a typed view shows. */
  function ViewBytes(input: RawInput): (b: Bytes)
    requires input.TypedView? && WellFormed(input)
    ensures |b| == input.byteLength
  {
    input.buffer[input.byteOffset..input.byteOffset + input.byteLength]
  }

  /** `toBuffer(b)`: throws on a falsy value, and yields `undefined` (None) for
      a truthy value that is neither a buffer nor a typed view. */
  function ToBuffer(input: RawInput): (r: Result<Option<Bytes>, Error>)
    requires WellFormed(input)
    ensures r.Failure? <==> input.Falsy?
    ensures r.Failure? ==> r.error == ForgotBuffer
    ensures r == Success(None) <==> input.OtherValue?
    ensures input.NodeBuffer? || input.ArrayBuffer? ==> r == Success(Some(input.bytes))
    ensures input.TypedView? && input.bytesPerElement == Some(1) ==> r == Success(Some(ViewBytes(input)))
    ensures input.TypedView? && input.bytesPerElement != Some(1) ==> r == Success(Some(input.buffer))
  {
    match input
    case Falsy => Failure(ForgotBuffer)
    case NodeBuffer(b) => Success(Some(b))
    case ArrayBuffer(b) => Success(Some(b))
    case TypedView(size, _, _, whole) =>
      if size == Some(1) then Success(Some(ViewBytes(input))) else Success(Some(whole))
    case OtherValue => Success(None)
  }

  /** A byte-wide view gives exactly the bytes it shows, as if those bytes had
      been passed as a buffer of their own. */
  lemma ByteViewIsWrap(input: RawInput)
    requires input.TypedView? && WellFormed(input) && input.bytesPerElement == Some(1)
    ensures ToBuffer(input) == ToBuffer(ArrayBuffer(ViewBytes(input)))
  {
  }

  /** For a view that spans its whole backing buffer the element size does not
      matter: both branches of `toBuffer` give the same bytes. */
  lemma WholeViewAnySize(size: Option<nat>, buffer: Bytes)
    ensures ToBuffer(TypedView(size, 0, |buffer|, buffer)) == Success(Some(buffer))
  {
    assert buffer[0..|buffer|] == buffer;
  }

  /** Normalising is idempotent: feeding the result back in returns it unchanged. */
  lemma ToBufferIdempotent(input: RawInput)
    requires WellFormed(input)
    ensures ToBuffer(input).Success? && ToBuffer(input).value.Some? ==>
              ToBuffer(NodeBuffer(ToBuffer(input).value.value)) == ToBuffer(input)
  {
  }
}
