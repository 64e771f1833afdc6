/** Reading fields from a buffer: `StringRefReader` and the errors the decoders throw. */
module Readers {

  import opened ByteStrings

  datatype Error =
    | EndOfStream
    | CorruptedData
    | CorruptedPadding
    | UnsupportedFileVersion
    | BadRead
    | BadBlockSize
    | IncompatibleProtocol
    | BadLogKey
    | SizeOverflow

  datatype Result<+T> = Ok(value: T) | Err(error: Error) {
    predicate IsFailure() { Err? }
    function PropagateFailure<U>(): Result<U> requires Err? { Err(error) }
    function Extract(): T requires Ok? { value }
  }

  /** `StringRefReader::consume`: the next `n` bytes, or the error for a short buffer. */
  function Consume(s: Bytes, pos: nat, n: nat): (r: Result<Bytes>)
    requires pos <= |s|
    ensures r.Ok? <==> pos + n <= |s|
    ensures r.Ok? ==> r.value == s[pos..pos + n]
    ensures r.Err? ==> r.error == EndOfStream || r.error == CorruptedData
    ensures r == Err(EndOfStream) <==> pos == |s| && n > 0
  {
    if pos == |s| && n != 0 then Err(EndOfStream)
    else if pos + n > |s| then Err(CorruptedData)
    else Ok(s[pos..pos + n])
  }

  /** The block header: a 32-bit format version in native (little-endian) order. */
  function CheckHeader(block: Bytes, version: nat): (r: Result<()>)
    ensures r.Ok? <==> LittleEndian(version, 4) <= block
    ensures r == Err(UnsupportedFileVersion) <==> |block| >= 4 && !(LittleEndian(version, 4) <= block)
  {
    var header :- Consume(block, 0, 4);
    assert header == block[..4];
    if header != LittleEndian(version, 4) then Err(UnsupportedFileVersion) else Ok(())
  }
}
