/** The sequential reader of pki/input.h and pki/input.cc. */
module ByteReader {
  import opened Der

  class ByteReader {
    /** What is left to read. */
    var data: Input

    constructor (input: Input)
      ensures data == input
    {
      data := input;
    }

    predicate HasMore()
      reads this
    {
      data != []
    }

    /** Reads one byte; `byteOut` means nothing when there was none. */
    method ReadByte() returns (ok: bool, byteOut: byte)
      modifies this
      ensures ok <==> old(data) != []
      ensures if ok then old(data) == [byteOut] + data else data == old(data)
    {
      if !HasMore() {
        return false, 0;
      }
      ok, byteOut := true, data[0];
      data := data[1..];
    }
  }
}
