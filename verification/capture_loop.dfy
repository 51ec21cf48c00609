/** The capture loop of `readResponse` with its bound test exactly as the
    source writes it: the length is compared with 16 only after the byte has
    been stored and the length incremented, and the comparison is `> 16`.
    With 17 or more bytes waiting the loop therefore stores a 17th byte at
    index 16, one past the end of the 16-byte response buffer. The driver
    model (SessionModel.ReadResponse, Driver.NextPM.ReadResponse) stops at
    16 bytes instead, which is what the buffer size calls for. */
module CaptureLoop {
  import M = SessionModel

  /** The indices 0, 1, ..., n - 1. */
  function Indices(n: nat): (r: seq<nat>)
    ensures |r| == n && forall i :: 0 <= i < n ==> r[i] == i
  {
    if n == 0 then [] else Indices(n - 1) + [n - 1]
  }

  /** The buffer indices the loop as written stores to when `available`
      bytes are waiting, in the order it stores them. */
  method StoreIndicesAsWritten(available: nat) returns (stored: seq<nat>)
    ensures stored == Indices(if available <= M.ResponseCapacity then available else M.ResponseCapacity + 1)
    ensures available > M.ResponseCapacity ==> M.ResponseCapacity in stored
  {
    var responseLength: nat := 0;
    stored := [];
    while responseLength < available
      invariant responseLength <= M.ResponseCapacity && responseLength <= available
      invariant stored == Indices(responseLength)
    {
      stored := stored + [responseLength];
      responseLength := responseLength + 1;
      if responseLength > M.ResponseCapacity {
        break;
      }
    }
    assert available > M.ResponseCapacity ==> stored[M.ResponseCapacity] == M.ResponseCapacity;
  }
}
