/** memcpy of a text into a buffer at a moving offset. */
module Buffers {

  /** The size of a piece in which large data goes out of the enclave. */
  const THRESHOLD := 4194304

  method Copy(buffer: array<char>, offset: nat, text: string) returns (next: nat)
    requires offset + |text| <= buffer.Length
    modifies buffer
    ensures next == offset + |text| && buffer[..next] == old(buffer[..offset]) + text
  {
    forall k | 0 <= k < |text| {
      buffer[offset + k] := text[k];
    }
    next := offset + |text|;
  }

  /** Memory that was set to zero. */
  function Zeros(n: nat): (s: string)
    ensures |s| == n
  {
    seq(n, _ => '\0')
  }
}
