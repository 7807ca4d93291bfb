/**
 * The carry test that `read_with_buf!` and `CharReader1::next` run after
 * `from_utf8` on a fresh chunk. The four bytes in front of the chunk are
 * meant to hold the unfinished character of the previous read, and
 * `pending_bytes` counts them.
 */
module Carry {
  import opened Wrappers
  import opened Utf8

  const MAX_PENDING_BYTES: nat := 4

  /**
   * `from_utf8` on the `n` fresh bytes behind the carried ones, and the carry
   * test: a failed check whose invalid tail fits in the carry area is re-checked
   * up to `valid_up_to` and the tail length becomes the new `pending_bytes`.
   * With nothing carried the tail is always too long, so neither happens.
   */
  method CheckChunk(u: array<byte>, pendingBytes: int, n: nat)
    returns (res: Result<seq<byte>, Utf8Error>, newPendingBytes: int)
    requires pendingBytes == 0 && 0 < n && n + MAX_PENDING_BYTES <= u.Length
    ensures res == FromUtf8(u[MAX_PENDING_BYTES..n + MAX_PENDING_BYTES])
    ensures newPendingBytes == 0
  {
    newPendingBytes := pendingBytes;
    res := FromUtf8(u[MAX_PENDING_BYTES - pendingBytes..n + MAX_PENDING_BYTES]);
    if res.Failure? {
      var tail := u.Length - res.error.validUpTo;
      if tail <= MAX_PENDING_BYTES {
        // unreachable: here the valid prefix would be re-checked and the tail carried
        assert false;
        newPendingBytes := tail;
      }
    }
  }
}
