/**
 * The state `CharReader2` and `ByteReader` share: a stream, a buffer the
 * whole of which each read may fill, the count `n` of bytes the last
 * successful read put there and the position `idx` of the next byte to hand
 * out, and their common `read_into_buf`.
 */
module Buffered {
  import opened Utf8
  import opened ByteSource

  /** The stream still to be read, the buffer's contents, `idx` and `n`. */
  datatype State = State(source: Script, buf: seq<byte>, idx: nat, n: nat)

  /**
   * What holds between calls of `next`: `n` and `idx` lie within the buffer,
   * and `idx` within the filled part except after a read of 0 bytes, which
   * sets `n` to 0 and leaves `idx` where it was. Every read fits the buffer.
   */
  predicate Inv(st: State) {
    st.n <= |st.buf| && st.idx <= |st.buf| && (st.idx <= st.n || st.n == 0)
    && FitsIn(st.source, |st.buf|)
  }

  /** The bytes of the last read that have not been handed out yet. */
  function Unread(st: State): seq<byte>
    requires st.n <= |st.buf|
  {
    if st.idx < st.n then st.buf[st.idx..st.n] else []
  }

  /** How many bytes the buffer still holds for `next`; it bounds the calls that do not read. */
  function Pending(st: State): nat {
    if st.idx < st.n then st.n - st.idx else 0
  }

  /** The bytes a drain of the reader still has ahead: the unread ones, then those of every read up to the end of the stream. */
  function Ahead(st: State): seq<byte>
    requires st.n <= |st.buf|
  {
    Unread(st) + Concat(st.source[..EndOf(st.source)])
  }

  /**
   * `read_into_buf`: one read into the whole buffer. A success writes its
   * bytes at the front of the buffer and sets `n` to their count; an error is
   * returned by `?` before `n` is assigned, so it changes nothing but the
   * stream. `idx` is left alone in both cases.
   */
  function Refill(st: State): (r: (bool, State))
    requires FitsIn(st.source, |st.buf|)
    ensures FitsIn(r.1.source, |r.1.buf|)
    ensures r.1.source == Read(st.source).1 && |r.1.buf| == |st.buf| && r.1.idx == st.idx
    ensures r.0 <==> Read(st.source).0.Bytes?
    ensures r.0 ==> r.1.n == |Read(st.source).0.data| && r.1.buf[..r.1.n] == Read(st.source).0.data
    ensures r.0 ==> r.1.buf[r.1.n..] == st.buf[r.1.n..]
    ensures !r.0 ==> r.1 == st.(source := Read(st.source).1)
  {
    var (res, rest) := Read(st.source);
    match res
    case IoError => (false, st.(source := rest))
    case Bytes(d) => (true, State(rest, d + st.buf[|d|..], st.idx, |d|))
  }

  /**
   * A refill when the buffer is used up: an error keeps every byte ahead
   * ahead, a read of 0 bytes is the end of the stream, and a read of n > 0
   * bytes puts the first n bytes ahead into the buffer.
   */
  lemma RefillAhead(st: State)
    requires Inv(st) && st.idx >= st.n
    ensures !Refill(st).0 ==> Ahead(Refill(st).1) == Ahead(st)
    ensures Refill(st).0 && Refill(st).1.n == 0 ==> Ahead(st) == []
    ensures Refill(st).0 && Refill(st).1.n > 0 ==>
      Ahead(st) == Refill(st).1.buf[..Refill(st).1.n] + Concat(Refill(st).1.source[..EndOf(Refill(st).1.source)])
  {
    var src := st.source;
    if src == [] || src[0] == Bytes([]) {
      assert src[..EndOf(src)] == [];
    } else {
      EndTail(src);
      if src[0].IoError? {
        assert [] + Concat(src[1..][..EndOf(src[1..])]) == Concat(src[1..][..EndOf(src[1..])]);
      }
    }
  }
}
