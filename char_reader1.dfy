/**
 * `CharReader1`: an iterator of chars over a stream. It reads a chunk into
 * `buf[4..]`, checks it with `from_utf8` (with the same carry test as
 * `read_with_buf!`) and then hands out the chars of the chunk one per call.
 *
 * The `Chars` iterator over the chunk, which the source keeps alive with an
 * `unsafe` lifetime cast, is modelled as the sequence `chars` of the chars
 * it has still to yield.
 */
module CharReader1 {
  import opened Wrappers
  import opened Utf8
  import opened ByteSource
  import opened Carry
  import opened Items

  /** `2usize.pow(14)`, the capacity `new` uses. */
  const DEFAULT_CAPACITY: nat := 0x4000

  /** What `next` depends on: the stream still to be read and the chars of the current chunk still to be yielded. */
  datatype State = State(source: Script, chars: seq<char>)

  /** One call of `next` on a reader with a `capacity` byte buffer. */
  function Step(st: State, capacity: nat): (r: (Pull<char>, State))
    ensures st.chars != [] ==> r.0 == Ok(st.chars[0]) && r.1 == State(st.source, st.chars[1..])
    ensures st.chars == [] && capacity < MAX_PENDING_BYTES ==> r == (Panic, st)
    ensures r.0.Panic? ==> st.chars == [] && capacity < MAX_PENDING_BYTES
    ensures st.chars == [] && capacity >= MAX_PENDING_BYTES ==> r.1.source == Read(st.source).1
    ensures st.chars == [] && r.0.Ok? ==>
      Read(st.source).0.Bytes? && WellFormed(Read(st.source).0.data)
      && [r.0.value] + r.1.chars == Decode(Read(st.source).0.data)
    ensures (st.chars == [] && capacity >= MAX_PENDING_BYTES && Read(st.source).0.Bytes?
      && Read(st.source).0.data != [] && WellFormed(Read(st.source).0.data)) ==> r.0.Ok?
    ensures r.0.Err? ==> r.1.chars == []
    ensures r.0.Done? <==> st.chars == [] && capacity >= MAX_PENDING_BYTES && Read(st.source).0 == Bytes([])
    ensures !Ends(r.0) ==>
      |r.1.source| < |st.source| || (r.1.source == st.source && |r.1.chars| < |st.chars|)
  {
    if st.chars != [] then (Ok(st.chars[0]), State(st.source, st.chars[1..]))
    else if capacity < MAX_PENDING_BYTES then (Panic, st)
    else
      var (res, rest) := Read(st.source);
      match res
      case IoError => (Err, State(rest, []))
      case Bytes(d) =>
        if d == [] then (Done, State(rest, []))
        else if !WellFormed(d) then (Err, State(rest, []))
        else (Ok(Decode(d)[0]), State(rest, Decode(d)[1..]))
  }

  /** The results of calling `next` until it returns None or panics. */
  function Drain(st: State, capacity: nat): (items: seq<Pull<char>>)
    ensures items != [] && Ends(items[|items| - 1])
    ensures forall i | 0 <= i < |items| - 1 :: !Ends(items[i])
    decreases |st.source|, |st.chars|
  {
    var (item, next) := Step(st, capacity);
    if Ends(item) then [item] else [item] + Drain(next, capacity)
  }

  /** `Drain` of a reader whose next call returns an item. */
  lemma DrainNext(st: State, capacity: nat)
    requires !Ends(Step(st, capacity).0)
    ensures Drain(st, capacity) == [Step(st, capacity).0] + Drain(Step(st, capacity).1, capacity)
  {
  }

  class CharReader1 {
    var reader: Script
    const buf: array<byte>
    var chars: seq<char>
    var pendingBytes: int

    /** `pending_bytes` is 0, and every read fits in `buf[4..]`. */
    ghost predicate Valid()
      reads this
    {
      pendingBytes == 0
      && (buf.Length >= MAX_PENDING_BYTES ==> FitsIn(reader, buf.Length - MAX_PENDING_BYTES))
    }

    function Model(): State
      reads this
    {
      State(reader, chars)
    }

    constructor WithCapacity(capacity: nat, reader: Script)
      requires capacity >= MAX_PENDING_BYTES ==> FitsIn(reader, capacity - MAX_PENDING_BYTES)
      ensures Valid() && Model() == State(reader, [])
      ensures buf.Length == capacity && fresh(buf)
    {
      this.reader := reader;
      buf := new byte[capacity];
      chars := [];
      pendingBytes := 0;
    }

    static method New(reader: Script) returns (r: CharReader1)
      requires FitsIn(reader, DEFAULT_CAPACITY - MAX_PENDING_BYTES)
      ensures fresh(r) && fresh(r.buf) && r.Valid()
      ensures r.Model() == State(reader, []) && r.buf.Length == DEFAULT_CAPACITY
    {
      r := new CharReader1.WithCapacity(DEFAULT_CAPACITY, reader);
    }

    method Next() returns (item: Pull<char>)
      requires Valid()
      modifies this, buf
      ensures Valid()
      ensures (item, Model()) == Step(old(Model()), buf.Length)
    {
      if chars != [] {
        item := Ok(chars[0]);
        chars := chars[1..];
        return;
      }
      if buf.Length < MAX_PENDING_BYTES {
        // the range `buf[4..]` is out of bounds
        return Panic;
      }
      var r, rest := ReadInto(buf, MAX_PENDING_BYTES, reader);
      reader := rest;
      if r.IoError? {
        return Err;
      }
      var n := |r.data|;
      if n == 0 {
        return Done;
      }
      var res;
      res, pendingBytes := CheckChunk(buf, pendingBytes, n);
      match res
      case Failure(_) =>
        item := Err;
      case Success(s) =>
        chars := Decode(s);
        item := Ok(chars[0]);
        chars := chars[1..];
    }
  }

  /** `consume(reader)`: the results of all the calls of `next` its `for` loop makes. */
  method Consume(it: CharReader1) returns (items: seq<Pull<char>>)
    requires it.Valid()
    modifies it, it.buf
    ensures items == Drain(old(it.Model()), it.buf.Length)
  {
    items := [];
    while true
      invariant it.Valid()
      invariant Drain(old(it.Model()), it.buf.Length) == items + Drain(it.Model(), it.buf.Length)
      decreases |it.reader|, |it.chars|
    {
      var before := it.Model();
      var item := it.Next();
      if Ends(item) {
        items := items + [item];
        return;
      }
      DrainNext(before, it.buf.Length);
      AppendAssoc(items, [item], Drain(it.Model(), it.buf.Length));
      items := items + [item];
    }
  }

  /**
   * Drained to its end, a reader whose buffer holds at least the four carry
   * bytes never panics, and the chars it yields are the chars it held and
   * then, chunk by chunk up to the first read of 0 bytes, the chars of each
   * chunk that is well formed on its own; each other chunk and each read
   * error gives one Err and nothing else.
   */
  lemma {:induction false} DrainChars(st: State, capacity: nat)
    requires capacity >= MAX_PENDING_BYTES
    ensures Drain(st, capacity)[|Drain(st, capacity)| - 1] == Done
    ensures Oks(Drain(st, capacity)) == st.chars + DecodeAll(ChunksOf(st.source[..EndOf(st.source)]))
    decreases |st.source|, |st.chars|
  {
    var (item, next) := Step(st, capacity);
    if Ends(item) {
      assert Drain(st, capacity) == [item];
      assert st.source[..EndOf(st.source)] == [];
    } else {
      DrainChars(next, capacity);
      DrainUnfold(st, capacity);
      StepChars(st, capacity);
      var x, y, z := (if item.Ok? then [item.value] else []), next.chars, DecodeAll(ChunksOf(next.source[..EndOf(next.source)]));
      AppendAssoc(x, y, z);
    }
  }

  /** `Drain` of a reader whose next call returns an item. */
  lemma DrainUnfold(st: State, capacity: nat)
    requires !Ends(Step(st, capacity).0)
    ensures Drain(st, capacity)[|Drain(st, capacity)| - 1]
      == Drain(Step(st, capacity).1, capacity)[|Drain(Step(st, capacity).1, capacity)| - 1]
    ensures Oks(Drain(st, capacity)) ==
      (if Step(st, capacity).0.Ok? then [Step(st, capacity).0.value] else []) + Oks(Drain(Step(st, capacity).1, capacity))
  {
    OksCons(Step(st, capacity).0, Drain(Step(st, capacity).1, capacity));
  }

  /** What one call of `next` yields and keeps, together, is what the reader held. */
  lemma StepChars(st: State, capacity: nat)
    requires capacity >= MAX_PENDING_BYTES && !Ends(Step(st, capacity).0)
    ensures (if Step(st, capacity).0.Ok? then [Step(st, capacity).0.value] else [])
      + Step(st, capacity).1.chars + DecodeAll(ChunksOf(Step(st, capacity).1.source[..EndOf(Step(st, capacity).1.source)]))
      == st.chars + DecodeAll(ChunksOf(st.source[..EndOf(st.source)]))
  {
    if st.chars != [] {
      assert st.chars == [st.chars[0]] + st.chars[1..];
    } else {
      DrainRead(st, capacity);
    }
  }

  /** One call of `next` that reads a chunk. */
  lemma DrainRead(st: State, capacity: nat)
    requires capacity >= MAX_PENDING_BYTES && st.chars == [] && !Ends(Step(st, capacity).0)
    ensures (if Step(st, capacity).0.Ok? then [Step(st, capacity).0.value] else [])
      + Step(st, capacity).1.chars + DecodeAll(ChunksOf(st.source[1..][..EndOf(st.source[1..])]))
      == DecodeAll(ChunksOf(st.source[..EndOf(st.source)]))
    ensures Step(st, capacity).1.source == st.source[1..]
  {
    var src := st.source;
    var (item, next) := Step(st, capacity);
    EndTail(src);
    var rest := ChunksOf(src[1..][..EndOf(src[1..])]);
    if src[0].Bytes? {
      DecodeAllCons(src[0].data, rest);
      if item.Ok? {
        assert ([item.value] + next.chars) + DecodeAll(rest) == [item.value] + next.chars + DecodeAll(rest);
      }
    } else {
      assert [] + rest == rest;
    }
  }

  /** A read that `next` turns into Some(Err(())): a failed read, or a chunk that is not well formed on its own. */
  predicate Rejected(r: ReadResult) {
    r.IoError? || (r.data != [] && !WellFormed(r.data))
  }

  /** The number of rejected reads of a script. */
  function RejectedReads(src: Script): (k: nat)
    ensures k <= |src|
  {
    if src == [] then 0 else (if Rejected(src[0]) then 1 else 0) + RejectedReads(src[1..])
  }

  /**
   * Drained to its end, a reader whose buffer holds at least the four carry
   * bytes yields one Err for each rejected read before the first read of 0
   * bytes, and no other Err.
   */
  lemma {:induction false} DrainErrs(st: State, capacity: nat)
    requires capacity >= MAX_PENDING_BYTES
    ensures Errs(Drain(st, capacity)) == RejectedReads(st.source[..EndOf(st.source)])
    decreases |st.source|, |st.chars|
  {
    var (item, next) := Step(st, capacity);
    if Ends(item) {
      assert Drain(st, capacity) == [item];
      assert st.source[..EndOf(st.source)] == [];
    } else {
      DrainErrs(next, capacity);
      DrainNext(st, capacity);
      ErrsCons(item, Drain(next, capacity));
      if st.chars == [] {
        StepRejected(st, capacity);
      }
    }
  }

  /** A call of `next` that reads gives Err exactly for a rejected read, and takes that read off the live part. */
  lemma StepRejected(st: State, capacity: nat)
    requires capacity >= MAX_PENDING_BYTES && st.chars == [] && !Ends(Step(st, capacity).0)
    ensures Step(st, capacity).1.source == st.source[1..]
    ensures RejectedReads(st.source[..EndOf(st.source)]) ==
      (if Step(st, capacity).0.Err? then 1 else 0) + RejectedReads(st.source[1..][..EndOf(st.source[1..])])
  {
    var src := st.source;
    EndTail(src);
    var live := src[..EndOf(src)];
    assert live[1..] == src[1..][..EndOf(src[1..])];
    assert live[0] == src[0];
  }

  /** When every chunk before the end of the stream is well formed, the reader yields the chars of all the bytes read. */
  lemma DrainAllWellFormed(src: Script, capacity: nat)
    requires capacity >= MAX_PENDING_BYTES && ChunksWellFormed(src[..EndOf(src)])
    ensures WellFormed(Concat(src[..EndOf(src)]))
    ensures Oks(Drain(State(src, []), capacity)) == Decode(Concat(src[..EndOf(src)]))
  {
    DrainChars(State(src, []), capacity);
    DecodeChunks(src[..EndOf(src)]);
  }

  /**
   * A character cut by a read boundary: both reads are rejected, so the
   * reader yields two Errs and then ends, and none of the chars of `a` or
   * `b` around the cut char are yielded.
   */
  lemma SplitCharErrs(a: seq<byte>, ch: char, k: nat, b: seq<byte>, capacity: nat)
    requires WellFormed(a) && WellFormed(b) && 0 < k < |EncodeChar(ch)|
    requires capacity >= MAX_PENDING_BYTES
    ensures Drain(State([Bytes(a + EncodeChar(ch)[..k]), Bytes(EncodeChar(ch)[k..] + b)], []), capacity)
      == [Err, Err, Done]
  {
    var e := EncodeChar(ch);
    SplitCharHeadNotWellFormed(a, ch, k);
    SplitCharTailNotWellFormed(ch, k, b);
    var src := [Bytes(a + e[..k]), Bytes(e[k..] + b)];
    var s1 := State([Bytes(e[k..] + b)], []);
    var s2 := State([], []);
    assert Read(src).1 == s1.source;
    assert Step(State(src, []), capacity) == (Err, s1);
    assert Step(s1, capacity) == (Err, s2);
    assert Drain(s1, capacity) == [Err] + Drain(s2, capacity);
  }
}
