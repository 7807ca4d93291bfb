/**
 * `ByteReader`: an iterator of the bytes of a stream, which refills its
 * whole buffer whenever the bytes of the last read are used up.
 */
module ByteReader {
  import opened Wrappers
  import opened Utf8
  import opened ByteSource
  import opened Items
  import opened Buffered

  /** `2usize.pow(14)`, the capacity `new` uses. */
  const DEFAULT_CAPACITY: nat := 0x4000

  /** One call of `next`. */
  function Step(st: State): (r: (Pull<byte>, State))
    requires Inv(st)
    ensures Inv(r.1)
    ensures !r.0.Panic?
    ensures !Ends(r.0) ==>
      |r.1.source| < |st.source| || (r.1.source == st.source && Pending(r.1) < Pending(st))
  {
    if st.idx >= st.n then
      var (ok, st1) := Refill(st);
      if !ok then (Err, st1)
      else if st1.n == 0 then (Done, st1)
      else (Ok(st1.buf[0]), st1.(idx := 1))
    else (Ok(st.buf[st.idx]), st.(idx := st.idx + 1))
  }

  /**
   * `next` reads only when the buffer is used up (`idx >= n`); it returns the
   * byte at `idx` and moves past it, returns None exactly at the end of the
   * stream, never panics, and turns a read error into Some(Err(())) that
   * leaves `n`, `idx` and the buffer as they were.
   */
  lemma StepCases(st: State)
    requires Inv(st)
    ensures st.idx < st.n ==> Step(st) == (Ok(st.buf[st.idx]), st.(idx := st.idx + 1))
    ensures Step(st).0.Err? <==> st.idx >= st.n && Read(st.source).0.IoError?
    ensures Step(st).0.Err? ==> Step(st).1 == st.(source := Read(st.source).1)
    ensures Step(st).0.Done? <==> st.idx >= st.n && Read(st.source).0 == Bytes([])
    ensures !Step(st).0.Panic?
  {
  }

  /** Each Ok takes the first byte ahead, and an Err keeps the bytes ahead. */
  lemma StepAhead(st: State)
    requires Inv(st)
    ensures Step(st).0.Ok? ==> Ahead(st) == [Step(st).0.value] + Ahead(Step(st).1)
    ensures Step(st).0.Err? ==> Ahead(st) == Ahead(Step(st).1)
    ensures Step(st).0.Done? ==> Ahead(st) == []
  {
    if st.idx >= st.n {
      RefillAhead(st);
      if Step(st).0.Ok? {
        var st1 := Refill(st).1;
        TakeFirst(st1.(idx := 0));
        assert st1.buf[..st1.n] == st1.buf[0..st1.n];
      }
    } else {
      TakeFirst(st);
    }
  }

  /** Handing out the byte at `idx` of a buffer that still holds some. */
  lemma TakeFirst(st: State)
    requires st.n <= |st.buf| && st.idx < st.n
    ensures Unread(st) == [st.buf[st.idx]] + Unread(st.(idx := st.idx + 1))
    ensures Ahead(st) == [st.buf[st.idx]] + Ahead(st.(idx := st.idx + 1))
  {
    assert st.buf[st.idx..st.n] == [st.buf[st.idx]] + st.buf[st.idx + 1..st.n];
  }

  /** The results of calling `next` until it returns None. */
  function Drain(st: State): (items: seq<Pull<byte>>)
    requires Inv(st)
    ensures items != [] && items[|items| - 1] == Done
    ensures forall i | 0 <= i < |items| - 1 :: !Ends(items[i])
    decreases |st.source|, Pending(st)
  {
    var (item, next) := Step(st);
    if Ends(item) then [item] else [item] + Drain(next)
  }

  /** `Drain` of a reader whose next call returns an item. */
  lemma DrainNext(st: State)
    requires Inv(st) && !Ends(Step(st).0)
    ensures Drain(st) == [Step(st).0] + Drain(Step(st).1)
  {
  }

  class ByteReader {
    var reader: Script
    const buf: array<byte>
    var idx: nat
    var n: nat

    ghost predicate Valid()
      reads this, buf
    {
      Inv(Model())
    }

    function Model(): State
      reads this, buf
    {
      State(reader, buf[..], idx, n)
    }

    constructor WithCapacity(capacity: nat, reader: Script)
      requires FitsIn(reader, capacity)
      ensures Valid() && Model() == State(reader, seq(capacity, _ => 0), 0, 0)
      ensures buf.Length == capacity && fresh(buf)
    {
      this.reader := reader;
      buf := new byte[capacity](_ => 0);
      idx, n := 0, 0;
    }

    static method New(reader: Script) returns (r: ByteReader)
      requires FitsIn(reader, DEFAULT_CAPACITY)
      ensures fresh(r) && fresh(r.buf) && r.Valid()
      ensures r.Model() == State(reader, seq(DEFAULT_CAPACITY, _ => 0), 0, 0)
    {
      r := new ByteReader.WithCapacity(DEFAULT_CAPACITY, reader);
    }

    /** `read_into_buf`. */
    method ReadIntoBuf() returns (ok: bool)
      requires FitsIn(reader, buf.Length)
      modifies this, buf
      ensures (ok, Model()) == Refill(old(Model()))
    {
      var r, rest := ReadInto(buf, 0, reader);
      reader := rest;
      if r.IoError? {
        return false;
      }
      n := |r.data|;
      ok := true;
    }

    method Next() returns (item: Pull<byte>)
      requires Valid()
      modifies this, buf
      ensures Valid()
      ensures (item, Model()) == Step(old(Model()))
    {
      if idx >= n {
        var ok := ReadIntoBuf();
        if !ok {
          return Err;
        }
        if n == 0 {
          return Done;
        }
        idx := 0;
      }
      idx := idx + 1;
      item := Ok(buf[idx - 1]);
    }
  }

  /** `consume(reader)`: the results of all the calls of `next` its `for` loop makes. */
  method Consume(it: ByteReader) returns (items: seq<Pull<byte>>)
    requires it.Valid()
    modifies it, it.buf
    ensures items == Drain(old(it.Model()))
  {
    items := [];
    while true
      invariant it.Valid()
      invariant Drain(old(it.Model())) == items + Drain(it.Model())
      decreases |it.reader|, Pending(it.Model())
    {
      var before := it.Model();
      var item := it.Next();
      if Ends(item) {
        items := items + [item];
        return;
      }
      DrainNext(before);
      AppendAssoc(items, [item], Drain(it.Model()));
      items := items + [item];
    }
  }

  /**
   * Drained to its end, the reader yields exactly the bytes it has ahead,
   * the unread ones and then those of every read up to the first read of 0
   * bytes; read errors on the way give Errs but do not stop it, and it ends
   * with None.
   */
  lemma {:induction false} DrainBytes(st: State)
    requires Inv(st)
    ensures Drain(st)[|Drain(st)| - 1] == Done
    ensures Oks(Drain(st)) == Ahead(st)
    decreases |st.source|, Pending(st)
  {
    var (item, next) := Step(st);
    StepCases(st);
    StepAhead(st);
    if !Ends(item) {
      DrainBytes(next);
      OksCons(item, Drain(next));
    }
  }

  /** A fresh reader yields the bytes of all the reads before the end of the stream. */
  lemma DrainFresh(src: Script, capacity: nat)
    requires FitsIn(src, capacity)
    ensures Oks(Drain(State(src, seq(capacity, _ => 0), 0, 0))) == Concat(src[..EndOf(src)])
  {
    var st := State(src, seq(capacity, _ => 0), 0, 0);
    DrainBytes(st);
    assert Unread(st) == [];
  }
}
