/**
 * `CharReader2`: an iterator of chars over a stream that takes one byte per
 * char. It refills its whole buffer when the bytes of the last read are used
 * up, returns a byte below 128 as the char with that code point, and stops
 * at `todo!` (a panic) on any other byte.
 */
module CharReader2 {
  import opened Wrappers
  import opened Utf8
  import opened ByteSource
  import opened Items
  import opened Buffered

  /** `2usize.pow(14)`, the capacity `new` uses. */
  const DEFAULT_CAPACITY: nat := 0x4000

  /** The chars whose code points are the given bytes. */
  function AsChars(s: seq<byte>): (cs: seq<char>)
    ensures |cs| == |s|
    ensures forall i | 0 <= i < |s| :: cs[i] as int == s[i] as int
  {
    if s == [] then [] else [(s[0] as int) as char] + AsChars(s[1..])
  }

  /** The position of the first byte that is not ASCII, or the length if there is none. */
  function FirstNonAscii(s: seq<byte>): (k: nat)
    ensures k <= |s|
    ensures forall i | 0 <= i < k :: s[i] < 0x80
    ensures k < |s| ==> s[k] >= 0x80
  {
    if s == [] || s[0] >= 0x80 then 0 else 1 + FirstNonAscii(s[1..])
  }

  /** The byte at `idx`, as `next` hands it out once the buffer holds it. */
  function Take(st: State): (r: (Pull<char>, State))
    requires st.idx < st.n <= |st.buf|
  {
    if st.buf[st.idx] < 0x80 then (Ok((st.buf[st.idx] as int) as char), st.(idx := st.idx + 1))
    else (Panic, st)
  }

  /** One call of `next`. */
  function Step(st: State): (r: (Pull<char>, State))
    requires Inv(st)
    ensures Inv(r.1)
    ensures !Ends(r.0) ==>
      |r.1.source| < |st.source| || (r.1.source == st.source && Pending(r.1) < Pending(st))
  {
    if st.idx >= st.n then
      var (ok, st1) := Refill(st);
      if !ok then (Err, st1)
      else if st1.n == 0 then (Done, st1)
      else Take(st1.(idx := 0))
    else Take(st)
  }

  /**
   * `next` reads only when the buffer is used up (`idx >= n`); a byte below
   * 128 at `idx` is returned as the char with that code point and `idx`
   * moves past it, any other byte panics without moving `idx`; None comes
   * exactly at the end of the stream, and a read error gives Some(Err(()))
   * that leaves `n`, `idx` and the buffer as they were.
   */
  lemma StepCases(st: State)
    requires Inv(st)
    ensures st.idx < st.n && st.buf[st.idx] < 0x80 ==>
      Step(st).0 == Ok((st.buf[st.idx] as int) as char)
      && Step(st).1 == st.(idx := st.idx + 1)
    ensures st.idx < st.n && st.buf[st.idx] >= 0x80 ==> Step(st) == (Panic, st)
    ensures Step(st).0.Err? <==> st.idx >= st.n && Read(st.source).0.IoError?
    ensures Step(st).0.Err? ==> Step(st).1 == st.(source := Read(st.source).1)
    ensures Step(st).0.Done? <==> st.idx >= st.n && Read(st.source).0 == Bytes([])
  {
  }

  /**
   * Each Ok takes the first byte ahead, which is ASCII; a panic comes at a
   * first byte ahead that is not; an Err keeps the bytes ahead; None comes
   * when none are left.
   */
  lemma StepAhead(st: State)
    requires Inv(st)
    ensures Step(st).0.Ok? ==>
      Ahead(st) != [] && Ahead(st)[0] < 0x80 && Step(st).0.value == (Ahead(st)[0] as int) as char
      && Ahead(Step(st).1) == Ahead(st)[1..]
    ensures Step(st).0.Panic? ==> Ahead(st) != [] && Ahead(st)[0] >= 0x80
    ensures Step(st).0.Err? ==> Ahead(st) == Ahead(Step(st).1)
    ensures Step(st).0.Done? ==> Ahead(st) == []
  {
    if st.idx >= st.n {
      RefillAhead(st);
      var (ok, st1) := Refill(st);
      if ok && st1.n > 0 {
        assert st1.buf[..st1.n] == st1.buf[0..st1.n];
        TakeAhead(st1.(idx := 0));
      }
    } else {
      TakeAhead(st);
    }
  }

  /** The bytes ahead of a buffer that still holds some start with the byte at `idx`. */
  lemma TakeAhead(st: State)
    requires st.n <= |st.buf| && st.idx < st.n
    ensures Ahead(st) == [st.buf[st.idx]] + Ahead(st.(idx := st.idx + 1))
  {
    assert st.buf[st.idx..st.n] == [st.buf[st.idx]] + st.buf[st.idx + 1..st.n];
  }

  /** The results of calling `next` until it returns None or panics. */
  function Drain(st: State): (items: seq<Pull<char>>)
    requires Inv(st)
    ensures items != [] && Ends(items[|items| - 1])
    ensures forall i | 0 <= i < |items| - 1 :: !Ends(items[i])
    decreases |st.source|, Pending(st)
  {
    var (item, next) := Step(st);
    if Ends(item) then [item] else [item] + Drain(next)
  }

  /** `Drain` of a reader whose next call returns an item. */
  lemma DrainNext(st: State)
    requires Inv(st) && !Ends(Step(st).0)
    ensures Drain(st) == [Step(st).0] + Drain(Step(st).1)
  {
  }

  class CharReader2 {
    var reader: Script
    const buf: array<byte>
    var idx: nat
    var n: nat

    ghost predicate Valid()
      reads this, buf
    {
      Inv(Model())
    }

    function Model(): State
      reads this, buf
    {
      State(reader, buf[..], idx, n)
    }

    constructor WithCapacity(capacity: nat, reader: Script)
      requires FitsIn(reader, capacity)
      ensures Valid() && Model() == State(reader, seq(capacity, _ => 0), 0, 0)
      ensures buf.Length == capacity && fresh(buf)
    {
      this.reader := reader;
      buf := new byte[capacity](_ => 0);
      idx, n := 0, 0;
    }

    static method New(reader: Script) returns (r: CharReader2)
      requires FitsIn(reader, DEFAULT_CAPACITY)
      ensures fresh(r) && fresh(r.buf) && r.Valid()
      ensures r.Model() == State(reader, seq(DEFAULT_CAPACITY, _ => 0), 0, 0)
    {
      r := new CharReader2.WithCapacity(DEFAULT_CAPACITY, reader);
    }

    /** `read_into_buf`. */
    method ReadIntoBuf() returns (ok: bool)
      requires FitsIn(reader, buf.Length)
      modifies this, buf
      ensures (ok, Model()) == Refill(old(Model()))
    {
      var r, rest := ReadInto(buf, 0, reader);
      reader := rest;
      if r.IoError? {
        return false;
      }
      n := |r.data|;
      ok := true;
    }

    method Next() returns (item: Pull<char>)
      requires Valid()
      modifies this, buf
      ensures Valid()
      ensures (item, Model()) == Step(old(Model()))
    {
      if idx >= n {
        var ok := ReadIntoBuf();
        if !ok {
          return Err;
        }
        if n == 0 {
          return Done;
        }
        idx := 0;
      }
      if buf[idx] < 0x80 {
        idx := idx + 1;
        return Ok((buf[idx - 1] as int) as char);
      }
      // the `todo!` panic for a byte that starts a multi-byte char
      item := Panic;
    }
  }

  /** `consume(reader)`: the results of all the calls of `next` its `for` loop makes. */
  method Consume(it: CharReader2) returns (items: seq<Pull<char>>)
    requires it.Valid()
    modifies it, it.buf
    ensures items == Drain(old(it.Model()))
  {
    items := [];
    while true
      invariant it.Valid()
      invariant Drain(old(it.Model())) == items + Drain(it.Model())
      decreases |it.reader|, Pending(it.Model())
    {
      var before := it.Model();
      var item := it.Next();
      if Ends(item) {
        items := items + [item];
        return;
      }
      DrainNext(before);
      AppendAssoc(items, [item], Drain(it.Model()));
      items := items + [item];
    }
  }

  /** The chars of the bytes before the first one that is not ASCII. */
  function AsciiRun(a: seq<byte>): seq<char> {
    if a == [] || a[0] >= 0x80 then [] else [(a[0] as int) as char] + AsciiRun(a[1..])
  }

  /** Every byte is ASCII. */
  predicate AllAscii(a: seq<byte>) {
    a == [] || (a[0] < 0x80 && AllAscii(a[1..]))
  }

  /** `AsciiRun` is the chars of the prefix up to `FirstNonAscii`, and `AllAscii` says that prefix is the whole. */
  lemma {:induction false} AsciiRunPrefix(a: seq<byte>)
    ensures AsciiRun(a) == AsChars(a[..FirstNonAscii(a)])
    ensures AllAscii(a) <==> FirstNonAscii(a) == |a|
  {
    if a != [] && a[0] < 0x80 {
      AsciiRunPrefix(a[1..]);
      var k := FirstNonAscii(a);
      assert a[..k][1..] == a[1..][..k - 1];
    }
  }

  /**
   * Drained to its end, the reader yields as chars the bytes it has ahead up
   * to the first one that is not ASCII, and there it panics; with no such
   * byte it yields them all and ends with None. Read errors on the way give
   * Errs but do not stop it.
   */
  lemma {:induction false} DrainAscii(st: State)
    requires Inv(st)
    ensures Oks(Drain(st)) == AsciiRun(Ahead(st))
    ensures Drain(st)[|Drain(st)| - 1] == Panic <==> !AllAscii(Ahead(st))
    ensures Drain(st)[|Drain(st)| - 1] == Done <==> AllAscii(Ahead(st))
    decreases |st.source|, Pending(st)
  {
    if Ends(Step(st).0) {
      DrainAsciiEnd(st);
    } else {
      var next := Step(st).1;
      DrainAscii(next);
      DrainUnfold(st);
      AsciiStep(st);
    }
  }

  /** A reader whose next call ends the drain: None with nothing ahead, or a panic at a non-ASCII byte. */
  lemma DrainAsciiEnd(st: State)
    requires Inv(st) && Ends(Step(st).0)
    ensures Oks(Drain(st)) == AsciiRun(Ahead(st))
    ensures Drain(st)[|Drain(st)| - 1] == Panic <==> !AllAscii(Ahead(st))
    ensures Drain(st)[|Drain(st)| - 1] == Done <==> AllAscii(Ahead(st))
  {
    var item := Step(st).0;
    assert Drain(st) == [item];
    if item.Done? {
      assert Ahead(st) == [] by {
        StepAhead(st);
      }
    } else {
      assert Ahead(st) != [] && Ahead(st)[0] >= 0x80 by {
        StepAhead(st);
      }
    }
  }

  /** `Drain` of a reader whose next call returns an item: the same last item, and the Ok value first. */
  lemma DrainUnfold(st: State)
    requires Inv(st) && !Ends(Step(st).0)
    ensures Drain(st)[|Drain(st)| - 1] == Drain(Step(st).1)[|Drain(Step(st).1)| - 1]
    ensures Oks(Drain(st)) == (if Step(st).0.Ok? then [Step(st).0.value] else []) + Oks(Drain(Step(st).1))
  {
    DrainNext(st);
    OksCons(Step(st).0, Drain(Step(st).1));
  }

  /** A call that returns an item takes its ASCII char off the front of the run ahead, or leaves the run. */
  lemma AsciiStep(st: State)
    requires Inv(st) && !Ends(Step(st).0)
    ensures AsciiRun(Ahead(st)) == (if Step(st).0.Ok? then [Step(st).0.value] else []) + AsciiRun(Ahead(Step(st).1))
    ensures AllAscii(Ahead(st)) <==> AllAscii(Ahead(Step(st).1))
  {
    StepAhead(st);
  }

  /** On a stream of ASCII bytes only, a fresh reader yields exactly their chars and ends with None. */
  lemma DrainFreshAscii(src: Script, capacity: nat)
    requires FitsIn(src, capacity)
    requires forall i | 0 <= i < |Concat(src[..EndOf(src)])| :: Concat(src[..EndOf(src)])[i] < 0x80
    ensures Oks(Drain(State(src, seq(capacity, _ => 0), 0, 0))) == AsChars(Concat(src[..EndOf(src)]))
    ensures Drain(State(src, seq(capacity, _ => 0), 0, 0))[|Drain(State(src, seq(capacity, _ => 0), 0, 0))| - 1] == Done
  {
    var st := State(src, seq(capacity, _ => 0), 0, 0);
    var a := Concat(src[..EndOf(src)]);
    assert Ahead(st) == a by {
      assert Unread(st) == [];
    }
    DrainAscii(st);
    AllAsciiRun(a);
  }

  /** A sequence of ASCII bytes is all one run. */
  lemma AllAsciiRun(a: seq<byte>)
    requires forall i | 0 <= i < |a| :: a[i] < 0x80
    ensures AllAscii(a) && AsciiRun(a) == AsChars(a)
  {
    AsciiRunPrefix(a);
    assert a[..|a|] == a;
  }
}
