/**
 * The `read_with_buf!` macro: a loop that reads a stream `size` bytes at a
 * time into `u[4..]` of a `size + 4` byte buffer, checks each chunk with
 * `from_utf8`, and hands the resulting `str` to `black_box`, or drains its
 * chars with `consume` when `by_chars` is set.
 *
 * The bytes `u[..4]` and the counter `pending_bytes` are meant to carry an
 * incomplete character over to the next read. The carry never happens:
 * `valid_up_to` is measured from the start of the chunk, so it is below
 * `n <= size`, and `u.len() - valid_up_to` is then above 4. `pending_bytes`
 * stays 0, the copy loop never runs (its first step would read `u[u.len()]`),
 * and a chunk that is not well formed on its own makes `unwrap` panic.
 */
module ReadWithBuf {
  import opened Wrappers
  import opened Utf8
  import opened ByteSource
  import opened Carry
  import opened Items

  /** How the macro's block ends: `Ok(())`, an error returned by `?`, or a panic in `unwrap`. */
  datatype Outcome = Finished | IoFailed | Panicked

  /** The outcome and the `str`s the loop produced, in order. */
  datatype Run = Run(outcome: Outcome, fragments: seq<seq<byte>>)

  /** What one pass of the loop body does with the result of its read. */
  datatype Step = Exit(outcome: Outcome) | Str(value: seq<byte>)

  /** The pass's effect for one read: stop, or produce the chunk as a `str`. */
  function StepOf(r: ReadResult): (st: Step)
    ensures st.Str? ==> r.Bytes? && st.value == r.data
    ensures st == Exit(IoFailed) <==> r.IoError?
    ensures st == Exit(Finished) <==> r.Bytes? && r.data == []
    ensures st == Exit(Panicked) <==> r.Bytes? && r.data != [] && !WellFormed(r.data)
  {
    match r
    case IoError => Exit(IoFailed)
    case Bytes(d) =>
      if d == [] then Exit(Finished)
      else if !WellFormed(d) then Exit(Panicked)
      else Str(d)
  }

  /** What the loop does with a stream, read by read. */
  function Spec(src: Script): (r: Run)
    ensures forall i | 0 <= i < |r.fragments| :: WellFormed(r.fragments[i])
    decreases |src|
  {
    match StepOf(Read(src).0)
    case Exit(o) => Run(o, [])
    case Str(d) =>
      var t := Spec(Read(src).1);
      Run(t.outcome, [d] + t.fragments)
  }

  /** `consume(s.chars())`: `Chars::next` decodes one character at a time until the `str` ends. */
  method ConsumeChars(s: seq<byte>) returns (seen: seq<char>)
    requires WellFormed(s)
    ensures seen == Decode(s)
  {
    seen := [];
    var pos := 0;
    assert s[..0] == [];
    assert s[0..] == s;
    while pos < |s|
      invariant pos <= |s| && WellFormed(s[..pos]) && WellFormed(s[pos..])
      invariant seen == Decode(s[..pos])
      decreases |s| - pos
    {
      var w := HeadWidth(s[pos..]);
      DecodeStep(s, pos);
      seen := seen + [DecodeHead(s[pos..])];
      pos := pos + w;
    }
    assert s[..pos] == s;
  }

  /**
   * The macro's block, run on the stream `script` with buffer size `size`.
   * `fragments` are the `str`s it produced and `chars` the chars `consume`
   * drained from them.
   */
  method ReadWithBuf(script: Script, size: nat, byChars: bool)
    returns (outcome: Outcome, fragments: seq<seq<byte>>, chars: seq<char>)
    requires FitsIn(script, size)
    ensures outcome == Spec(script).outcome
    ensures fragments == Spec(script).fragments
    ensures chars == if byChars then DecodeAll(fragments) else []
  {
    var reader := script;
    var pendingBytes: int := 0;
    var u := new byte[size + MAX_PENDING_BYTES];
    fragments, chars := [], [];
    while true
      invariant FitsIn(reader, size)
      invariant u.Length == size + MAX_PENDING_BYTES
      invariant pendingBytes == 0
      invariant Spec(script).outcome == Spec(reader).outcome
      invariant Spec(script).fragments == fragments + Spec(reader).fragments
      invariant chars == if byChars then DecodeAll(fragments) else []
      decreases |reader|
    {
      var step, rest;
      SpecUnfold(reader);
      step, rest, pendingBytes := Pass(u, pendingBytes, reader);
      if step.Exit? {
        outcome := step.outcome;
        assert fragments + [] == fragments;
        return;
      }
      chars := Emit(byChars, chars, fragments, step.value);
      AppendAssoc(fragments, [step.value], Spec(rest).fragments);
      fragments := fragments + [step.value];
      reader := rest;
    }
  }

  /** The `black_box(s)` or `consume(s.chars())` at the end of a pass. */
  method Emit(byChars: bool, chars: seq<char>, fragments: seq<seq<byte>>, s: seq<byte>)
    returns (newChars: seq<char>)
    requires WellFormed(s)
    requires chars == if byChars then DecodeAll(fragments) else []
    ensures newChars == if byChars then DecodeAll(fragments + [s]) else []
  {
    newChars := chars;
    if byChars {
      var cs := ConsumeChars(s);
      DecodeAllSnoc(fragments, s);
      newChars := chars + cs;
    }
  }

  /**
   * One pass of the loop body up to the `unwrap`: the carry copy, the read
   * into `u[4..]`, the end-of-stream test, `from_utf8` with the carry test.
   */
  method Pass(u: array<byte>, pendingBytes: int, reader: Script)
    returns (step: Step, rest: Script, newPendingBytes: int)
    requires pendingBytes == 0
    requires u.Length >= MAX_PENDING_BYTES && FitsIn(reader, u.Length - MAX_PENDING_BYTES)
    modifies u
    ensures step == StepOf(Read(reader).0) && rest == Read(reader).1
    ensures FitsIn(rest, u.Length - MAX_PENDING_BYTES)
    ensures newPendingBytes == 0
  {
    newPendingBytes := pendingBytes;
    // the carry copy loop; its range is empty because `pending_bytes` is 0
    for i := 0 to pendingBytes {
      assert false;
    }
    var r;
    r, rest := ReadInto(u, MAX_PENDING_BYTES, reader);
    if r.IoError? {
      // the `?` returns the error
      return Exit(IoFailed), rest, newPendingBytes;
    }
    var n := |r.data|;
    if n == 0 {
      return Exit(Finished), rest, newPendingBytes;
    }
    var res;
    res, newPendingBytes := CheckChunk(u, pendingBytes, n);
    match res
    case Failure(_) =>
      // `res.unwrap()` panics
      step := Exit(Panicked);
    case Success(s) =>
      step := Str(s);
  }

  /** `Spec` unfolded by one pass. */
  lemma SpecUnfold(src: Script)
    ensures StepOf(Read(src).0).Exit? ==> Spec(src) == Run(StepOf(Read(src).0).outcome, [])
    ensures StepOf(Read(src).0).Str? ==>
      Spec(src) == Run(Spec(Read(src).1).outcome, [StepOf(Read(src).0).value] + Spec(Read(src).1).fragments)
  {
  }

  /** Decoding the character at `pos` extends the decoding of the octets before it. */
  lemma DecodeStep(s: seq<byte>, pos: nat)
    requires pos < |s| && WellFormed(s[..pos]) && WellFormed(s[pos..])
    ensures HeadWidth(s[pos..]) > 0
    ensures WellFormed(s[..pos + HeadWidth(s[pos..])])
    ensures WellFormed(s[pos + HeadWidth(s[pos..])..])
    ensures Decode(s[..pos + HeadWidth(s[pos..])]) == Decode(s[..pos]) + [DecodeHead(s[pos..])]
  {
    var t := s[pos..];
    var w := HeadWidth(t);
    var c := t[..w];
    HeadChar(t);
    assert t[w..] == s[pos + w..];
    SingleChar(c);
    DecodeConcat(s[..pos], c);
    assert s[..pos] + c == s[..pos + w];
  }

  /** One UTF8-char is a well-formed slice that decodes to its scalar value. */
  lemma SingleChar(c: seq<byte>)
    requires IsChar(c)
    ensures WellFormed(c) && Decode(c) == [DecodeHead(c)]
  {
    assert c[|c|..] == [];
  }


  /** Every chunk before the end of the stream (or the first error) is well formed on its own. */
  predicate LiveChunksWellFormed(src: Script) {
    forall i | 0 <= i < Stop(src) :: WellFormed(src[i].data)
  }

  /**
   * What the loop does with a whole stream: it panics exactly when some chunk
   * read before the end of the stream is not well formed by itself; otherwise
   * it ends with the stream's first error or at its end, and its `str`s are the
   * chunks read until then, which together are all the bytes read.
   */
  lemma {:induction false} SpecOutcome(src: Script)
    ensures Spec(src).outcome == Panicked <==> !LiveChunksWellFormed(src)
    ensures Spec(src).outcome == IoFailed <==>
      LiveChunksWellFormed(src) && Stop(src) < |src| && src[Stop(src)].IoError?
    ensures Spec(src).outcome == Finished <==>
      LiveChunksWellFormed(src) && (Stop(src) == |src| || src[Stop(src)].Bytes?)
    ensures LiveChunksWellFormed(src) ==> Spec(src).fragments == ChunksOf(src[..Stop(src)])
    ensures LiveChunksWellFormed(src) ==> Flatten(Spec(src).fragments) == Concat(src[..Stop(src)])
    decreases |src|
  {
    if src == [] || src[0].IoError? || src[0].data == [] {
      assert src[..Stop(src)] == [];
    } else if !WellFormed(src[0].data) {
      assert !LiveChunksWellFormed(src);
    } else {
      var tail := src[1..];
      SpecOutcome(tail);
      LivePartTail(src);
      LiveChunksShift(src);
      var live := src[..Stop(src)];
      assert ChunksOf(live) == [src[0].data] + ChunksOf(live[1..]);
      assert Flatten([src[0].data] + Spec(tail).fragments) == src[0].data + Flatten(Spec(tail).fragments);
      assert src[Stop(src)..] == tail[Stop(tail)..];
    }
  }

  /** `LiveChunksWellFormed` of a script whose first live read is well formed. */
  lemma LiveChunksShift(src: Script)
    requires Stop(src) > 0 && WellFormed(src[0].data)
    ensures LiveChunksWellFormed(src) <==> LiveChunksWellFormed(src[1..])
  {
    LivePartTail(src);
    if LiveChunksWellFormed(src[1..]) {
      forall i | 0 <= i < Stop(src) ensures WellFormed(src[i].data) {
        if i > 0 {
          assert src[i] == src[1..][i - 1];
        }
      }
    }
    if LiveChunksWellFormed(src) {
      forall i | 0 <= i < Stop(src[1..]) ensures WellFormed(src[1..][i].data) {
        assert src[1..][i] == src[i + 1];
      }
    }
  }

  /**
   * With `by_chars` and no chunk that is ill formed on its own, `consume`
   * drains exactly the chars of all the bytes read before the end of the
   * stream (or its first error).
   */
  lemma CharsOfRun(src: Script)
    requires LiveChunksWellFormed(src)
    ensures WellFormed(Concat(src[..Stop(src)]))
    ensures DecodeAll(Spec(src).fragments) == Decode(Concat(src[..Stop(src)]))
  {
    SpecOutcome(src);
    DecodeAllFlatten(Spec(src).fragments);
  }

  /**
   * A character cut by a read boundary: the read that ends inside it and the
   * read that starts inside it are both ill formed on their own, so the loop
   * panics at whichever of them it reaches, while the same bytes in one read
   * form a single `str`.
   */
  lemma SplitCharPanics(a: seq<byte>, ch: char, k: nat, b: seq<byte>)
    requires WellFormed(a) && WellFormed(b) && 0 < k < |EncodeChar(ch)|
    ensures Spec([Bytes(a + EncodeChar(ch)[..k]), Bytes(EncodeChar(ch)[k..] + b)]) == Run(Panicked, [])
    ensures Spec([Bytes(EncodeChar(ch)[k..] + b)]) == Run(Panicked, [])
    ensures Spec([Bytes(a + EncodeChar(ch) + b)]) == Run(Finished, [a + EncodeChar(ch) + b])
  {
    var e := EncodeChar(ch);
    SplitCharHeadNotWellFormed(a, ch, k);
    SplitCharTailNotWellFormed(ch, k, b);
    EncodeCharRoundTrip(ch);
    SingleChar(e);
    ConcatWellFormed(a, e);
    ConcatWellFormed(a + e, b);
    var whole := [Bytes(a + e + b)];
    SpecUnfold(whole);
    assert Read(whole).1 == [];
  }
}
