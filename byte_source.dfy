/**
 * The byte stream the readers pull from (a `File`, or a `BufReader` over
 * one), replaced by a script: the results its successive `read` calls
 * return. Once the script is used up, every further read returns Ok(0),
 * which is how a file at its end behaves.
 */
module ByteSource {
  import opened Utf8

  /** What one call of `io::Read::read` gives: Ok(n) with the n bytes it wrote, or an error. */
  datatype ReadResult = Bytes(data: seq<byte>) | IoError

  /** The results of the successive reads of one stream. */
  type Script = seq<ReadResult>

  /** One read: the next scripted result and the rest of the script. */
  function Read(src: Script): (ReadResult, Script) {
    if src == [] then (Bytes([]), []) else (src[0], src[1..])
  }

  /** The bound `io::Read::read` promises: no read returns more bytes than the buffer it fills. */
  predicate FitsIn(src: Script, max: nat) {
    forall i | 0 <= i < |src| :: src[i].Bytes? ==> |src[i].data| <= max
  }

  /** The bytes of every successful read, in order. */
  function Concat(src: Script): seq<byte> {
    if src == [] then [] else (if src[0].Bytes? then src[0].data else []) + Concat(src[1..])
  }

  /** The position of the first read that is an error or returns 0 bytes (end of stream). */
  function Stop(src: Script): (k: nat)
    ensures k <= |src|
    ensures forall i | 0 <= i < k :: src[i].Bytes? && src[i].data != []
    ensures k < |src| ==> src[k].IoError? || src[k].data == []
  {
    if src == [] || src[0].IoError? || src[0].data == [] then 0 else 1 + Stop(src[1..])
  }

  /** The position of the first read that returns 0 bytes: where an iterator over the stream ends. */
  function EndOf(src: Script): (k: nat)
    ensures k <= |src|
    ensures forall i | 0 <= i < k :: src[i] != Bytes([])
    ensures k < |src| ==> src[k] == Bytes([])
  {
    if src == [] || src[0] == Bytes([]) then 0 else 1 + EndOf(src[1..])
  }

  /** Every successful read of the script returns a well-formed slice. */
  predicate ChunksWellFormed(src: Script) {
    forall i | 0 <= i < |src| :: src[i].Bytes? ==> WellFormed(src[i].data)
  }

  /** The chars of a sequence of `str`s, one after the other (a slice that is not well formed adds none). */
  function DecodeAll(fragments: seq<seq<byte>>): seq<char> {
    if fragments == [] then []
    else (if WellFormed(fragments[0]) then Decode(fragments[0]) else []) + DecodeAll(fragments[1..])
  }

  /** The bytes of a sequence of `str`s, one after the other. */
  function Flatten(fragments: seq<seq<byte>>): seq<byte> {
    if fragments == [] then [] else fragments[0] + Flatten(fragments[1..])
  }

  /** The data of a sequence of successful reads. */
  function ChunksOf(src: Script): seq<seq<byte>> {
    if src == [] then [] else (if src[0].Bytes? then [src[0].data] else []) + ChunksOf(src[1..])
  }

  /** `DecodeAll` of a sequence extended at the end. */
  lemma {:induction false} DecodeAllSnoc(fragments: seq<seq<byte>>, f: seq<byte>)
    requires WellFormed(f)
    ensures DecodeAll(fragments + [f]) == DecodeAll(fragments) + Decode(f)
  {
    if fragments == [] {
      assert [] + [f] == [f];
    } else {
      assert (fragments + [f])[1..] == fragments[1..] + [f];
      DecodeAllSnoc(fragments[1..], f);
    }
  }

  /** The chars of well-formed `str`s, one after the other, are the chars of their bytes put together. */
  lemma {:induction false} DecodeAllFlatten(fragments: seq<seq<byte>>)
    requires forall i | 0 <= i < |fragments| :: WellFormed(fragments[i])
    ensures WellFormed(Flatten(fragments))
    ensures DecodeAll(fragments) == Decode(Flatten(fragments))
  {
    if fragments != [] {
      DecodeAllFlatten(fragments[1..]);
      DecodeConcat(fragments[0], Flatten(fragments[1..]));
    }
  }

  /** `Concat` of a script split after its first element. */
  lemma ConcatCons(src: Script)
    requires src != []
    ensures Concat(src) == (if src[0].Bytes? then src[0].data else []) + Concat(src[1..])
  {
  }

  /** The live part of a script (before `Stop`) with its first read taken off. */
  lemma LivePartTail(src: Script)
    requires Stop(src) > 0
    ensures Stop(src[1..]) == Stop(src) - 1
    ensures src[..Stop(src)][1..] == src[1..][..Stop(src[1..])]
    ensures Concat(src[..Stop(src)]) == src[0].data + Concat(src[1..][..Stop(src[1..])])
  {
    var live := src[..Stop(src)];
    assert live[1..] == src[1..][..Stop(src[1..])];
    ConcatCons(live);
  }

  /**
   * `reader.read(&mut buf[offset..])`: the next scripted result; a success
   * overwrites `buf[offset..offset + n]` with its n bytes and leaves the rest
   * of the buffer alone, an error writes nothing.
   */
  method ReadInto(buf: array<byte>, offset: nat, src: Script) returns (res: ReadResult, rest: Script)
    requires offset <= buf.Length && FitsIn(src, buf.Length - offset)
    modifies buf
    ensures (res, rest) == Read(src)
    ensures FitsIn(rest, buf.Length - offset)
    ensures res.Bytes? ==> |res.data| <= buf.Length - offset
    ensures res.Bytes? ==> buf[..] == old(buf[..offset]) + res.data + old(buf[offset + |res.data|..])
    ensures res.Bytes? ==> buf[offset..offset + |res.data|] == res.data
    ensures res.IoError? ==> buf[..] == old(buf[..])
  {
    res, rest := Read(src).0, Read(src).1;
    if res.Bytes? {
      var data := res.data;
      forall i | 0 <= i < |data| {
        buf[offset + i] := data[i];
      }
      assert buf[offset..offset + |data|] == data;
      assert buf[..] == old(buf[..offset]) + data + old(buf[offset + |data|..]);
    }
  }

  /** The chars of the chunks, decoded one by one, are the chars of all the bytes read, when each chunk is well formed. */
  lemma {:induction false} DecodeChunks(src: Script)
    requires ChunksWellFormed(src)
    ensures WellFormed(Concat(src))
    ensures DecodeAll(ChunksOf(src)) == Decode(Concat(src))
  {
    if src != [] {
      var rest := src[1..];
      assert ChunksWellFormed(rest) by {
        forall i | 0 <= i < |rest| ensures rest[i].Bytes? ==> WellFormed(rest[i].data) {
          assert rest[i] == src[i + 1];
        }
      }
      DecodeChunks(rest);
      if src[0].Bytes? {
        var d := src[0].data;
        DecodeConcat(d, Concat(rest));
        assert ([d] + ChunksOf(rest))[1..] == ChunksOf(rest);
      } else {
        assert [] + Concat(rest) == Concat(rest);
        assert [] + ChunksOf(rest) == ChunksOf(rest);
      }
    }
  }

  /** `DecodeAll` of a sequence with one more slice in front. */
  lemma DecodeAllCons(f: seq<byte>, fragments: seq<seq<byte>>)
    ensures DecodeAll([f] + fragments) == (if WellFormed(f) then Decode(f) else []) + DecodeAll(fragments)
  {
    assert ([f] + fragments)[1..] == fragments;
  }

  /** The part of a script before its end (`EndOf`), with the first read taken off. */
  lemma EndTail(src: Script)
    requires EndOf(src) > 0
    ensures EndOf(src[1..]) == EndOf(src) - 1
    ensures Concat(src[..EndOf(src)]) ==
      (if src[0].Bytes? then src[0].data else []) + Concat(src[1..][..EndOf(src[1..])])
    ensures ChunksOf(src[..EndOf(src)]) ==
      (if src[0].Bytes? then [src[0].data] else []) + ChunksOf(src[1..][..EndOf(src[1..])])
  {
    var live := src[..EndOf(src)];
    assert live[1..] == src[1..][..EndOf(src[1..])];
    ConcatCons(live);
  }
}
