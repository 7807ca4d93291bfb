/**
 * UTF-8 as RFC 3629 defines it: the octet syntax of section 4 (UTF8-octets,
 * UTF8-char and the narrowed second-octet ranges that exclude overlong forms,
 * surrogates and code points above U+10FFFF), the bit layout of section 3, and
 * the two things Rust's `core::str::from_utf8` reports about a byte slice:
 * whether it is well formed and, when it is not, `Utf8Error::valid_up_to`.
 * Dafny's `char` is a Unicode scalar value, so it is Rust's `char` as it is.
 */
module Utf8 {
  import opened Wrappers

  /** An octet (Rust `u8`). */
  newtype byte = x: int | 0 <= x < 0x100

  /** UTF8-tail = %x80-BF */
  predicate IsTail(b: byte) {
    0x80 <= b <= 0xBF
  }

  /** The number of octets of the UTF8-char a lead octet starts, or 0 if it starts none. */
  function Width(lead: byte): nat {
    if lead <= 0x7F then 1
    else if 0xC2 <= lead <= 0xDF then 2
    else if 0xE0 <= lead <= 0xEF then 3
    else if 0xF0 <= lead <= 0xF4 then 4
    else 0
  }

  /** The range the second octet must lie in after a given lead octet. */
  predicate SecondOk(lead: byte, b: byte) {
    if lead == 0xE0 then 0xA0 <= b <= 0xBF
    else if lead == 0xED then 0x80 <= b <= 0x9F
    else if lead == 0xF0 then 0x90 <= b <= 0xBF
    else if lead == 0xF4 then 0x80 <= b <= 0x8F
    else IsTail(b)
  }

  /**
   * The length of the UTF8-char `s` starts with, or 0 when it starts with none:
   * the lead octet fixes the length, the second octet its narrowed range and
   * the others are UTF8-tail.
   */
  function HeadWidth(s: seq<byte>): (w: nat)
    ensures w <= |s| && w <= 4
  {
    if |s| == 0 then 0
    else
      var w := Width(s[0]);
      if w == 0 || |s| < w then 0
      else if w >= 2 && !SecondOk(s[0], s[1]) then 0
      else if w >= 3 && !IsTail(s[2]) then 0
      else if w == 4 && !IsTail(s[3]) then 0
      else w
  }

  /** `c` is exactly one UTF8-char: UTF8-1, UTF8-2, UTF8-3 or UTF8-4. */
  predicate IsChar(c: seq<byte>) {
    0 < |c| && HeadWidth(c) == |c|
  }

  /** UTF8-octets = *( UTF8-char ). The lead octet fixes the alternative, so the parse is greedy. */
  predicate WellFormed(s: seq<byte>)
    decreases |s|
  {
    s == [] || (HeadWidth(s) > 0 && WellFormed(s[HeadWidth(s)..]))
  }

  /** How far the greedy parse of `s` gets: `Utf8Error::valid_up_to`. */
  function ValidUpTo(s: seq<byte>): (k: nat)
    ensures k <= |s|
    decreases |s|
  {
    var w := HeadWidth(s);
    if w == 0 then 0 else w + ValidUpTo(s[w..])
  }

  /** The head character of a prefix is the head character of the whole. */
  lemma HeadWidthOfPrefix(s: seq<byte>, k: nat)
    requires k <= |s| && HeadWidth(s[..k]) > 0
    ensures HeadWidth(s) == HeadWidth(s[..k])
    ensures DecodeHead(s) == DecodeHead(s[..k])
  {
  }

  /** Every well-formed prefix of `s` is at most `ValidUpTo(s)` long. */
  lemma {:induction false} ValidUpToIsLongest(s: seq<byte>, k: nat)
    requires k <= |s| && WellFormed(s[..k])
    ensures k <= ValidUpTo(s)
    decreases |s|
  {
    if k > 0 {
      var w := HeadWidth(s[..k]);
      HeadWidthOfPrefix(s, k);
      assert s[..k][w..] == s[w..][..k - w];
      ValidUpToIsLongest(s[w..], k - w);
    }
  }

  /** The prefix of length `ValidUpTo(s)` is itself well formed. */
  lemma {:induction false} ValidUpToPrefixWellFormed(s: seq<byte>)
    ensures WellFormed(s[..ValidUpTo(s)])
    decreases |s|
  {
    var w := HeadWidth(s);
    if w > 0 {
      ValidUpToPrefixWellFormed(s[w..]);
      var k := ValidUpTo(s);
      assert HeadWidth(s[..k]) == w;
      assert s[..k][w..] == s[w..][..ValidUpTo(s[w..])];
    }
  }

  /** `valid_up_to` is the length of the longest well-formed prefix. */
  lemma ValidUpToIsLongestPrefix(s: seq<byte>)
    ensures WellFormed(s[..ValidUpTo(s)])
    ensures forall k | 0 <= k <= |s| && WellFormed(s[..k]) :: k <= ValidUpTo(s)
  {
    ValidUpToPrefixWellFormed(s);
    forall k | 0 <= k <= |s| && WellFormed(s[..k]) ensures k <= ValidUpTo(s) {
      ValidUpToIsLongest(s, k);
    }
  }

  /** A slice is well formed exactly when the greedy parse reaches its end. */
  lemma WellFormedIffValidToEnd(s: seq<byte>)
    ensures WellFormed(s) <==> ValidUpTo(s) == |s|
  {
    assert s[..|s|] == s;
    if WellFormed(s) {
      ValidUpToIsLongest(s, |s|);
    }
    if ValidUpTo(s) == |s| {
      ValidUpToPrefixWellFormed(s);
    }
  }

  /** The error `from_utf8` returns, reduced to the field the model reads. */
  datatype Utf8Error = Utf8Error(validUpTo: nat)

  /**
   * `core::str::from_utf8`: the slice itself as a `str` (whose bytes it is)
   * when it is well formed, otherwise the error with `valid_up_to`.
   */
  function FromUtf8(v: seq<byte>): (r: Result<seq<byte>, Utf8Error>)
    ensures r.Success? <==> WellFormed(v)
    ensures r.Success? ==> r.value == v
    ensures r.Failure? ==> r.error.validUpTo < |v| && WellFormed(v[..r.error.validUpTo])
    ensures r.Failure? ==> forall k | 0 <= k <= |v| && WellFormed(v[..k]) :: k <= r.error.validUpTo
  {
    WellFormedIffValidToEnd(v);
    ValidUpToIsLongestPrefix(v);
    var k := ValidUpTo(v);
    if k == |v| then Success(v) else Failure(Utf8Error(k))
  }

  /** The scalar value of the UTF8-char `s` starts with (section 3 of RFC 3629). */
  function DecodeHead(s: seq<byte>): char
    requires HeadWidth(s) > 0
  {
    var w := HeadWidth(s);
    if w == 1 then
      (s[0] as int) as char
    else if w == 2 then
      ((s[0] as int - 0xC0) * 0x40 + (s[1] as int - 0x80)) as char
    else if w == 3 then
      ((s[0] as int - 0xE0) * 0x1000 + (s[1] as int - 0x80) * 0x40 + (s[2] as int - 0x80)) as char
    else
      ((s[0] as int - 0xF0) * 0x4_0000 + (s[1] as int - 0x80) * 0x1000
       + (s[2] as int - 0x80) * 0x40 + (s[3] as int - 0x80)) as char
  }

  /** `str::chars` on a well-formed slice: the scalar values in order. */
  function Decode(s: seq<byte>): (cs: seq<char>)
    requires WellFormed(s)
    ensures |cs| <= |s|
    ensures cs == [] <==> s == []
    decreases |s|
  {
    if s == [] then [] else [DecodeHead(s)] + Decode(s[HeadWidth(s)..])
  }

  /** The UTF-8 octets of one scalar value (section 3 of RFC 3629). */
  function EncodeChar(ch: char): seq<byte> {
    var cp := ch as int;
    if cp < 0x80 then
      [cp as byte]
    else if cp < 0x800 then
      [(0xC0 + cp / 0x40) as byte, (0x80 + cp % 0x40) as byte]
    else if cp < 0x1_0000 then
      [(0xE0 + cp / 0x1000) as byte, (0x80 + cp / 0x40 % 0x40) as byte, (0x80 + cp % 0x40) as byte]
    else
      [(0xF0 + cp / 0x4_0000) as byte, (0x80 + cp / 0x1000 % 0x40) as byte,
       (0x80 + cp / 0x40 % 0x40) as byte, (0x80 + cp % 0x40) as byte]
  }

  /** The UTF-8 octets of a string. */
  function Encode(cs: seq<char>): seq<byte> {
    if cs == [] then [] else EncodeChar(cs[0]) + Encode(cs[1..])
  }

  /** Encoding one scalar value gives one UTF8-char, and decoding it gives the value back. */
  lemma EncodeCharRoundTrip(ch: char)
    ensures IsChar(EncodeChar(ch))
    ensures DecodeHead(EncodeChar(ch)) == ch
  {
    var cp := ch as int;
    var e := EncodeChar(ch);
    if cp < 0x80 {
    } else if cp < 0x800 {
      var a, b := cp / 0x40, cp % 0x40;
      assert e == [(0xC0 + a) as byte, (0x80 + b) as byte];
      assert DecodeHead(e) as int == a * 0x40 + b == cp;
    } else if cp < 0x1_0000 {
      EncodeThreeRoundTrip(ch);
    } else {
      EncodeFourRoundTrip(ch);
    }
  }

  lemma EncodeThreeRoundTrip(ch: char)
    requires 0x800 <= ch as int < 0x1_0000
    ensures IsChar(EncodeChar(ch)) && DecodeHead(EncodeChar(ch)) == ch
  {
    var cp := ch as int;
    var q := cp / 0x40;
    var a, b, c := q / 0x40, q % 0x40, cp % 0x40;
    assert cp == q * 0x40 + c;
    assert q == a * 0x40 + b;
    assert a == cp / 0x1000;
    var e := EncodeChar(ch);
    assert e == [(0xE0 + a) as byte, (0x80 + b) as byte, (0x80 + c) as byte];
    assert a == 0 ==> b >= 0x20;
    assert a == 0xD ==> b < 0x20;
    assert SecondOk(e[0], e[1]);
    assert DecodeHead(e) as int == a * 0x1000 + b * 0x40 + c;
  }

  lemma EncodeFourRoundTrip(ch: char)
    requires 0x1_0000 <= ch as int
    ensures IsChar(EncodeChar(ch)) && DecodeHead(EncodeChar(ch)) == ch
  {
    var cp := ch as int;
    var q := cp / 0x40;
    var r := q / 0x40;
    var a, b, c, d := r / 0x40, r % 0x40, q % 0x40, cp % 0x40;
    assert cp == q * 0x40 + d;
    assert q == r * 0x40 + c;
    assert r == a * 0x40 + b;
    assert r == cp / 0x1000;
    assert a == cp / 0x4_0000;
    assert a <= 4;
    var e := EncodeChar(ch);
    assert e == [(0xF0 + a) as byte, (0x80 + b) as byte, (0x80 + c) as byte, (0x80 + d) as byte];
    assert a == 0 ==> b >= 0x10;
    assert a == 4 ==> b < 0x10;
    assert SecondOk(e[0], e[1]);
    assert DecodeHead(e) as int == a * 0x4_0000 + b * 0x1000 + c * 0x40 + d;
  }

  /** Decoding one UTF8-char and encoding the value gives the same octets back. */
  lemma DecodeCharRoundTrip(c: seq<byte>)
    requires IsChar(c)
    ensures EncodeChar(DecodeHead(c)) == c
  {
    if |c| == 2 {
      var cp := DecodeHead(c) as int;
      var a, b := c[0] as int - 0xC0, c[1] as int - 0x80;
      assert cp == a * 0x40 + b;
      assert cp / 0x40 == a && cp % 0x40 == b;
    } else if |c| == 3 {
      DecodeThreeRoundTrip(c);
    } else if |c| == 4 {
      DecodeFourRoundTrip(c);
    }
  }

  lemma DecodeThreeRoundTrip(c: seq<byte>)
    requires IsChar(c) && |c| == 3
    ensures EncodeChar(DecodeHead(c)) == c
  {
    var cp := DecodeHead(c) as int;
    var a, b, d := c[0] as int - 0xE0, c[1] as int - 0x80, c[2] as int - 0x80;
    assert cp == (a * 0x40 + b) * 0x40 + d;
    assert cp / 0x40 == a * 0x40 + b && cp % 0x40 == d;
    assert cp / 0x40 % 0x40 == b;
    assert cp / 0x1000 == a;
    assert 0x800 <= cp < 0x1_0000;
  }

  lemma DecodeFourRoundTrip(c: seq<byte>)
    requires IsChar(c) && |c| == 4
    ensures EncodeChar(DecodeHead(c)) == c
  {
    var cp := DecodeHead(c) as int;
    var a, b, d, f := c[0] as int - 0xF0, c[1] as int - 0x80, c[2] as int - 0x80, c[3] as int - 0x80;
    assert cp == ((a * 0x40 + b) * 0x40 + d) * 0x40 + f;
    assert cp / 0x40 == (a * 0x40 + b) * 0x40 + d && cp % 0x40 == f;
    assert cp / 0x40 % 0x40 == d;
    assert cp / 0x1000 == a * 0x40 + b;
    assert cp / 0x1000 % 0x40 == b;
    assert cp / 0x4_0000 == a;
    assert 0x1_0000 <= cp;
  }

  /** Encoding a string gives a well-formed slice that decodes back to the string. */
  lemma {:induction false} EncodeRoundTrip(cs: seq<char>)
    ensures WellFormed(Encode(cs))
    ensures Decode(Encode(cs)) == cs
  {
    if cs != [] {
      var e := EncodeChar(cs[0]);
      var rest := Encode(cs[1..]);
      assert WellFormed(rest) && Decode(rest) == cs[1..] by {
        EncodeRoundTrip(cs[1..]);
      }
      assert HeadWidth(e + rest) == |e| && (e + rest)[|e|..] == rest && DecodeHead(e + rest) == cs[0] by {
        EncodeCharRoundTrip(cs[0]);
        HeadOfConcat(e, rest);
      }
      assert WellFormed(e + rest) && Decode(e + rest) == [cs[0]] + cs[1..] by {
        DecodeUnfold(e + rest);
      }
      assert [cs[0]] + cs[1..] == cs;
    }
  }

  /** Decoding a well-formed slice and encoding the result gives the same octets back. */
  lemma {:induction false} DecodeRoundTrip(s: seq<byte>)
    requires WellFormed(s)
    ensures Encode(Decode(s)) == s
    decreases |s|
  {
    if s != [] {
      var w := HeadWidth(s);
      DecodeRoundTripStep(s);
      DecodeRoundTrip(s[w..]);
      TakeDrop(s, w);
    }
  }

  /** Decoding and encoding a non-empty well-formed slice gives back its head char's octets, then those of the rest. */
  lemma DecodeRoundTripStep(s: seq<byte>)
    requires WellFormed(s) && s != []
    ensures WellFormed(s[HeadWidth(s)..])
    ensures Encode(Decode(s)) == s[..HeadWidth(s)] + Encode(Decode(s[HeadWidth(s)..]))
  {
    var rest := Decode(s[HeadWidth(s)..]);
    DecodeUnfold(s);
    EncodeHead(s, rest);
  }

  /** Encoding the head char of `s` in front of a string gives back the octets it was decoded from. */
  lemma EncodeHead(s: seq<byte>, cs: seq<char>)
    requires HeadWidth(s) > 0
    ensures Encode([DecodeHead(s)] + cs) == s[..HeadWidth(s)] + Encode(cs)
  {
    EncodeCons(DecodeHead(s), cs);
    HeadChar(s);
    DecodeCharRoundTrip(s[..HeadWidth(s)]);
  }

  /** `Encode` of a string with one more char in front. */
  lemma EncodeCons(c: char, cs: seq<char>)
    ensures Encode([c] + cs) == EncodeChar(c) + Encode(cs)
  {
    assert ([c] + cs)[1..] == cs;
  }

  /** Well-formed slices concatenate to a well-formed slice. */
  lemma {:induction false} ConcatWellFormed(a: seq<byte>, b: seq<byte>)
    requires WellFormed(a) && WellFormed(b)
    ensures WellFormed(a + b)
    decreases |a|
  {
    if a == [] {
      assert a + b == b;
    } else {
      var w := HeadWidth(a);
      assert HeadWidth(a + b) == w && (a + b)[w..] == a[w..] + b by {
        HeadOfConcat(a, b);
      }
      ConcatWellFormed(a[w..], b);
    }
  }

  /** Decoding distributes over the concatenation of well-formed slices. */
  lemma {:induction false} DecodeConcat(a: seq<byte>, b: seq<byte>)
    requires WellFormed(a) && WellFormed(b)
    ensures WellFormed(a + b)
    ensures Decode(a + b) == Decode(a) + Decode(b)
    decreases |a|
  {
    ConcatWellFormed(a, b);
    if a == [] {
      assert a + b == b;
    } else {
      var w := HeadWidth(a);
      var h, x, y := [DecodeHead(a)], Decode(a[w..]), Decode(b);
      assert HeadWidth(a + b) == w && (a + b)[w..] == a[w..] + b && DecodeHead(a + b) == DecodeHead(a) by {
        HeadOfConcat(a, b);
      }
      assert Decode(a[w..] + b) == x + y by {
        DecodeConcat(a[w..], b);
      }
      assert Decode(a + b) == h + Decode(a[w..] + b) by {
        DecodeUnfold(a + b);
      }
      assert Decode(a) == h + x by {
        DecodeUnfold(a);
      }
      AppendAssoc(h, x, y);
    }
  }

  /** `Decode` of a non-empty slice, one step unfolded. */
  lemma DecodeUnfold(s: seq<byte>)
    requires s != [] && HeadWidth(s) > 0 && WellFormed(s[HeadWidth(s)..])
    ensures WellFormed(s)
    ensures Decode(s) == [DecodeHead(s)] + Decode(s[HeadWidth(s)..])
  {
  }

  /** Appending octets to a slice leaves its head character in place. */
  lemma HeadOfConcat(a: seq<byte>, b: seq<byte>)
    requires HeadWidth(a) > 0
    ensures HeadWidth(a + b) == HeadWidth(a)
    ensures DecodeHead(a + b) == DecodeHead(a)
    ensures (a + b)[HeadWidth(a)..] == a[HeadWidth(a)..] + b
  {
    assert (a + b)[HeadWidth(a)..] == a[HeadWidth(a)..] + b;
  }

  /** The octets of the head character form one UTF8-char with the same value. */
  lemma HeadChar(s: seq<byte>)
    requires HeadWidth(s) > 0
    ensures IsChar(s[..HeadWidth(s)])
    ensures DecodeHead(s[..HeadWidth(s)]) == DecodeHead(s)
  {
  }

  /** What follows a well-formed prefix of a well-formed slice is well formed. */
  lemma {:induction false} SuffixWellFormed(a: seq<byte>, b: seq<byte>)
    requires WellFormed(a) && WellFormed(a + b)
    ensures WellFormed(b)
    decreases |a|
  {
    if a == [] {
      assert a + b == b;
    } else {
      var w := HeadWidth(a);
      HeadOfConcat(a, b);
      SuffixWellFormed(a[w..], b);
    }
  }

  /** A slice that ends with the first `k` octets of a multi-octet character is not well formed. */
  lemma SplitCharHeadNotWellFormed(a: seq<byte>, ch: char, k: nat)
    requires WellFormed(a) && 0 < k < |EncodeChar(ch)|
    ensures !WellFormed(a + EncodeChar(ch)[..k])
  {
    EncodeCharRoundTrip(ch);
    var p := EncodeChar(ch)[..k];
    assert HeadWidth(p) == 0;
    if WellFormed(a + p) {
      SuffixWellFormed(a, p);
      assert false;
    }
  }

  /** A slice that starts with the last octets of a multi-octet character is not well formed. */
  lemma SplitCharTailNotWellFormed(ch: char, k: nat, b: seq<byte>)
    requires 0 < k < |EncodeChar(ch)|
    ensures !WellFormed(EncodeChar(ch)[k..] + b)
  {
    EncodeCharRoundTrip(ch);
    var t := EncodeChar(ch)[k..] + b;
    assert t[0] == EncodeChar(ch)[k];
    assert Width(t[0]) == 0;
  }
}
