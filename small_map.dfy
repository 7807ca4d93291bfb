/**
 * The small-map benchmarks: a `Vec<(char, u32)>` used as an association
 * list, against `HashMap` and `FxHashMap` (both modelled as a Dafny `map`,
 * since only their contents matter here), filled from the chars
 * `get_input` draws from a fixed alphabet.
 */
module SmallMap {
  import opened Wrappers

  newtype u32 = x: int | 0 <= x < 0x1_0000_0000

  /** The sizes both benchmarks run with. */
  const SIZES: seq<nat> := [2, 5, 10, 15, 20, 25, 30, 40, 50, 60]

  /** The alphabet `get_input` draws from, spelled as its four runs of consecutive code points. */
  const LOWER: string := "abcdefghijklmnopqrstuvwxyz"
  const UPPER: string := "ABCDEFGHIJKLMNOPQRSTUVWXYZ"
  const DIGITS: string := "0123456789"
  const ALPHABET: string := LOWER + UPPER + "_" + DIGITS

  predicate Distinct<T(==)>(s: seq<T>) {
    forall i, j | 0 <= i < j < |s| :: s[i] != s[j]
  }

  /** Where a char stands in the alphabet (-1 for a char outside it). */
  function Position(c: char): int {
    if 'a' <= c <= 'z' then c as int - 'a' as int
    else if 'A' <= c <= 'Z' then 26 + (c as int - 'A' as int)
    else if c == '_' then 52
    else if '0' <= c <= '9' then 53 + (c as int - '0' as int)
    else -1
  }

  /** The alphabet has 63 chars and the k-th of them stands at position k. */
  lemma AlphabetPositions()
    ensures |ALPHABET| == 63
    ensures forall i | 0 <= i < |ALPHABET| :: Position(ALPHABET[i]) == i
  {
    assert forall i | 0 <= i < |LOWER| :: LOWER[i] as int == 'a' as int + i;
    assert forall i | 0 <= i < |UPPER| :: UPPER[i] as int == 'A' as int + i;
    assert forall i | 0 <= i < |DIGITS| :: DIGITS[i] as int == '0' as int + i;
    forall i | 0 <= i < |ALPHABET| ensures Position(ALPHABET[i]) == i {
      if i < 26 {
        assert ALPHABET[i] == LOWER[i];
      } else if i < 52 {
        assert ALPHABET[i] == UPPER[i - 26];
      } else if i > 52 {
        assert ALPHABET[i] == DIGITS[i - 53];
      }
    }
  }

  /** The alphabet's chars are pairwise distinct. */
  lemma AlphabetDistinct()
    ensures Distinct(ALPHABET)
  {
    AlphabetPositions();
  }

  /** What `choose_multiple(rng, size)` can return on the alphabet: `size` distinct positions of it, in any order. */
  predicate IsChoice(picks: seq<nat>, size: nat) {
    |picks| == size && Distinct(picks) && forall i | 0 <= i < |picks| :: picks[i] < |ALPHABET|
  }

  /**
   * `get_input(rng, size)`, given the positions the random generator picks.
   * None is the panic for a size larger than the alphabet; otherwise the
   * result is `size` distinct chars of the alphabet.
   */
  function GetInput(size: nat, picks: seq<nat>): (r: Option<seq<char>>)
    requires size <= |ALPHABET| ==> IsChoice(picks, size)
    ensures r.None? <==> size > 63
    ensures r.Some? ==> |r.value| == size && Distinct(r.value)
    ensures r.Some? ==> forall i | 0 <= i < size :: r.value[i] in ALPHABET
  {
    if size > |ALPHABET| then None
    else ChosenDistinct(picks, size); Some(Chosen(picks))
  }

  /** The chars at the picked positions. */
  function Chosen(picks: seq<nat>): seq<char>
    requires forall i | 0 <= i < |picks| :: picks[i] < |ALPHABET|
  {
    seq(|picks|, i requires 0 <= i < |picks| => ALPHABET[picks[i]])
  }

  /** Distinct positions of the alphabet hold distinct chars. */
  lemma ChosenDistinct(picks: seq<nat>, size: nat)
    requires IsChoice(picks, size)
    ensures |Chosen(picks)| == size && Distinct(Chosen(picks))
    ensures forall i | 0 <= i < size :: Chosen(picks)[i] in ALPHABET
  {
    AlphabetDistinct();
    var cs := Chosen(picks);
    forall i, j | 0 <= i < j < |cs| ensures cs[i] != cs[j] {
      assert picks[i] != picks[j];
    }
  }

  /** Every size the benchmarks use fits the alphabet, so `get_input` never panics there. */
  lemma SizesNeverPanic()
    ensures forall k | 0 <= k < |SIZES| :: SIZES[k] <= |ALPHABET|
  {
    AlphabetPositions();
  }

  type Pair = (char, u32)

  function Keys(vec: seq<Pair>): seq<char> {
    seq(|vec|, i requires 0 <= i < |vec| => vec[i].0)
  }

  /** `vec.iter().find(|el| el.0 == *ch)`: the first pair whose key is `ch`, if any. */
  function Find(vec: seq<Pair>, ch: char): (r: Option<Pair>)
    ensures r.None? <==> forall i | 0 <= i < |vec| :: vec[i].0 != ch
    ensures r.Some? ==> exists i | 0 <= i < |vec| :: vec[i] == r.value && FirstKey(vec, ch, i)
  {
    if vec == [] then None
    else if vec[0].0 == ch then (assert FirstKey(vec, ch, 0); Some(vec[0]))
    else
      var r := Find(vec[1..], ch);
      if r.Some? then
        var i :| 0 <= i < |vec| - 1 && vec[1..][i] == r.value && FirstKey(vec[1..], ch, i);
        assert FirstKey(vec, ch, i + 1);
        r
      else r
  }

  /** The pair at `i` is the first whose key is `ch`. */
  predicate FirstKey(vec: seq<Pair>, ch: char, i: nat) {
    i < |vec| && vec[i].0 == ch && forall j | 0 <= j < i :: vec[j].0 != ch
  }

  /** `vec.iter().any(|(c, _)| ch == c)`: some pair has the key `ch`. */
  function Any(vec: seq<Pair>, ch: char): (b: bool)
    ensures b <==> exists i | 0 <= i < |vec| :: vec[i].0 == ch
  {
    if vec == [] then false
    else vec[0].0 == ch || (assert forall i | 0 <= i < |vec| - 1 :: vec[1..][i] == vec[i + 1]; Any(vec[1..], ch))
  }

  /** Some pair has the key `ch` exactly when `ch` is among the keys. */
  lemma AnyKeys(vec: seq<Pair>, ch: char)
    ensures Any(vec, ch) <==> ch in Keys(vec)
  {
    if ch in Keys(vec) {
      var i :| 0 <= i < |vec| && Keys(vec)[i] == ch;
      assert vec[i].0 == ch;
    }
    if Any(vec, ch) {
      var i :| 0 <= i < |vec| && vec[i].0 == ch;
      assert Keys(vec)[i] == ch;
    }
  }

  /** The distinct chars of `s`, each where it first occurs. */
  function Dedup(s: seq<char>): seq<char>
    decreases |s|
  {
    if s == [] then []
    else
      var d := Dedup(s[..|s| - 1]);
      if s[|s| - 1] in d then d else d + [s[|s| - 1]]
  }

  /** The position of the first occurrence of `c` in `s`. */
  function FirstIndex(s: seq<char>, c: char): (k: nat)
    requires c in s
    ensures k < |s| && s[k] == c && forall j | 0 <= j < k :: s[j] != c
  {
    if s[0] == c then 0 else 1 + FirstIndex(s[1..], c)
  }

  /**
   * `Dedup(s)` holds each char of `s` once and nothing else, in the order of
   * the chars' first occurrences in `s`.
   */
  lemma {:induction false} DedupSpec(s: seq<char>)
    ensures Distinct(Dedup(s))
    ensures forall c :: c in Dedup(s) <==> c in s
    ensures forall i, j | 0 <= i < j < |Dedup(s)| :: FirstIndex(s, Dedup(s)[i]) < FirstIndex(s, Dedup(s)[j])
    decreases |s|
  {
    if s != [] {
      var p := s[..|s| - 1];
      var x := s[|s| - 1];
      DedupSpec(p);
      assert s == p + [x];
      forall c | c in p ensures FirstIndex(s, c) == FirstIndex(p, c) {
        FirstIndexPrefix(p, x, c);
      }
      if x !in p {
        assert FirstIndex(s, x) == |p| by {
          FirstIndexLast(p, x);
        }
      }
    }
  }

  /** The first occurrence of a char that occurs in `p` is the same in `p + [x]`. */
  lemma FirstIndexPrefix(p: seq<char>, x: char, c: char)
    requires c in p
    ensures FirstIndex(p + [x], c) == FirstIndex(p, c)
  {
    var k := FirstIndex(p, c);
    assert (p + [x])[k] == c;
    assert forall j | 0 <= j < |p| :: (p + [x])[j] == p[j];
  }

  /** A char that does not occur in `p` first occurs in `p + [x]` at the end. */
  lemma FirstIndexLast(p: seq<char>, x: char)
    requires x !in p
    ensures FirstIndex(p + [x], x) == |p|
  {
    assert forall j | 0 <= j < |p| :: (p + [x])[j] == p[j];
  }

  /**
   * The keys pushed for a prefix of the input stay, unchanged and in the same
   * places, when the rest of the input is added: `Dedup` of a prefix is a
   * prefix of `Dedup`.
   */
  lemma {:induction false} DedupPrefix(s: seq<char>, k: nat)
    requires k <= |s|
    ensures |Dedup(s[..k])| <= |Dedup(s)| && Dedup(s[..k]) == Dedup(s)[..|Dedup(s[..k])|]
    decreases |s|
  {
    if k < |s| {
      assert s[..|s| - 1][..k] == s[..k];
      DedupPrefix(s[..|s| - 1], k);
    } else {
      assert s[..k] == s;
    }
  }

  /**
   * The `Vec` strategy of `bench_add`: for each char, a pair `(ch, 0)` is
   * pushed when no pair has the key `ch` yet.
   */
  method AddVec(input: seq<char>) returns (vec: seq<Pair>)
    ensures Keys(vec) == Dedup(input)
    ensures Distinct(Keys(vec)) && forall c :: c in Keys(vec) <==> c in input
    ensures forall i | 0 <= i < |vec| :: vec[i].1 == 0
  {
    vec := [];
    for k := 0 to |input|
      invariant Keys(vec) == Dedup(input[..k])
      invariant forall i | 0 <= i < |vec| :: vec[i].1 == 0
    {
      var ch := input[k];
      assert input[..k + 1][..k] == input[..k];
      AnyKeys(vec, ch);
      if !Any(vec, ch) {
        vec := vec + [(ch, 0)];
      }
    }
    assert input[..|input|] == input;
    DedupSpec(input);
  }

  /** The `HashMap` and `FxHashMap` strategies of `bench_add`: `map.insert(*ch, 0)` for each char. */
  method AddMap(input: seq<char>) returns (m: map<char, u32>)
    ensures forall c :: c in m <==> c in input
    ensures forall c | c in m :: m[c] == 0
  {
    m := map[];
    for k := 0 to |input|
      invariant forall c :: c in m <==> c in input[..k]
      invariant forall c | c in m :: m[c] == 0
    {
      assert input[..k + 1] == input[..k] + [input[k]];
      m := m[input[k] := 0];
    }
    assert input[..|input|] == input;
  }

  /** The `Vec` and the map strategies of `bench_add` end with the same keys, all with the value 0. */
  lemma AddStrategiesAgree(input: seq<char>, vec: seq<Pair>, m: map<char, u32>)
    requires Keys(vec) == Dedup(input) && forall i | 0 <= i < |vec| :: vec[i].1 == 0
    requires (forall c :: c in m <==> c in input) && forall c | c in m :: m[c] == 0
    ensures forall c :: Any(vec, c) <==> c in m
    ensures forall c | c in m :: Find(vec, c) == Some((c, m[c]))
    ensures Distinct(Keys(vec))
  {
    DedupSpec(input);
    forall c ensures Any(vec, c) <==> c in m {
      AnyKeys(vec, c);
    }
    forall c | c in m ensures Find(vec, c) == Some((c, m[c])) {
      FindZero(vec, c);
    }
  }

  /** In a list whose values are all 0, `find` of a key returns that key with 0. */
  lemma FindZero(vec: seq<Pair>, c: char)
    requires c in Keys(vec) && forall i | 0 <= i < |vec| :: vec[i].1 == 0
    ensures Find(vec, c) == Some((c, 0))
  {
    var i :| 0 <= i < |vec| && Keys(vec)[i] == c;
    assert vec[i].0 == c;
  }

  /** The pairs `(input[k], vals[k])`. */
  function Zip(input: seq<char>, vals: seq<u32>): seq<Pair>
    requires |vals| == |input|
  {
    seq(|input|, i requires 0 <= i < |input| => (input[i], vals[i]))
  }

  /** The map that inserting the pairs in order builds: a later pair replaces an earlier one with the same key. */
  function Inserted(pairs: seq<Pair>): (m: map<char, u32>)
    ensures forall c :: c in m <==> c in Keys(pairs)
  {
    if pairs == [] then map[]
    else
      var p := pairs[..|pairs| - 1];
      assert Keys(pairs) == Keys(p) + [pairs[|pairs| - 1].0];
      Inserted(p)[pairs[|pairs| - 1].0 := pairs[|pairs| - 1].1]
  }

  /** `hash.get(ch)`. */
  function Get(m: map<char, u32>, ch: char): Option<u32> {
    if ch in m then Some(m[ch]) else None
  }

  /**
   * The fill loop of `bench_find`: each char and the random value drawn for
   * it (`vals`) go as a pair into `vec` and are inserted into `hash` and
   * `fxhash`.
   */
  method FillFind(input: seq<char>, vals: seq<u32>)
    returns (vec: seq<Pair>, hash: map<char, u32>, fxhash: map<char, u32>)
    requires |vals| == |input|
    ensures vec == Zip(input, vals)
    ensures hash == Inserted(vec) && fxhash == hash
  {
    vec, hash, fxhash := [], map[], map[];
    for k := 0 to |input|
      invariant vec == Zip(input[..k], vals[..k])
      invariant hash == Inserted(vec) && fxhash == hash
    {
      var p := (input[k], vals[k]);
      assert (vec + [p])[..|vec|] == vec;
      vec := vec + [p];
      hash := hash[input[k] := vals[k]];
      fxhash := fxhash[input[k] := vals[k]];
    }
    assert input[..|input|] == input && vals[..|vals|] == vals;
  }

  /** With distinct keys, each pair's value is the one the map holds for its key. */
  lemma {:induction false} InsertedAt(pairs: seq<Pair>, i: nat)
    requires Distinct(Keys(pairs)) && i < |pairs|
    ensures pairs[i].0 in Inserted(pairs) && Inserted(pairs)[pairs[i].0] == pairs[i].1
    decreases |pairs|
  {
    var n := |pairs| - 1;
    if i < n {
      var p := pairs[..n];
      assert Keys(p) == Keys(pairs)[..n];
      assert Keys(pairs)[i] != Keys(pairs)[n];
      InsertedAt(p, i);
    }
  }

  /**
   * `bench_find`'s lookups agree: on distinct keys, the `Vec` `find` returns
   * `Some((ch, v))` exactly when `hash.get(ch)` (and `fxhash.get(ch)`)
   * returns `Some(&v)`, and None exactly when they return None.
   */
  lemma FindAgreesWithMap(pairs: seq<Pair>, ch: char)
    requires Distinct(Keys(pairs))
    ensures Find(pairs, ch) == (match Get(Inserted(pairs), ch) case Some(v) => Some((ch, v)) case None => None)
  {
    var r := Find(pairs, ch);
    if r.Some? {
      var i :| 0 <= i < |pairs| && pairs[i] == r.value && FirstKey(pairs, ch, i);
      InsertedAt(pairs, i);
    } else {
      assert ch !in Keys(pairs);
    }
  }

  /** The inputs of `bench_find` are distinct, so its three lookups agree for every query. */
  lemma BenchFindAgrees(size: nat, picks: seq<nat>, vals: seq<u32>, ch: char)
    requires size <= |ALPHABET| && IsChoice(picks, size) && |vals| == size
    ensures GetInput(size, picks).Some?
    ensures Find(Zip(GetInput(size, picks).value, vals), ch) ==
      (match Get(Inserted(Zip(GetInput(size, picks).value, vals)), ch) case Some(v) => Some((ch, v)) case None => None)
  {
    var input := GetInput(size, picks).value;
    assert Keys(Zip(input, vals)) == input;
    FindAgreesWithMap(Zip(input, vals), ch);
  }
}
