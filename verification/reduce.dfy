/** `reduce_hash`: maps a hex digest and a chain position to a candidate
    password of fixed length over a fixed alphabet. */
module Reduction {
  import opened Wrappers
  import opened Arith
  import Hex

  /** The chain value is taken modulo 2^40. */
  const Modulus: nat := 0x100_0000_0000

  /** The default alphabet, `string.ascii_lowercase`. */
  const Lowercase: string := "abcdefghijklmnopqrstuvwxyz"

  /** The default `word_length`. */
  const DefaultWordLength: nat := 6

  /** Why `reduce_hash` raises instead of returning a password. */
  datatype ReduceError =
    | InvalidHex      // `int(hash_string, 16)` raises ValueError
    | EmptyAlphabet   // `value % len(alphabet)` raises ZeroDivisionError

  /** `(int(hash_string, 16) + iteration) % 2**40`. Python's `%` by a
      positive modulus floors, which agrees with Dafny's Euclidean `%`, so a
      negative `iteration` is handled as the source handles it. */
  function ChainValue(hexValue: nat, iteration: int): (v: nat)
    ensures v < Modulus
    ensures (v - hexValue - iteration) % Modulus == 0
  {
    (hexValue + iteration) % Modulus
  }

  /** The digits of `v` in base `|alphabet|`, least significant first,
      each spelled as the alphabet symbol it indexes. */
  function Spell(v: nat, alphabet: seq<char>, len: nat): (w: string)
    requires len > 0 ==> |alphabet| > 0
    ensures |w| == len
    ensures forall i :: 0 <= i < len ==> w[i] in alphabet
    decreases len
  {
    if len == 0 then []
    else [alphabet[v % |alphabet|]] + Spell(v / |alphabet|, alphabet, len - 1)
  }

  /** `reduce_hash(hash_string, iteration, alphabet, word_length)`. The
      hex parse comes first, so a malformed digest is reported before an
      empty alphabet; an empty alphabet only fails once a digit is taken. */
  function ReduceHash(hashString: string, iteration: int, alphabet: seq<char>, wordLength: nat)
    : (r: Result<string, ReduceError>)
    ensures r == Failure(InvalidHex) <==> Hex.ParseHex(hashString).None?
    ensures r == Failure(EmptyAlphabet) <==>
              Hex.ParseHex(hashString).Some? && wordLength > 0 && |alphabet| == 0
    ensures r.Success? ==> |r.value| == wordLength
    ensures r.Success? ==> forall i :: 0 <= i < wordLength ==> r.value[i] in alphabet
  {
    match Hex.ParseHex(hashString)
    case None => Failure(InvalidHex)
    case Some(x) =>
      if wordLength > 0 && |alphabet| == 0 then Failure(EmptyAlphabet)
      else Success(Spell(ChainValue(x, iteration), alphabet, wordLength))
  }

  /** The digit loop of `reduce_hash` as written: repeatedly take the
      remainder and floor-divide by the alphabet size. */
  method SpellDigits(v: nat, alphabet: seq<char>, wordLength: nat) returns (w: string)
    requires wordLength > 0 ==> |alphabet| > 0
    ensures |w| == wordLength
    ensures forall i :: 0 <= i < wordLength ==>
              w[i] == alphabet[(v / Pow(|alphabet|, i)) % |alphabet|]
    ensures w == Spell(v, alphabet, wordLength)
  {
    var value := v;
    w := [];
    for i := 0 to wordLength
      invariant |w| == i
      invariant i < wordLength ==> value == v / Pow(|alphabet|, i)
      invariant forall k :: 0 <= k < i ==> w[k] == alphabet[(v / Pow(|alphabet|, k)) % |alphabet|]
    {
      var n := |alphabet|;
      var digit := value % n;
      DivDiv(v, Pow(n, i), n);
      assert Pow(n, i + 1) == Pow(n, i) * n;
      value := value / n;
      w := w + [alphabet[digit]];
    }
    if wordLength > 0 {
      forall i | 0 <= i < wordLength
        ensures w[i] == Spell(v, alphabet, wordLength)[i]
      {
        SpellDigit(v, alphabet, wordLength, i);
      }
    }
  }

  /** Position `i` of the spelled word is the `i`-th base-`|alphabet|`
      digit of `v`. */
  lemma {:induction false} SpellDigit(v: nat, alphabet: seq<char>, len: nat, i: nat)
    requires |alphabet| > 0 && i < len
    ensures Spell(v, alphabet, len)[i] == alphabet[(v / Pow(|alphabet|, i)) % |alphabet|]
    decreases i
  {
    var n := |alphabet|;
    if i > 0 {
      assert Spell(v, alphabet, len)[i] == Spell(v / n, alphabet, len - 1)[i - 1];
      SpellDigit(v / n, alphabet, len - 1, i - 1);
      DivPowStep(v, n, i);
    }
  }

  /** Dropping the lowest digit and then `i - 1` more drops `i` digits. */
  lemma DivPowStep(v: nat, n: nat, i: nat)
    requires n > 0 && i > 0
    ensures v / n / Pow(n, i - 1) == v / Pow(n, i)
  {
    DivDiv(v, n, Pow(n, i - 1));
  }

  /** Only the low `len` digits of `v` matter. */
  lemma {:induction false} SpellModulo(v: nat, alphabet: seq<char>, len: nat)
    requires |alphabet| > 0
    ensures Spell(v, alphabet, len) == Spell(v % Pow(|alphabet|, len), alphabet, len)
    decreases len
  {
    if len > 0 {
      var n := |alphabet|;
      var m := Pow(n, len - 1);
      ModMulSplit(v, n, m);
      SpellModulo(v / n, alphabet, len - 1);
      SpellModulo((v % (n * m)) / n, alphabet, len - 1);
    }
  }

  /** The digit equation: on a parsable digest and a non-empty alphabet,
      `reduce_hash` succeeds and its `i`-th character is the `i`-th
      base-`|alphabet|` digit of the chain value, least significant first. */
  lemma ReduceHashDigits(hashString: string, iteration: int, alphabet: seq<char>, wordLength: nat)
    requires Hex.ParseHex(hashString).Some? && |alphabet| > 0
    ensures ReduceHash(hashString, iteration, alphabet, wordLength).Success?
    ensures var v := ChainValue(Hex.ParseHex(hashString).value, iteration);
            var w := ReduceHash(hashString, iteration, alphabet, wordLength).value;
            forall i :: 0 <= i < wordLength ==>
              w[i] == alphabet[(v / Pow(|alphabet|, i)) % |alphabet|]
  {
    var v := ChainValue(Hex.ParseHex(hashString).value, iteration);
    forall i | 0 <= i < wordLength
      ensures Spell(v, alphabet, wordLength)[i] == alphabet[(v / Pow(|alphabet|, i)) % |alphabet|]
    {
      SpellDigit(v, alphabet, wordLength, i);
    }
  }

  /** `reduce_hash` sees the digest and the position only through the chain
      value modulo `|alphabet|^wordLength`: inputs that agree there give the
      same password. */
  lemma ReduceHashCongruent(h1: string, it1: int, h2: string, it2: int,
                            alphabet: seq<char>, wordLength: nat)
    requires Hex.ParseHex(h1).Some? && Hex.ParseHex(h2).Some? && |alphabet| > 0
    requires ChainValue(Hex.ParseHex(h1).value, it1) % Pow(|alphabet|, wordLength)
          == ChainValue(Hex.ParseHex(h2).value, it2) % Pow(|alphabet|, wordLength)
    ensures ReduceHash(h1, it1, alphabet, wordLength) == ReduceHash(h2, it2, alphabet, wordLength)
  {
    SpellModulo(ChainValue(Hex.ParseHex(h1).value, it1), alphabet, wordLength);
    SpellModulo(ChainValue(Hex.ParseHex(h2).value, it2), alphabet, wordLength);
  }
}
