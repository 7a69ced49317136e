/**
 A model of the text codec that feeds strings to the engine: characters become
 their code points, and recovered numbers become characters again, with zeros
 (the engine's padding) skipped and every value reduced into [0, 1200).
 */
module Text {
  import RingLWE

  /** Recovered numbers are reduced modulo this many code points. */
  const CodePointRange: int := 1200

  /** The end index Python's slice s[:stop] takes on a sequence of length len. */
  function SliceStop(len: nat, stop: int): nat
  {
    if stop >= 0 then (if stop < len then stop else len)
    else if len + stop > 0 then len + stop
    else 0
  }

  /** The code points of the characters of text, cut at maxLength with Python slice semantics. */
  function TextToNumbers(text: string, maxLength: int): (numbers: seq<int>)
    ensures maxLength >= 0 ==> |numbers| == if |text| < maxLength then |text| else maxLength
    ensures maxLength < 0 ==> |numbers| == if |text| + maxLength > 0 then |text| + maxLength else 0
    ensures forall i :: 0 <= i < |numbers| ==> numbers[i] == text[i] as int
  {
    var codes := seq(|text|, i requires 0 <= i < |text| => text[i] as int);
    codes[..SliceStop(|codes|, maxLength)]
  }

  /** The number of nonzero entries of a sequence. */
  function NonZeroCount(numbers: seq<int>): nat
  {
    if numbers == [] then 0
    else (if numbers[0] != 0 then 1 else 0) + NonZeroCount(numbers[1..])
  }

  /** One character per nonzero number, in order: the number reduced modulo 1200 (floor modulo). */
  function NumbersToText(numbers: seq<int>): (text: string)
    ensures |text| == NonZeroCount(numbers)
    ensures forall i :: 0 <= i < |text| ==> 0 <= text[i] as int < CodePointRange
  {
    if numbers == [] then ""
    else
      var head := if numbers[0] != 0 then [(numbers[0] % CodePointRange) as char] else "";
      head + NumbersToText(numbers[1..])
  }

  /** Decoding a concatenation decodes each part. */
  lemma {:induction false} NumbersToTextAppend(s: seq<int>, t: seq<int>)
    ensures NumbersToText(s + t) == NumbersToText(s) + NumbersToText(t)
  {
    if s != [] {
      assert (s + t)[0] == s[0];
      assert (s + t)[1..] == s[1..] + t;
      NumbersToTextAppend(s[1..], t);
    } else {
      assert s + t == t;
    }
  }

  /** Zeros decode to nothing. */
  lemma {:induction false} NumbersToTextOfZeros(k: nat)
    ensures NumbersToText(RingLWE.Zeros(k)) == ""
  {
    if k > 0 {
      assert RingLWE.Zeros(k)[1..] == RingLWE.Zeros(k - 1);
      NumbersToTextOfZeros(k - 1);
    }
  }

  /** Appending zeros (padding) does not change the decoded text. */
  lemma NumbersToTextIgnoresPadding(s: seq<int>, k: nat)
    ensures NumbersToText(s + RingLWE.Zeros(k)) == NumbersToText(s)
  {
    NumbersToTextAppend(s, RingLWE.Zeros(k));
    NumbersToTextOfZeros(k);
  }

  /**
   Every nonzero number numbers[i] gives a character at position "number of nonzero
   entries before i", and that character is numbers[i] mod 1200.
   */
  lemma {:induction false} NumbersToTextAt(numbers: seq<int>, i: nat)
    requires i < |numbers| && numbers[i] != 0
    ensures NonZeroCount(numbers[..i]) < |NumbersToText(numbers)|
    ensures NumbersToText(numbers)[NonZeroCount(numbers[..i])] == (numbers[i] % CodePointRange) as char
  {
    NumbersToTextAppend(numbers[..i], numbers[i..]);
    assert numbers[..i] + numbers[i..] == numbers;
    assert numbers[i..][0] == numbers[i];
  }

  /** Text whose code points all lie in [1, 1200) decodes back from its code points. */
  lemma {:induction false} DecodeCodePoints(text: string)
    requires forall i :: 0 <= i < |text| ==> 1 <= text[i] as int < CodePointRange
    ensures NumbersToText(seq(|text|, i requires 0 <= i < |text| => text[i] as int)) == text
  {
    if text != [] {
      var codes := seq(|text|, i requires 0 <= i < |text| => text[i] as int);
      assert codes[1..] == seq(|text[1..]|, i requires 0 <= i < |text[1..]| => text[1..][i] as int);
      DecodeCodePoints(text[1..]);
      assert [text[0]] + text[1..] == text;
    }
  }

  /** Encoding then decoding gives the prefix that the slice keeps, when all code points lie in [1, 1200). */
  lemma TextRoundTrip(text: string, maxLength: int)
    requires forall i :: 0 <= i < |text| ==> 1 <= text[i] as int < CodePointRange
    ensures NumbersToText(TextToNumbers(text, maxLength)) == text[..SliceStop(|text|, maxLength)]
  {
    var kept := text[..SliceStop(|text|, maxLength)];
    DecodeCodePoints(kept);
    assert TextToNumbers(text, maxLength) == seq(|kept|, i requires 0 <= i < |kept| => kept[i] as int);
  }

  /**
   A string of at most n characters with code points in [1, 256), encrypted with
   zero noise and decrypted by the same engine, decodes back to itself.
   */
  lemma TextRoundTripThroughEngine(engine: RingLWE.RingLWECrypto, text: string, a: seq<int>)
    requires engine.Valid() && engine.q >= RingLWE.PlaintextBound
    requires |text| <= engine.n
    requires forall i :: 0 <= i < |text| ==> 1 <= text[i] as int < RingLWE.PlaintextBound
    requires |a| == engine.n && forall i :: 0 <= i < engine.n ==> 0 <= a[i] < engine.q
    ensures RingLWE.NoiseInRange(RingLWE.Zeros(engine.n), engine.q)
    ensures var message := TextToNumbers(text, engine.n);
      NumbersToText(engine.Decrypt(a, engine.Encrypt(message, a, RingLWE.Zeros(engine.n)).1)) == text
  {
    var message := TextToNumbers(text, engine.n);
    RingLWE.RoundTripWithoutNoise(engine, message, a);
    NumbersToTextIgnoresPadding(message, engine.n - |message|);
    TextRoundTrip(text, engine.n);
    assert text[..|text|] == text;
  }
}
