/** SubDef/String_Int.py: text read as a big-endian number in base 256 (one
    digit per character code) and back. */
module StringInt {

  /** The radix of both conversions. */
  const Radix := 256

  /** The big-endian base-256 value of the character codes of `text`. */
  function Value(text: string): nat
    decreases |text|
  {
    if |text| == 0 then 0 else Value(text[..|text| - 1]) * Radix + text[|text| - 1] as int
  }

  /** The base-256 digits of n, most significant first, with no leading
      zero digit; 0 has no digits. */
  function Digits(n: nat): string
    decreases n
  {
    if n == 0 then [] else Digits(n / Radix) + [(n % Radix) as char]
  }

  /** A text `text_to_int` sends back to itself: every code is a byte and the
      first one is not zero. */
  predicate IsByteText(text: string) {
    (forall i :: 0 <= i < |text| ==> text[i] as int < Radix) &&
    (|text| > 0 ==> text[0] != 0 as char)
  }

  /** `text_to_int`: the accumulator loop result = result * 256 + ord(char). */
  method TextToInt(text: string) returns (result: nat)
    ensures result == Value(text)
    ensures text == [] ==> result == 0
  {
    if |text| == 0 {
      return 0;
    }
    result := 0;
    for i := 0 to |text|
      invariant result == Value(text[..i])
    {
      assert text[..i + 1][..i] == text[..i];
      result := result * Radix + text[i] as int;
    }
    assert text[..|text|] == text;
  }

  /** `int_to_text`: appends number mod 256 while number > 0, dividing by 256,
      and returns the reversed list; 0 and negative numbers give "". */
  method IntToText(number: int) returns (text: string)
    ensures number <= 0 ==> text == []
    ensures number > 0 ==> text == Digits(number)
  {
    if number == 0 {
      return [];
    }
    var n := number;
    var chars: seq<char> := [];
    while n > 0
      invariant number <= 0 ==> chars == []
      invariant number > 0 ==> n >= 0 && Digits(number) == Digits(n) + Reversed(chars)
      decreases n
    {
      ReversedAppend(chars, (n % Radix) as char);
      chars := chars + [(n % Radix) as char];
      n := n / Radix;
    }
    text := Reversed(chars);
  }

  /** `reversed`: s read from the end. */
  function Reversed<T>(s: seq<T>): (r: seq<T>)
    ensures |r| == |s| && forall i :: 0 <= i < |s| ==> r[i] == s[|s| - 1 - i]
  {
    if |s| == 0 then [] else [s[|s| - 1]] + Reversed(s[..|s| - 1])
  }

  lemma ReversedAppend<T>(s: seq<T>, x: T)
    ensures Reversed(s + [x]) == [x] + Reversed(s)
  {
    assert (s + [x])[..|s|] == s;
  }

  /** `text_to_int(int_to_text(n)) == n` for every n >= 0. */
  lemma {:induction false} ValueOfDigits(n: nat)
    ensures Value(Digits(n)) == n
    decreases n
  {
    if n > 0 {
      ValueOfDigits(n / Radix);
      var d := Digits(n / Radix);
      assert (d + [(n % Radix) as char])[..|d|] == d;
    }
  }

  /** The digits of a number are a byte text, so only byte texts come out of
      `int_to_text`. */
  lemma {:induction false} DigitsAreByteText(n: nat)
    ensures IsByteText(Digits(n))
    decreases n
  {
    if n > 0 {
      DigitsAreByteText(n / Radix);
      if n / Radix == 0 {
        assert Digits(n) == [(n % Radix) as char];
      } else {
        DigitsNonEmpty(n / Radix);
      }
    }
  }

  lemma DigitsNonEmpty(n: nat)
    requires n > 0
    ensures |Digits(n)| > 0
  {
  }

  /** A byte text is nonempty exactly when its value is positive. */
  lemma {:induction false} ValuePositive(text: string)
    requires IsByteText(text)
    ensures Value(text) > 0 <==> |text| > 0
    decreases |text|
  {
    if |text| > 1 {
      var init := text[..|text| - 1];
      assert init[0] == text[0];
      ValuePositive(init);
    } else if |text| == 1 {
      assert text[..0] == [];
    }
  }

  /** `int_to_text(text_to_int(t)) == t` for a byte text t. */
  lemma {:induction false} DigitsOfValue(text: string)
    requires IsByteText(text)
    ensures Digits(Value(text)) == text
    decreases |text|
  {
    if |text| > 0 {
      var init := text[..|text| - 1];
      var c := text[|text| - 1];
      assert IsByteText(init) by {
        if |init| > 0 {
          assert init[0] == text[0];
        }
      }
      DigitsOfValue(init);
      ValuePositive(text);
      var v := Value(text);
      assert v == Value(init) * Radix + c as int;
      assert v / Radix == Value(init) && v % Radix == c as int;
      assert text == init + [c];
    }
  }

  /** The value of a text of k byte characters is below 256^k. */
  lemma {:induction false} ValueBound(text: string)
    requires forall i :: 0 <= i < |text| ==> text[i] as int < Radix
    ensures Value(text) < PowRadix(|text|)
    decreases |text|
  {
    if |text| > 0 {
      var init := text[..|text| - 1];
      ValueBound(init);
      var k := PowRadix(|init|);
      assert Value(init) * Radix <= (k - 1) * Radix;
    }
  }

  function PowRadix(k: nat): nat {
    if k == 0 then 1 else Radix * PowRadix(k - 1)
  }
}
