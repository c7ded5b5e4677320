/** The Luhn (mod 10) check-digit scheme of Annex B of ISO/IEC 7812-1,
    as the module divers/luhn.py computes it: the decimal digits of a
    number, its checksum, the validity test and the generation of a
    check digit. Python integers are unbounded, so numbers are `nat`. */
module Luhn {

  // ---------------------------------------------------------------
  // Decimal representation: `str(number)` and `int(d)` of each char
  // ---------------------------------------------------------------

  /** The character of a decimal digit. */
  function DigitChar(d: nat): (c: char)
    requires d < 10
    ensures '0' <= c <= '9'
  {
    ('0' as int + d) as char
  }

  /** `int(c)` for a one-character digit string. */
  function CharValue(c: char): (d: nat)
    requires '0' <= c <= '9'
    ensures d < 10
  {
    c as int - '0' as int
  }

  /** Python's `str(n)` for a non-negative integer: its decimal digits,
      most significant first, without leading zeros. */
  function Str(n: nat): (s: string)
    ensures |s| >= 1
    ensures forall i :: 0 <= i < |s| ==> '0' <= s[i] <= '9'
    ensures s[0] == '0' <==> n == 0
    decreases n
  {
    if n < 10 then [DigitChar(n)] else Str(n / 10) + [DigitChar(n % 10)]
  }

  /** `digits_of`: the list of decimal digits of `n`, most significant
      first, obtained by converting each character of `str(n)`. */
  function DigitsOf(n: nat): (ds: seq<nat>)
    ensures |ds| >= 1
    ensures forall i :: 0 <= i < |ds| ==> ds[i] < 10
    ensures n < 10 ==> ds == [n]
    ensures ds[0] == 0 <==> n == 0
  {
    var s := Str(n);
    seq(|s|, i requires 0 <= i < |s| => CharValue(s[i]))
  }

  /** Reading a digit sequence in base 10, most significant digit first. */
  function Value(ds: seq<nat>): nat
  {
    if |ds| == 0 then 0 else Value(ds[..|ds| - 1]) * 10 + ds[|ds| - 1]
  }

  /** A digit sequence as `str` produces it: non-empty, every element a
      decimal digit, and no leading zero unless it is the number 0. */
  predicate Canonical(ds: seq<nat>)
  {
    && |ds| >= 1
    && (forall i :: 0 <= i < |ds| ==> ds[i] < 10)
    && (ds[0] == 0 ==> |ds| == 1)
  }

  /** Appending a digit `d` to `n` (the number `n * 10 + d`) appends `d`
      to the digits of `n`; when `n` is 0 its lone `0` is not kept. */
  lemma DigitsOfAppend(n: nat, d: nat)
    requires d < 10
    ensures DigitsOf(n * 10 + d) == (if n == 0 then [] else DigitsOf(n)) + [d]
  {
    var m := n * 10 + d;
    if n != 0 {
      assert m / 10 == n && m % 10 == d;
      var s, t := Str(m), Str(n);
      assert s == t + [DigitChar(d)];
      var ds, es := DigitsOf(m), DigitsOf(n) + [d];
      assert |ds| == |es|;
      forall i | 0 <= i < |ds| ensures ds[i] == es[i] {
        if i < |t| {
          assert s[i] == t[i];
        } else {
          assert s[i] == DigitChar(d);
        }
      }
    }
  }

  /** `digits_of` loses nothing: reading its result in base 10 gives `n` back. */
  lemma {:induction false} DigitsOfValue(n: nat)
    ensures Canonical(DigitsOf(n))
    ensures Value(DigitsOf(n)) == n
    decreases n
  {
    if n >= 10 {
      DigitsOfAppend(n / 10, n % 10);
      DigitsOfValue(n / 10);
      var ds := DigitsOf(n / 10) + [n % 10];
      assert ds[..|ds| - 1] == DigitsOf(n / 10);
    }
  }

  /** A non-empty digit sequence is worth at least its leading digit. */
  lemma {:induction false} ValueAtLeastLeading(ds: seq<nat>)
    requires |ds| >= 1
    ensures Value(ds) >= ds[0]
    decreases |ds|
  {
    if |ds| > 1 {
      var p := ds[..|ds| - 1];
      ValueAtLeastLeading(p);
      assert p[0] == ds[0];
    }
  }

  /** Conversely, every canonical digit sequence is the `digits_of` of its
      value: `digits_of` and base-10 reading are inverse bijections
      between `nat` and canonical digit sequences. */
  lemma {:induction false} ValueDigitsOf(ds: seq<nat>)
    requires Canonical(ds)
    ensures DigitsOf(Value(ds)) == ds
    decreases |ds|
  {
    if |ds| > 1 {
      var p, d := ds[..|ds| - 1], ds[|ds| - 1];
      assert p[0] == ds[0] && p[0] != 0;
      ValueAtLeastLeading(p);
      ValueDigitsOf(p);
      DigitsOfAppend(Value(p), d);
      assert p + [d] == ds;
    }
  }

  // ---------------------------------------------------------------
  // Checksum
  // ---------------------------------------------------------------

  /** Python's built-in `sum` over a list of integers. */
  function Sum(xs: seq<nat>): nat
  {
    if xs == [] then 0 else xs[0] + Sum(xs[1..])
  }

  /** The contribution of a doubled digit: `sum(digits_of(digit * 2))`. */
  function DoubledDigit(d: nat): nat
  {
    Sum(DigitsOf(d * 2))
  }

  /** Doubling a digit and adding the digits of the product is the same as
      doubling it and, when the product has two digits, subtracting 9; the
      contribution is therefore again a single digit. */
  lemma DoubledDigitValue(d: nat)
    requires d < 10
    ensures DoubledDigit(d) == if d < 5 then 2 * d else 2 * d - 9
    ensures DoubledDigit(d) < 10
  {
    if d >= 5 {
      var low := d * 2 - 10;
      DigitsOfAppend(1, low);
      assert 1 * 10 + low == d * 2;
      assert DigitsOf(d * 2) == [1, low];
      var one, two := [low], [1, low];
      assert one[1..] == [] && two[1..] == one;
      assert Sum(one) == low;
      assert Sum(two) == 1 + low;
    } else {
      var one := [d * 2];
      assert one[1..] == [];
      assert Sum(one) == d * 2;
    }
  }

  /** What the digit `d` adds to the Luhn sum when it stands at position
      `i` counted from the right, starting at 0: it is doubled exactly when
      `i` is odd, so the rightmost digit is taken as it is. */
  function Contribution(i: nat, d: nat): nat
  {
    if i % 2 == 1 then DoubledDigit(d) else d
  }

  /** The Luhn sum of a digit sequence (most significant first), each digit
      weighted by its position from the right. */
  function PositionalSum(ds: seq<nat>): nat
  {
    if ds == [] then 0 else Contribution(|ds| - 1, ds[0]) + PositionalSum(ds[1..])
  }

  /** `checksum`: the Luhn sum of the digits of `n`, modulo 10. */
  function Checksum(n: nat): (c: nat)
    ensures c < 10
  {
    PositionalSum(DigitsOf(n)) % 10
  }

  /** `checksum` as the source computes it: one pass over the reversed
      digit list, an accumulator `summed` and a flag `even` that starts
      false and is flipped after every digit. */
  method ComputeChecksum(n: nat) returns (c: nat)
    ensures c == Checksum(n)
    ensures c < 10
  {
    var ds := DigitsOf(n);
    var summed: nat := 0;
    var even := false;
    for k := 0 to |ds|
      invariant summed == PositionalSum(ds[|ds| - k..])
      invariant even <==> k % 2 == 1
    {
      var digit := ds[|ds| - 1 - k];
      assert ds[|ds| - 1 - k..][1..] == ds[|ds| - k..];
      summed := summed + (if even then DoubledDigit(digit) else digit);
      even := !even;
    }
    assert ds[|ds| - |ds|..] == ds;
    c := summed % 10;
  }

  /** Appending a digit at the right shifts every other digit one position
      to the left; the total moves by exactly the appended digit. */
  lemma {:induction false} PositionalSumAppend(ds: seq<nat>, d: nat)
    ensures PositionalSum(ds + [d]) == PositionalSum(ds + [0]) + d
    decreases |ds|
  {
    if ds != [] {
      PositionalSumAppend(ds[1..], d);
      assert (ds + [d])[1..] == ds[1..] + [d];
      assert (ds + [0])[1..] == ds[1..] + [0];
    }
  }

  /** Adding `d` modulo 10 only depends on the first summand modulo 10. */
  lemma AddMod10(a: nat, d: nat)
    ensures (a + d) % 10 == (a % 10 + d) % 10
  {
    var q := a / 10;
    assert a == q * 10 + a % 10;
    assert (a + d) == q * 10 + (a % 10 + d);
  }

  /** The checksum of `n * 10 + d` is that of `n * 10` shifted by `d`. */
  lemma ChecksumAppend(n: nat, d: nat)
    requires d < 10
    ensures Checksum(n * 10 + d) == (Checksum(n * 10) + d) % 10
  {
    var prefix := if n == 0 then [] else DigitsOf(n);
    var m0, m := n * 10, n * 10 + d;
    DigitsOfAppend(n, d);
    DigitsOfAppend(n, 0);
    assert DigitsOf(m) == prefix + [d];
    assert DigitsOf(m0) == prefix + [0];
    PositionalSumAppend(prefix, d);
    var base := PositionalSum(prefix + [0]);
    assert PositionalSum(DigitsOf(m)) == base + d;
    AddMod10(base, d);
  }

  // ---------------------------------------------------------------
  // Validation and generation
  // ---------------------------------------------------------------

  /** `is_valid`: a number passes the Luhn check when its checksum is 0. */
  predicate IsValid(n: nat)
  {
    Checksum(n) == 0
  }

  /** `generate`: `n` followed by the check digit that cancels the checksum
      of `n * 10` modulo 10. */
  function Generate(n: nat): (r: nat)
    ensures r / 10 == n
    ensures (r % 10 + Checksum(n * 10)) % 10 == 0
    ensures r % 10 == 0 <==> Checksum(n * 10) == 0
  {
    var checkDigit := Checksum(n * 10);
    var checkDigit' := if checkDigit == 0 then 0 else 10 - checkDigit;
    n * 10 + checkDigit'
  }

  /** The digits of a positive `n` are a prefix of those of `Generate(n)`,
      followed by the one check digit. */
  lemma GenerateKeepsDigits(n: nat)
    requires n > 0
    ensures DigitsOf(Generate(n)) == DigitsOf(n) + [Generate(n) % 10]
  {
    DigitsOfAppend(n, Generate(n) % 10);
  }

  /** Round trip: every generated number passes the Luhn check. */
  lemma GenerateIsValid(n: nat)
    ensures IsValid(Generate(n))
  {
    ChecksumAppend(n, Generate(n) % 10);
  }

  /** Modulo 10, a digit cancelling a given digit is unique. */
  lemma CancellingDigitUnique(c: nat, g: nat, d: nat)
    requires c < 10 && g < 10 && d < 10
    requires (c + g) % 10 == 0
    ensures (c + d) % 10 == 0 <==> d == g
  {
    assert c + g == 0 || c + g == 10;
    assert (c + d) % 10 == 0 <==> c + d == 0 || c + d == 10;
  }

  /** The check digit is unique: of the ten numbers `n * 10 + d`, exactly
      the one `Generate` returns is valid. */
  lemma CheckDigitUnique(n: nat, d: nat)
    requires d < 10
    ensures IsValid(n * 10 + d) <==> d == Generate(n) % 10
  {
    var c, g := Checksum(n * 10), Generate(n) % 10;
    ChecksumAppend(n, d);
    assert IsValid(n * 10 + d) <==> (c + d) % 10 == 0;
    CancellingDigitUnique(c, g, d);
  }

  /** The valid numbers are exactly the generated ones: `n` passes the
      check if and only if it is `Generate` applied to `n` without its last
      digit. */
  lemma ValidIffGenerated(n: nat)
    ensures IsValid(n) <==> Generate(n / 10) == n
  {
    CheckDigitUnique(n / 10, n % 10);
  }
}
