# Luhn check digits

A Dafny model of the Luhn checksum module `divers/luhn.py`: the mod-10
check-digit scheme of Annex B of ISO/IEC 7812-1. The module turns a
number into its decimal digits (`digits_of`), computes the Luhn checksum
of those digits (`checksum`), says whether a number passes the check
(`is_valid`), and appends the check digit that makes a number pass
(`generate`).

Everything lives in `luhn.dfy`, module `Luhn`:

- `Str`, `DigitsOf` model `str(number)` and `digits_of`. `Value` reads a
  digit sequence back in base 10.
- `Checksum` is the functional specification of `checksum`. Each digit is
  weighted by its position counted from the right (`Contribution`,
  `PositionalSum`): a digit at an odd position is doubled, and the digits
  of the product are added (`DoubledDigit`). `ComputeChecksum` is the
  source's loop, with its `summed` accumulator and `even` flag. It is
  proved equal to `Checksum`.
- `IsValid` and `Generate` are the pure expressions of the source, written
  over `Checksum`. `IsValid` carries no contract of its own. What it means
  is stated by the lemmas `CheckDigitUnique` and `ValidIffGenerated`.

Python integers are unbounded, so every number is a `nat`; the model has
no overflow to worry about.

## Model

| member | source | states |
|---|---|---|
| `Luhn.Str` | divers/luhn.py:26 | `str(n)` is a non-empty string of decimal digit characters; it starts with `'0'` exactly when `n` is 0 (no leading zeros) |
| `Luhn.DigitsOf` | divers/luhn.py:25-26 | `digits_of(n)` is non-empty, every element is in 0..9, a single digit `n` gives `[n]` (so `digits_of(0) == [0]`), and the leading digit is 0 only for `n == 0` |
| `Luhn.DigitsOfValue` | divers/luhn.py:25-26 | `digits_of(n)` is a canonical digit sequence, and reading it in base 10, most significant first, gives back `n` |
| `Luhn.ValueDigitsOf` | divers/luhn.py:25-26 | every canonical digit sequence is `digits_of` of its own value, so `digits_of` is a bijection onto canonical digit sequences |
| `Luhn.DigitsOfAppend` | divers/luhn.py:25-26 | the digits of `n * 10 + d` are the digits of `n` followed by `d`; for `n == 0` they are just `[d]` |
| `Luhn.DoubledDigitValue` | divers/luhn.py:20 | for a digit `d`, `sum(digits_of(d * 2))` is `2d` when `d < 5` and `2d - 9` otherwise, so a doubled contribution is in 0..9 |
| `Luhn.Checksum` | divers/luhn.py:16-22 | the checksum always lies in 0..9 |
| `Luhn.ComputeChecksum` | divers/luhn.py:16-22 | the loop over the reversed digits, with `even` starting false and flipped after each digit, computes exactly the positional Luhn sum modulo 10: the digit at position `i` from the right is doubled exactly when `i` is odd |
| `Luhn.PositionalSumAppend` | divers/luhn.py:17-21 | appending a digit `d` at the right moves the Luhn sum by exactly `d`, whatever the other digits are |
| `Luhn.ChecksumAppend` | divers/luhn.py:16-22 | `checksum(n * 10 + d) == (checksum(n * 10) + d) % 10` for every digit `d` |
| `Luhn.Generate` | divers/luhn.py:10-13 | `generate(n)` is `n * 10` plus one digit (`r / 10 == n`); that digit cancels `checksum(n * 10)` modulo 10, and it is 0 exactly when `checksum(n * 10)` is 0 |
| `Luhn.GenerateKeepsDigits` | divers/luhn.py:10-13 | for `n > 0` the digits of `generate(n)` are the digits of `n` followed by the check digit |
| `Luhn.GenerateIsValid` | divers/luhn.py:6-13 | round trip: `is_valid(generate(n))` holds for every `n >= 0` |
| `Luhn.CheckDigitUnique` | divers/luhn.py:6-13 | of the ten numbers `n * 10 + d`, `is_valid` holds for exactly the one whose last digit is the generated check digit |
| `Luhn.ValidIffGenerated` | divers/luhn.py:6-13 | `is_valid(n)` holds if and only if `generate(n // 10) == n`: the valid numbers are exactly the generated ones |

## Left out

- The demonstration under `if __name__ == '__main__'` (divers/luhn.py:29-36): it only prints. Its check, that `is_valid(generate(n))` holds, is the lemma `GenerateIsValid`, proved for every `n`.
- `generate`'s `int(number)` coercion: the model's input is already a `nat`, so strings of digits and other integer-like inputs are not modelled.
- Negative inputs: `str(-n)` contains a `-`, which `int` rejects with an exception; the model's inputs are `nat`, so that error path does not arise.
- `Luhn.IsValid` has no `ensures` of its own; it is the one-line comparison of the source, and its meaning is stated by `CheckDigitUnique` and `ValidIffGenerated`.
- The rest of the repository (the pre-fork TCP server, its client and the bookmark link checker) is not part of this model: it is socket, process, signal and HTTPS I/O with no sequential contract to state.
