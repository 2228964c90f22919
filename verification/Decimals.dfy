/** Decimal text as the plugins write it with %u and %d and read it with atoi. */
module Decimals {

  function Digit(d: nat): char
    requires d < 10
  {
    ('0' as int + d) as char
  }

  predicate IsDigit(c: char) {
    '0' <= c <= '9'
  }

  function DigitValue(c: char): (d: nat)
    requires IsDigit(c)
    ensures d < 10
  {
    c as int - '0' as int
  }

  function Print(n: nat): (s: string)
    ensures s != [] && forall i | 0 <= i < |s| :: IsDigit(s[i])
  {
    if n < 10 then [Digit(n)] else Print(n / 10) + [Digit(n % 10)]
  }

  /** The value of the leading digits, behind the digits already read. */
  function ReadDigits(s: string, read: nat): nat {
    if s == [] || !IsDigit(s[0]) then read else ReadDigits(s[1..], 10 * read + DigitValue(s[0]))
  }

  /** atoi on text without leading space or sign. */
  function Atoi(s: string): nat {
    ReadDigits(s, 0)
  }

  lemma {:induction false} ReadAppended(s: string, c: char, read: nat)
    requires (forall i | 0 <= i < |s| :: IsDigit(s[i])) && IsDigit(c)
    ensures ReadDigits(s + [c], read) == 10 * ReadDigits(s, read) + DigitValue(c)
  {
    if s == [] {
      assert ([c])[1..] == [];
      assert s + [c] == [c];
    } else {
      assert (s + [c])[0] == s[0] && (s + [c])[1..] == s[1..] + [c];
      ReadAppended(s[1..], c, 10 * read + DigitValue(s[0]));
    }
  }

  /** Reading what was printed gives the number back. */
  lemma {:induction false} PrintThenRead(n: nat)
    ensures Atoi(Print(n)) == n
  {
    if n < 10 {
      assert Print(n)[1..] == [];
      assert ReadDigits([], n) == n;
      assert DigitValue(Digit(n)) == n;
    } else {
      PrintThenRead(n / 10);
      ReadAppended(Print(n / 10), Digit(n % 10), 0);
    }
  }

  // ---- decimal notation, digit by digit ----

  /** `n` without its last `k` decimal digits. */
  function Shift(n: nat, k: nat): nat {
    if k == 0 then n else Shift(n / 10, k - 1)
  }

  /** The characters of `s` are the last `|s|` decimal digits of `n`, which has no others. */
  ghost predicate Denotes(s: string, n: nat) {
    && (forall i | 0 <= i < |s| :: s[i] as int == 48 + Shift(n, |s| - 1 - i) % 10)
    && Shift(n, |s|) == 0
  }

  /** The decimal notation of a number: its digits, and no leading zero but for 0 itself. */
  ghost predicate Spells(s: string, n: nat) {
    Denotes(s, n) && s != [] && (s[0] == '0' ==> s == "0")
  }

  /** One more digit. */
  lemma DenotesMore(s: string, c: char, n: nat)
    requires Denotes(s, n / 10) && c as int == 48 + n % 10
    ensures Denotes(s + [c], n)
  {
    var t := s + [c];
    forall i | 0 <= i < |t|
      ensures t[i] as int == 48 + Shift(n, |t| - 1 - i) % 10
    {
      if i < |s| {
        assert t[i] == s[i] && Shift(n, |t| - 1 - i) == Shift(n / 10, |s| - 1 - i);
      }
    }
  }

  lemma {:induction false} PrintSpells(n: nat)
    ensures Spells(Print(n), n)
  {
    if n < 10 {
      assert Denotes([], n / 10);
      DenotesMore([], Digit(n), n);
      assert [] + [Digit(n)] == [Digit(n)];
    } else {
      PrintSpells(n / 10);
      DenotesMore(Print(n / 10), Digit(n % 10), n);
      NotZero(Print(n / 10), n / 10);
    }
  }

  lemma NotZero(s: string, n: nat)
    requires Spells(s, n) && n > 0
    ensures s[0] != '0'
  {
    assert Shift(n, 1) == n / 10;
  }

  /** Reading takes the digits in front and ignores what follows them. */
  lemma {:induction false} ReadFront(digits: string, rest: string, read: nat)
    requires (forall i | 0 <= i < |digits| :: IsDigit(digits[i])) && (rest == [] || !IsDigit(rest[0]))
    ensures ReadDigits(digits + rest, read) == ReadDigits(digits, read)
    decreases |digits|
  {
    if digits == [] {
      assert digits + rest == rest;
    } else {
      assert (digits + rest)[0] == digits[0] && (digits + rest)[1..] == digits[1..] + rest;
      ReadFront(digits[1..], rest, 10 * read + DigitValue(digits[0]));
    }
  }

  lemma {:induction false} DigitsDenote(digits: string)
    requires forall i | 0 <= i < |digits| :: IsDigit(digits[i])
    ensures Denotes(digits, Atoi(digits))
  {
    if digits != [] {
      var n := |digits| - 1;
      DigitsDenote(digits[..n]);
      assert digits == digits[..n] + [digits[n]];
      ReadAppended(digits[..n], digits[n], 0);
      DenotesMore(digits[..n], digits[n], Atoi(digits));
    }
  }

  /** The number that is read from text is the one that its leading characters '0' to '9'
      denote; text without any gives 0. */
  lemma AtoiReadsFront(digits: string, rest: string)
    requires forall i | 0 <= i < |digits| :: '0' <= digits[i] <= '9'
    requires rest == [] || !('0' <= rest[0] <= '9')
    ensures Denotes(digits, Atoi(digits + rest))
  {
    ReadFront(digits, rest, 0);
    DigitsDenote(digits);
  }
}
