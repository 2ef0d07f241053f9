/** Cell literals: Python's `int(token, 0)` on the forms a decompiler prints, and `hex`. */
module Numerals {
  import opened Wrappers

  function DigitValue(c: char): Option<nat> {
    if '0' <= c <= '9' then Some((c - '0') as nat)
    else if 'a' <= c <= 'f' then Some((c - 'a') as nat + 10)
    else if 'A' <= c <= 'F' then Some((c - 'A') as nat + 10)
    else None
  }

  /** The value of a string of digits in this base, or None if one is not a digit. */
  function Digits(s: string, base: nat): Option<nat> {
    if s == [] then Some(0)
    else
      var high, low := Digits(s[..|s| - 1], base), DigitValue(s[|s| - 1]);
      if high.Some? && low.Some? && low.value < base then Some(high.value * base + low.value) else None
  }

  /** `int(token, 0)`, None for a ValueError: hexadecimal, or decimal without a leading zero. */
  function Int(token: string): Option<nat> {
    if |token| > 2 && (token[..2] == "0x" || token[..2] == "0X") then Digits(token[2..], 16)
    else if token != [] && (token[0] != '0' || forall c | c in token :: c == '0') then Digits(token, 10)
    else None
  }

  function DigitChar(n: nat): char
    requires n < 16
  {
    if n < 10 then '0' + n as char else 'a' + (n - 10) as char
  }

  function HexDigits(n: nat): (s: string)
    ensures s != []
  {
    if n < 16 then [DigitChar(n)] else HexDigits(n / 16) + [DigitChar(n % 16)]
  }

  /** `hex(n)` */
  function Hex(n: nat): string {
    "0x" + HexDigits(n)
  }

  lemma {:induction false} DigitsOfHex(n: nat)
    ensures Digits(HexDigits(n), 16) == Some(n)
  {
    var s := HexDigits(n);
    if n < 16 {
      assert s[..|s| - 1] == [] && Digits([], 16) == Some(0);
    } else {
      DigitsOfHex(n / 16);
      assert s[..|s| - 1] == HexDigits(n / 16);
    }
  }

  /** A rewritten cell reads back as the number it was written for. */
  lemma IntOfHex(n: nat)
    ensures Int(Hex(n)) == Some(n)
  {
    DigitsOfHex(n);
    var s := Hex(n);
    assert s[..2] == "0x" && s[2..] == HexDigits(n);
  }

  // ---- what the digits mean -----------------------------------------------------------------------

  /** The digit `c` stands for `v`, in either case. */
  predicate IsDigit(c: char, v: nat) {
    v < 16 && (c == "0123456789abcdef"[v] || c == "0123456789ABCDEF"[v])
  }

  lemma DigitIs(c: char, v: nat)
    ensures DigitValue(c) == Some(v) <==> IsDigit(c, v)
  {
  }

  function Power(base: nat, k: nat): nat {
    if k == 0 then 1 else base * Power(base, k - 1)
  }

  /** Each value times the power of its place. */
  function PlaceSum(values: seq<nat>, base: nat): nat {
    if values == [] then 0 else values[0] * Power(base, |values| - 1) + PlaceSum(values[1..], base)
  }

  lemma {:induction false} PlaceSumSnoc(values: seq<nat>, v: nat, base: nat)
    ensures PlaceSum(values + [v], base) == PlaceSum(values, base) * base + v
  {
    if values == [] {
      assert [] + [v] == [v] && [v][1..] == [] && Power(base, 0) == 1;
    } else {
      assert (values + [v])[1..] == values[1..] + [v];
      PlaceSumSnoc(values[1..], v, base);
      var first, power := values[0], Power(base, |values| - 1);
      assert Power(base, |values|) == base * power;
      PlaceStep(first, power, PlaceSum(values[1..], base), base, v);
    }
  }

  lemma PlaceStep(first: nat, power: nat, rest: nat, base: nat, v: nat)
    ensures first * (base * power) + (rest * base + v) == (first * power + rest) * base + v
  {
  }

  /** These are the values of the digits of `s`, in this base. */
  predicate AreValues(s: string, base: nat, values: seq<nat>) {
    |values| == |s| && forall i | 0 <= i < |s| :: values[i] < base && IsDigit(s[i], values[i])
  }

  lemma {:induction false} DigitsRead(s: string, base: nat, values: seq<nat>)
    requires AreValues(s, base, values)
    ensures Digits(s, base) == Some(PlaceSum(values, base))
  {
    if s != [] {
      var front, last := values[..|values| - 1], values[|values| - 1];
      assert values == front + [last];
      DigitsRead(s[..|s| - 1], base, front);
      DigitIs(s[|s| - 1], last);
      PlaceSumSnoc(front, last, base);
    }
  }

  lemma {:induction false} DigitsSpelled(s: string, base: nat) returns (values: seq<nat>)
    requires Digits(s, base).Some?
    ensures AreValues(s, base, values)
  {
    values := [];
    if s != [] {
      var front := DigitsSpelled(s[..|s| - 1], base);
      var last := DigitValue(s[|s| - 1]).value;
      DigitIs(s[|s| - 1], last);
      values := front + [last];
      assert forall i | 0 <= i < |s| - 1 :: s[i] == s[..|s| - 1][i];
    }
  }

  /** `s` spells `n`: the sum of its digits, each times the power of its place. */
  ghost predicate Spells(s: string, base: nat, n: nat) {
    exists values :: AreValues(s, base, values) && PlaceSum(values, base) == n
  }

  lemma DigitsSpell(s: string, base: nat, n: nat)
    ensures Digits(s, base) == Some(n) <==> Spells(s, base, n)
  {
    if Digits(s, base) == Some(n) {
      var values := DigitsSpelled(s, base);
      DigitsRead(s, base, values);
    }
    if values :| AreValues(s, base, values) && PlaceSum(values, base) == n {
      DigitsRead(s, base, values);
    }
  }

  /** What a token reads as: hexadecimal behind 0x or 0X, else decimal, whose first digit is 0 only if all are. */
  lemma IntReads(token: string, n: nat)
    ensures Int(token) == Some(n)
            <==> || (|token| > 2 && token[0] == '0' && (token[1] == 'x' || token[1] == 'X') && Spells(token[2..], 16, n))
                 || (token != [] && (token[0] != '0' || forall c | c in token :: c == '0') && Spells(token, 10, n))
  {
    if |token| >= 2 {
      assert token[..2] == [token[0], token[1]];
      assert "0x" == ['0', 'x'] && "0X" == ['0', 'X'];
      assert token[1] in token;
    }
    if |token| > 2 {
      DigitsSpell(token[2..], 16, n);
    }
    DigitsSpell(token, 10, n);
  }

  /** And `hex` writes the shortest such token, in lower case. */
  lemma {:induction false} HexShape(n: nat)
    ensures forall c | c in HexDigits(n) :: c in "0123456789abcdef"
    ensures n > 0 ==> HexDigits(n)[0] != '0'
    ensures n == 0 ==> HexDigits(n) == "0"
  {
    if n >= 16 {
      HexShape(n / 16);
    }
    DigitIs(DigitChar(n % 16), n % 16);
  }
}
