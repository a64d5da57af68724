// The Luhn check (ISO/IEC 7812-1, Annex B) over strings of decimal digits of any
// script.
module Luhn {
  import opened Prelude

  // What str.isdigit and int() make of a character: a decimal digit, some other
  // digit (a superscript, say), which isdigit accepts and int() does not, or none.
  datatype Glyph = Decimal(digit: Digit) | OtherDigit | NotDigit

  type Digit = d: nat | d <= 9

  type Script = char -> Glyph

  // Of the ASCII characters exactly 0 to 9 are digits.
  function Ascii(c: char): Glyph {
    if '0' <= c <= '9' then Decimal(c as int - '0' as int) else NotDigit
  }

  predicate AllDecimal(s: string, script: Script) {
    forall c | c in s :: script(c).Decimal?
  }

  // [int(d) for d in num_str]
  function DigitsOf(s: string, script: Script): (ds: seq<Digit>)
    requires AllDecimal(s, script)
    ensures |ds| == |s| && forall i | 0 <= i < |s| :: ds[i] == script(s[i]).digit
  {
    if s == "" then [] else [script(s[0]).digit] + DigitsOf(s[1..], script)
  }

  // Every second digit from the right is doubled, its digits added.
  function Contribution(position: nat, d: Digit): Digit {
    if position % 2 == 0 then d else if 2 * d > 9 then 2 * d - 9 else 2 * d
  }

  function Total(ds: seq<Digit>): nat {
    if ds == [] then 0 else Contribution(|ds| - 1, ds[0]) + Total(ds[1..])
  }

  predicate Valid(s: string, script: Script) {
    |s| >= 5 && AllDecimal(s, script) && Total(DigitsOf(s, script)) % 10 == 0
  }

  // The result, or ValueError where isdigit accepts a digit that int() does not.
  method LuhnCheck(numStr: string, script: Script) returns (ok: Result<bool, ()>)
    ensures ok.Err? <==>
      |numStr| >= 5 && (forall c | c in numStr :: !script(c).NotDigit?) && !AllDecimal(numStr, script)
    ensures ok.Ok? ==> ok.value == Valid(numStr, script)
  {
    if numStr == "" || !(forall c | c in numStr :: !script(c).NotDigit?) || |numStr| < 5 {
      return Ok(false);
    }
    if exists c | c in numStr :: script(c).OtherDigit? {
      return Err(());
    }
    var total := SumDigits(DigitsOf(numStr, script));
    return Ok(total % 10 == 0);
  }

  method SumDigits(digits: seq<Digit>) returns (total: nat)
    ensures total == Total(digits)
  {
    total := 0;
    for i := 0 to |digits|
      invariant total == Total(digits[|digits| - i..])
    {
      var at := |digits| - 1 - i;
      assert digits[at..][1..] == digits[at + 1..];
      var d: int := digits[at];
      if i % 2 == 1 {
        d := d * 2;
        if d > 9 {
          d := d - 9;
        }
      }
      total := total + d;
    }
    assert digits[0..] == digits;
  }

  // ------------------------------------------------ which strings are valid

  // Doubling a digit and adding the digits of the result.
  function DoubledDigits(d: Digit): nat {
    [0, 2, 4, 6, 8, 1, 3, 5, 7, 9][d]
  }

  // The same checksum read from the right, two digits at a time.
  function FromRight(ds: seq<Digit>): nat {
    if ds == [] then 0
    else if |ds| == 1 then ds[0]
    else FromRight(ds[..|ds| - 2]) + DoubledDigits(ds[|ds| - 2]) + ds[|ds| - 1]
  }

  lemma {:induction false} TotalAppendTwo(ds: seq<Digit>, a: Digit, b: Digit)
    ensures Total(ds + [a, b]) == Total(ds) + DoubledDigits(a) + b
  {
    if ds != [] {
      assert (ds + [a, b])[1..] == ds[1..] + [a, b];
      TotalAppendTwo(ds[1..], a, b);
    } else {
      assert ds + [a, b] == [a, b] && [a, b][1..] == [b] && [b][1..] == [];
    }
  }

  lemma {:induction false} TotalFromRight(ds: seq<Digit>)
    ensures Total(ds) == FromRight(ds)
  {
    if |ds| >= 2 {
      var front := ds[..|ds| - 2];
      TotalFromRight(front);
      TotalAppendTwo(front, ds[|ds| - 2], ds[|ds| - 1]);
      assert ds == front + [ds[|ds| - 2], ds[|ds| - 1]];
    } else if |ds| == 1 {
      assert ds[1..] == [];
    }
  }

  // Valid are the strings of at least five decimal digits whose checksum read from
  // the right ends in zero.
  lemma {:induction false} ValidExactly(s: string, script: Script)
    ensures Valid(s, script) <==>
      |s| >= 5 && (forall c | c in s :: script(c).Decimal?) && FromRight(DigitsOf(s, script)) % 10 == 0
  {
    if AllDecimal(s, script) {
      TotalFromRight(DigitsOf(s, script));
    }
  }

  // ------------------------------------------------ single digits

  // Changing one digit changes the total by the change of its contribution.
  lemma {:induction false} TotalUpdate(ds: seq<Digit>, i: nat, d: Digit)
    requires i < |ds|
    ensures Total(ds[i := d]) == Total(ds)
      - Contribution(|ds| - 1 - i, ds[i]) + Contribution(|ds| - 1 - i, d)
  {
    var es := ds[i := d];
    if i == 0 {
      assert es[1..] == ds[1..];
    } else {
      assert es[1..] == ds[1..][i - 1 := d];
      TotalUpdate(ds[1..], i - 1, d);
    }
  }

  // Doubling with carry is a permutation of the digits, also modulo ten.
  lemma ContributionInjective(position: nat, a: Digit, b: Digit)
    ensures (Contribution(position, a) - Contribution(position, b)) % 10 == 0 <==> a == b
  {
  }

  lemma Residue(y: int, d: int)
    requires y % 10 == 0
    ensures (y + d) % 10 == 0 <==> d % 10 == 0
  {
  }

  lemma DigitsUpdate(s: string, i: nat, c: char, script: Script)
    requires AllDecimal(s, script) && i < |s| && script(c).Decimal?
    ensures AllDecimal(s[i := c], script)
    ensures DigitsOf(s[i := c], script) == DigitsOf(s, script)[i := script(c).digit]
  {
    forall x | x in s[i := c]
      ensures script(x).Decimal?
    {
      assert x == c || x in s;
    }
  }

  // Changing exactly one digit of a valid string to another makes it invalid.
  lemma SingleErrorCaught(s: string, i: nat, c: char, script: Script)
    requires Valid(s, script) && i < |s| && script(c).Decimal? && script(c).digit != script(s[i]).digit
    ensures !Valid(s[i := c], script)
  {
    var ds, d := DigitsOf(s, script), script(c).digit;
    DigitsUpdate(s, i, c, script);
    TotalUpdate(ds, i, d);
    ContributionInjective(|s| - 1 - i, d, ds[i]);
    Residue(Total(ds), Contribution(|s| - 1 - i, d) - Contribution(|s| - 1 - i, ds[i]));
  }

  // ------------------------------------------------ adjacent digits

  function Swapped(s: string, i: nat): string
    requires i + 1 < |s|
  {
    s[i := s[i + 1]][i + 1 := s[i]]
  }

  lemma TotalSwapped(ds: seq<Digit>, i: nat)
    requires i + 1 < |ds|
    ensures
      var p, a, b := |ds| - 1 - i, ds[i], ds[i + 1];
      Total(ds[i := b][i + 1 := a]) == Total(ds)
        - Contribution(p, a) - Contribution(p - 1, b) + Contribution(p, b) + Contribution(p - 1, a)
  {
    TotalUpdate(ds, i, ds[i + 1]);
    TotalUpdate(ds[i := ds[i + 1]], i + 1, ds[i]);
  }

  lemma SwapContributions(a: Digit, b: Digit)
    ensures (b + Contribution(1, a) - a - Contribution(1, b)) % 10 == 0 <==>
      a == b || (a == 0 && b == 9) || (a == 9 && b == 0)
  {
  }

  lemma SwapResidue(p: nat, a: Digit, b: Digit)
    requires p > 0
    ensures (Contribution(p, b) + Contribution(p - 1, a) - Contribution(p, a) - Contribution(p - 1, b)) % 10 == 0
       <==> a == b || (a == 0 && b == 9) || (a == 9 && b == 0)
  {
    assert p % 2 == 0 <==> (p - 1) % 2 == 1;
    if p % 2 == 0 {
      SwapContributions(a, b);
    } else {
      SwapContributions(b, a);
    }
  }

  lemma SwapTotal(ds: seq<Digit>, i: nat)
    requires i + 1 < |ds| && Total(ds) % 10 == 0
    ensures
      var a, b := ds[i], ds[i + 1];
      Total(ds[i := b][i + 1 := a]) % 10 == 0 <==> a == b || (a == 0 && b == 9) || (a == 9 && b == 0)
  {
    var p, a, b := |ds| - 1 - i, ds[i], ds[i + 1];
    TotalSwapped(ds, i);
    SwapResidue(p, a, b);
    Residue(Total(ds), Contribution(p, b) + Contribution(p - 1, a) - Contribution(p, a) - Contribution(p - 1, b));
  }

  lemma {:induction false} DigitsSwapped(s: string, i: nat, script: Script)
    requires AllDecimal(s, script) && i + 1 < |s|
    ensures AllDecimal(Swapped(s, i), script)
    ensures var ds := DigitsOf(s, script);
      DigitsOf(Swapped(s, i), script) == ds[i := ds[i + 1]][i + 1 := ds[i]]
  {
    DigitsUpdate(s, i, s[i + 1], script);
    DigitsUpdate(s[i := s[i + 1]], i + 1, s[i], script);
  }

  // Swapping two neighbours of a valid string goes unnoticed exactly when their
  // digits are equal or are 0 and 9.
  lemma {:induction false} TranspositionCaught(s: string, i: nat, script: Script)
    requires Valid(s, script) && i + 1 < |s|
    ensures
      var a, b := DigitsOf(s, script)[i], DigitsOf(s, script)[i + 1];
      Valid(Swapped(s, i), script) <==> a == b || (a == 0 && b == 9) || (a == 9 && b == 0)
  {
    DigitsSwapped(s, i, script);
    SwapTotal(DigitsOf(s, script), i);
  }

  // ------------------------------------------------ the check digit

  lemma {:induction false} TotalAppend(ds: seq<Digit>, d: Digit)
    ensures Total(ds + [d]) == d + Total(ds + [0])
  {
    if ds == [] {
      assert [d][1..] == [] && [0][1..] == [] && ds + [d] == [d] && ds + [0] == [0];
    } else {
      assert (ds + [d])[1..] == ds[1..] + [d] && (ds + [0])[1..] == ds[1..] + [0];
      TotalAppend(ds[1..], d);
    }
  }

  lemma CheckResidue(d: Digit, z: nat)
    ensures (d + z) % 10 == 0 <==> d == (10 - z % 10) % 10
  {
  }

  function CheckDigit(prefix: seq<Digit>): Digit {
    (10 - Total(prefix + [0]) % 10) % 10
  }

  lemma {:induction false} CheckDigitOnly(ds: seq<Digit>, d: Digit)
    ensures Total(ds + [d]) % 10 == 0 <==> d == CheckDigit(ds)
  {
    TotalAppend(ds, d);
    CheckResidue(d, Total(ds + [0]));
  }

  lemma {:induction false} DigitsAppend(prefix: string, c: char, script: Script)
    requires AllDecimal(prefix, script)
    ensures AllDecimal(prefix + [c], script) <==> script(c).Decimal?
    ensures script(c).Decimal? ==> DigitsOf(prefix + [c], script) == DigitsOf(prefix, script) + [script(c).digit]
  {
    assert (prefix + [c])[|prefix|] == c;
    assert forall x | x in prefix + [c] :: x in prefix || x == c;
  }

  // Every prefix of at least four digits has exactly one valid check digit.
  lemma {:induction false} CheckDigitUnique(prefix: string, c: char, script: Script)
    requires AllDecimal(prefix, script) && |prefix| >= 4
    ensures Valid(prefix + [c], script) <==> script(c) == Decimal(CheckDigit(DigitsOf(prefix, script)))
  {
    var ds := DigitsOf(prefix, script);
    DigitsAppend(prefix, c, script);
    if script(c).Decimal? {
      CheckDigitOnly(ds, script(c).digit);
    }
  }

  // In plain digits, where the digit decides the character.
  lemma AsciiErrorCaught(s: string, i: nat, c: char)
    requires Valid(s, Ascii) && i < |s| && '0' <= c <= '9' && c != s[i]
    ensures !Valid(s[i := c], Ascii)
  {
    assert Ascii(s[i]).Decimal?;
    SingleErrorCaught(s, i, c, Ascii);
  }
}
