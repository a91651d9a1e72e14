/** The loops behind Numbers: number of bootx/libc/vsprintf.c and strtol of bootx/libc/strtol.c. */
module Format {
  import opened Options
  import opened Numbers
  import opened Sequences

  /** size characters c, none if size is not positive. */
  function Fill(size: int, c: char): string {
    seq(Max(size, 0), _ => c)
  }

  /** A padding loop: as many characters as the width asks for; the width ends up below 0. */
  method Pad(out: string, size: int, c: char) returns (out': string, size': int)
    ensures out' == out + Fill(size, c)
    ensures size' == (if size > 0 then -1 else size - 1)
  {
    out', size' := out, size;
    while size' > 0
      invariant size' == size || 0 <= size' < size
      invariant out' == out + Fill(Max(size, 0) - Max(size', 0), c)
      decreases size'
    {
      out' := out' + [c];
      size' := size' - 1;
    }
    size' := size' - 1;
  }

  /** The digit loop of number: the digits of the magnitude, the last one first. */
  method DigitLoop(num: nat, base: nat, large: bool) returns (tmp: string)
    requires 2 <= base <= 36
    ensures tmp == Reversed(Digits(num, base, large))
  {
    hide Digits, Reversed, DigitChar, DigitValue, AllDigits;
    var u: nat := num;
    tmp := [];
    if u == 0 {
      ZeroDigits(base, large);
      return ['0'];
    }
    while u != 0
      invariant if u == 0 then tmp == Reversed(Digits(num, base, large))
                else Reversed(Digits(num, base, large)) == tmp + Reversed(Digits(u, base, large))
      decreases u
    {
      var c, q := NextDigit(u, base, large);
      Associates(tmp, [c], if q == 0 then "" else Reversed(Digits(q, base, large)));
      tmp := tmp + [c];
      u := q;
    }
  }

  /** One division of the digit loop: the last digit, and the number without it. */
  method NextDigit(u: nat, base: nat, large: bool) returns (c: char, q: nat)
    requires 2 <= base <= 36 && u > 0
    ensures q < u
    ensures Reversed(Digits(u, base, large)) == [c] + if q == 0 then "" else Reversed(Digits(q, base, large))
  {
    hide Digits, Reversed;
    LastDigit(u, base, large);
    c, q := DigitChar(u % base, large), u / base;
  }

  function Reversed(s: string): (r: string)
    ensures |r| == |s|
  {
    seq(|s|, i requires 0 <= i < |s| => s[|s| - 1 - i])
  }

  lemma ZeroDigits(base: nat, large: bool)
    requires 2 <= base <= 36
    ensures Reversed(Digits(0, base, large)) == ['0']
  {
  }

  lemma LastDigit(u: nat, base: nat, large: bool)
    requires 2 <= base <= 36 && u > 0
    ensures u / base < u
    ensures Reversed(Digits(u, base, large)) ==
      [DigitChar(u % base, large)] + if u / base == 0 then "" else Reversed(Digits(u / base, base, large))
  {
    hide Reversed, DigitChar, DigitValue;
    Quotient(u, base);
    if u < base {
      SmallMod(u, base);
      ReversedSnoc("", DigitChar(u, large));
      assert Digits(u, base, large) == "" + [DigitChar(u, large)];
    } else {
      LargeQuotient(u, base);
      ReversedSnoc(Digits(u / base, base, large), DigitChar(u % base, large));
    }
  }

  lemma ReversedSnoc(s: string, c: char)
    ensures Reversed(s + [c]) == [c] + Reversed(s) && Reversed("") == ""
  {
  }

  lemma LargeQuotient(u: nat, base: nat)
    requires 2 <= base <= u
    ensures u / base > 0
  {
  }

  /** number: the text of a 32-bit long, or nothing for a base out of range. */
  method Number(num: int, base: nat, size: int, precision: int, f: Flags) returns (str: Option<string>)
    requires LONG_MIN <= num <= LONG_MAX
    ensures str.None? <==> base < 2 || base > 36
    ensures str.Some? ==> str.value == Printed(num, base, size, precision, f)
  {
    hide Digits, Reversed, Emitted, Printed, Magnitude;
    if base < 2 || base > 36 {
      return None;
    }
    var flags := f.(zeroPad := f.zeroPad && !f.left);
    var sign, u, sz := TakeSign(num, flags, size);
    var tmp := DigitLoop(u, base, f.large);
    var prec := precision;
    if flags.special {
      if base == 16 {
        sz := sz - 2;
      } else if base == 8 {
        sz := sz - 1;
      }
    }
    if |tmp| > prec {
      prec := |tmp|;
    }
    sz := sz - prec;
    var out := Emit(sign, base, tmp, sz, prec - |tmp|, flags);
    SameFlags(num, base, f);
    Assembled(num, base, size, precision, f, tmp);
    str := Some(out);
  }

  /** The sign character, the magnitude as an unsigned long, and the width left. */
  method TakeSign(num: int, f: Flags, size: int) returns (sign: string, u: nat, sz: int)
    requires LONG_MIN <= num <= LONG_MAX
    ensures sign == SignOf(num, f) && u == Magnitude(num, f) && sz == size - |sign|
  {
    sign, sz := "", size;
    u := if num >= 0 then num else num + 0x1_0000_0000;
    if f.sign {
      if num < 0 {
        sign, sz := "-", sz - 1;
        u := -num;
      } else if f.plus {
        sign, sz := "+", sz - 1;
      } else if f.space {
        sign, sz := " ", sz - 1;
      }
    }
  }

  /** The text written: blanks, sign, prefix, padding, leading zeros, digits, blanks. */
  function Emitted(sign: string, prefix: string, tmp: string, size: int, zeros: int, f: Flags): string {
    Fill(if !f.zeroPad && !f.left then size else 0, ' ') + sign + prefix
      + Fill(if f.zeroPad && !f.left then size else 0, '0')
      + Fill(zeros, '0') + Reversed(tmp) + Fill(if f.left then size else 0, ' ')
  }

  /** The output loops of number. */
  method Emit(sign: string, base: nat, tmp: string, size: int, zeros: int, f: Flags) returns (out: string)
    requires f.left ==> !f.zeroPad
    ensures out == Emitted(sign, PrefixOf(base, f), tmp, size, zeros, f)
  {
    hide Fill, Reversed;
    var sz := size;
    out := "";
    if !f.zeroPad && !f.left {
      out, sz := Pad(out, sz, ' ');
    }
    Nothing();
    out := out + sign;
    if f.special {
      if base == 8 {
        out := out + "0";
      } else if base == 16 {
        out := out + ['0', DigitChar(33, f.large)];
      }
    }
    assert out == Fill(if !f.zeroPad && !f.left then size else 0, ' ') + sign + PrefixOf(base, f);
    if !f.left {
      var padded;
      padded, sz := Pad(out, sz, if f.zeroPad then '0' else ' ');
      out := padded;
    }
    assert out == Fill(if !f.zeroPad && !f.left then size else 0, ' ') + sign + PrefixOf(base, f)
      + Fill(if f.zeroPad && !f.left then size else 0, '0');
    var zeroed, rest := Pad(out, zeros, '0');
    var written := Backwards(zeroed, tmp);
    out, rest := Pad(written, sz, ' ');
  }

  lemma Nothing()
    ensures forall n: int, c: char | n <= 0 :: Fill(n, c) == ""
  {
  }

  /** The loop that writes the collected digits, the last one first. */
  method Backwards(out: string, tmp: string) returns (out': string)
    ensures out' == out + Reversed(tmp)
  {
    out' := out;
    var i := |tmp|;
    while i > 0
      invariant 0 <= i <= |tmp|
      invariant out' == out + Reversed(tmp)[..|tmp| - i]
    {
      i := i - 1;
      out' := out' + [tmp[i]];
    }
  }

  lemma ReversedTwice(s: string)
    ensures Reversed(Reversed(s)) == s
  {
  }

  /** What is written is what Printed says. */
  lemma Assembled(num: int, base: nat, size: int, precision: int, f: Flags, tmp: string)
    requires 2 <= base <= 36 && tmp == Reversed(Digits(Magnitude(num, f), base, f.large))
    ensures var sign, prefix, prec := SignOf(num, f), PrefixOf(base, f), Max(precision, |tmp|);
      Emitted(sign, prefix, tmp, size - |sign| - |prefix| - prec, prec - |tmp|, f.(zeroPad := f.zeroPad && !f.left))
      == Printed(num, base, size, precision, f)
  {
    hide Digits, Reversed, Zeros, Spaces, Fill, Max, SignOf, PrefixOf, Magnitude;
    SameFlags(num, base, f);
    var ds := Digits(Magnitude(num, f), base, f.large);
    ReversedTwice(ds);
    var sign, prefix, prec := SignOf(num, f), PrefixOf(base, f), Max(precision, |tmp|);
    var sz := size - |sign| - |prefix| - prec;
    MaxNext(precision, |tmp|, sz);
    FillSpaces(sz);
    FillSpaces(0);
    FillZeros(Spaces(if !f.left && !f.zeroPad then Max(sz, 0) else 0) + sign + prefix,
      if f.zeroPad && !f.left then sz else 0, prec - |tmp|);
  }

  /** Clearing the zero padding flag changes neither sign, prefix nor digits. */
  lemma SameFlags(num: int, base: int, f: Flags)
    ensures forall z :: SignOf(num, f.(zeroPad := z)) == SignOf(num, f) && Magnitude(num, f.(zeroPad := z)) == Magnitude(num, f)
    ensures forall z :: PrefixOf(base, f.(zeroPad := z)) == PrefixOf(base, f)
  {
  }

  lemma MaxNext(precision: int, i: nat, sz: int)
    ensures Max(precision, i) >= i && Max(0, 0) == 0
  {
  }

  lemma FillSpaces(n: int)
    ensures Fill(n, ' ') == Spaces(Max(n, 0))
  {
  }

  lemma FillZeros(s: string, a: int, b: nat)
    ensures s + Fill(a, '0') + Fill(b, '0') == s + Zeros(Max(a, 0) + b)
  {
  }

  /** The start of strtol: blanks, sign, prefix and base. */
  method StrtolHead(s: string, base0: nat) returns (neg: bool, i: nat, base: nat)
    requires '\0' !in s
    requires base0 == 0 || 2 <= base0 <= 36
    ensures ParseHead(s, base0) == Head(neg, i, base) && i <= |s|
  {
    hide SkipSpaces;
    i := 0;
    while IsSpace(At(s, i))
      invariant i <= SkipSpaces(s, 0) && i <= |s|
      decreases |s| - i
    {
      SpacesUnfold(s, i);
      i := i + 1;
    }
    SpacesUnfold(s, i);
    neg := At(s, i) == '-';
    if neg || At(s, i) == '+' {
      i := i + 1;
    }
    base := base0;
    if (base == 0 || base == 16) && At(s, i) == '0' && (At(s, i + 1) == 'x' || At(s, i + 1) == 'X') {
      i := i + 2;
      base := 16;
    } else if (base == 0 || base == 2) && At(s, i) == '0' && (At(s, i + 1) == 'b' || At(s, i + 1) == 'B') {
      i := i + 2;
      base := 2;
    }
    if base == 0 {
      base := if At(s, i) == '0' then 8 else 10;
    }
  }

  /** strtol on a NUL-terminated string: the value, clamped to a long, and where the number ends. */
  method Strtol(s: string, base0: nat) returns (val: int, end: nat)
    requires '\0' !in s
    requires base0 == 0 || 2 <= base0 <= 36
    ensures (val, end) == ReadNumber(s, base0)
  {
    hide Value, ParseHead, SkipDigits, DigitValue;
    var neg, i, base := StrtolHead(s, base0);
    var limit := if neg then -LONG_MIN else LONG_MAX;
    var acc: int, any: int;
    acc, any, end := Accumulate(s, i, base, limit);
    if any < 0 {
      val := if neg then LONG_MIN else LONG_MAX;
    } else {
      val := if neg then -acc else acc;
    }
    if any == 0 {
      end := 0;
    }
  }

  /** The digit loop of strtol: any is 0 without digits, and negative once the value exceeds the limit. */
  method Accumulate(s: string, start: nat, base: nat, limit: nat) returns (acc: nat, any: int, end: nat)
    requires 2 <= base <= 36 && '\0' !in s && start <= |s|
    ensures end == SkipDigits(s, start, base)
    ensures any == 0 <==> end == start
    ensures any >= 0 ==> acc == Value(Part(s, start, end), base) <= limit
    ensures any < 0 ==> Value(Part(s, start, end), base) > limit
  {
    hide Value, SkipDigits, DigitValue;
    var cutoff, cutlim := limit / base, limit % base;
    acc, any, end := 0, 0, start;
    PartNone(s, start, base);
    while DigitValue(At(s, end)) < base
      invariant start <= end <= SkipDigits(s, start, base) && end <= |s|
      invariant any == 0 <==> end == start
      invariant any >= 0 ==> acc == Value(Part(s, start, end), base) <= limit
      invariant any < 0 ==> Value(Part(s, start, end), base) > limit
      decreases |s| - end
    {
      var c := DigitValue(At(s, end));
      DigitsUnfold(s, start, end, base);
      PartNext(s, start, end, base);
      if any < 0 || acc > cutoff || (acc == cutoff && c > cutlim) {
        if any >= 0 {
          Cutoff(acc, base, c, limit);
        } else {
          Grows(Value(Part(s, start, end), base), base);
        }
        any := -1;
      } else {
        Cutoff(acc, base, c, limit);
        any := 1;
        acc := acc * base + c;
      }
      end := end + 1;
    }
    DigitsUnfold(s, start, end, base);
  }

  lemma SpacesUnfold(s: string, i: nat)
    requires i <= SkipSpaces(s, 0)
    ensures IsSpace(At(s, i)) ==> i < SkipSpaces(s, 0) && i < |s|
    ensures !IsSpace(At(s, i)) ==> i == SkipSpaces(s, 0)
  {
    hide SkipSpaces;
  }

  lemma DigitsUnfold(s: string, start: nat, end: nat, base: nat)
    requires 2 <= base <= 36 && start <= end <= SkipDigits(s, start, base)
    ensures DigitValue(At(s, end)) < base ==> end < SkipDigits(s, start, base) && end < |s|
    ensures DigitValue(At(s, end)) >= base ==> end == SkipDigits(s, start, base)
  {
    hide SkipDigits;
  }

  lemma PartNone(s: string, i: nat, base: nat)
    ensures Value(Part(s, i, i), base) == 0
  {
  }

  lemma PartNext(s: string, i: nat, j: nat, base: nat)
    requires i <= j
    ensures Value(Part(s, i, j + 1), base) == Value(Part(s, i, j), base) * base + DigitValue(At(s, j))
  {
    assert Part(s, i, j + 1) == Part(s, i, j) + [At(s, j)];
    ValueSnoc(Part(s, i, j), At(s, j), base);
  }

  /** The test against cutoff and cutlim decides whether the next value exceeds the limit. */
  lemma Cutoff(acc: nat, base: nat, c: nat, limit: nat)
    requires base >= 2 && c < base
    ensures acc > limit / base || (acc == limit / base && c > limit % base) <==> acc * base + c > limit
  {
    var q, r := limit / base, limit % base;
    assert limit == q * base + r;
    if acc > q {
      Times(q + 1, acc, base);
    } else if acc < q {
      Times(acc + 1, q, base);
    }
  }

  lemma Times(x: nat, y: nat, z: nat)
    requires x <= y
    ensures x * z <= y * z
    ensures (x + 1) * z == x * z + z
  {
    assert y * z == x * z + (y - x) * z;
  }

  lemma Grows(v: nat, base: nat)
    requires base >= 2
    ensures v * base >= v
  {
    Doubled(v, base);
  }

  /** strtol of number's output gives the number back, in every base; without the sign, its 32-bit
      pattern as far as that is a long. */
  method RoundTrip(num: int, base: nat, size: int, precision: int, f: Flags) returns (val: int)
    requires LONG_MIN <= num <= LONG_MAX && 2 <= base <= 36
    ensures val == if f.sign then num else Clamp(num % 0x1_0000_0000)
  {
    var str := Number(num, base, size, precision, f);
    ReadPrinted(num, base, size, precision, f);
    PrintedNoNul(num, base, size, precision, f);
    var end;
    val, end := Strtol(str.value, base);
  }

  lemma PrintedNoNul(num: int, base: nat, size: int, precision: int, f: Flags)
    requires 2 <= base <= 36
    ensures '\0' !in Printed(num, base, size, precision, f)
  {
    hide Digits;
    var ds := Digits(Magnitude(num, f), base, f.large);
    forall i | 0 <= i < |ds| ensures ds[i] != '\0' {
      assert DigitValue(ds[i]) < base;
    }
  }
}
