/** Digits, and what printing and reading a number mean. */
module Numbers {
  import opened Sequences

  const LONG_MIN := -0x8000_0000
  const LONG_MAX := 0x7fff_ffff

  function DigitChar(d: nat, large: bool): char
    requires d < 36
  {
    if d < 10 then '0' + d as char else if large then 'A' + (d - 10) as char else 'a' + (d - 10) as char
  }

  predicate IsDigit(c: char) { '0' <= c <= '9' }

  predicate IsUpper(c: char) { 'A' <= c <= 'Z' }

  predicate IsAlpha(c: char) { 'A' <= c <= 'Z' || 'a' <= c <= 'z' }

  /** isspace: blank, tab and newline (the last spelt twice in the original). */
  predicate IsSpace(c: char) { c == ' ' || c == '\t' || c == '\n' }

  /** The value of a digit or letter; 36 for any other character. */
  function DigitValue(c: char): (d: nat)
    ensures d <= 36
  {
    if IsDigit(c) then c as int - '0' as int
    else if IsUpper(c) then c as int - 'A' as int + 10
    else if IsAlpha(c) then c as int - 'a' as int + 10
    else 36
  }

  lemma DigitCharValue(d: nat, large: bool)
    requires d < 36
    ensures DigitValue(DigitChar(d, large)) == d
    ensures !IsSpace(DigitChar(d, large)) && DigitChar(d, large) != '-' && DigitChar(d, large) != '+'
    ensures d == 0 <==> DigitChar(d, large) == '0'
  {
  }

  predicate AllDigits(s: string, base: int) {
    forall i :: 0 <= i < |s| ==> DigitValue(s[i]) < base
  }

  /** The number written by digits of a base, the most significant first. */
  function Value(s: string, base: nat): nat {
    if s == [] then 0 else Value(s[..|s| - 1], base) * base + DigitValue(s[|s| - 1])
  }

  /** The digits of u. */
  function Digits(u: nat, base: nat, large: bool): (s: string)
    requires 2 <= base <= 36
    ensures s != [] && AllDigits(s, base)
  {
    DigitCharValue(u % base, large);
    if u < base then [DigitChar(u, large)] else Quotient(u, base); Digits(u / base, base, large) + [DigitChar(u % base, large)]
  }

  lemma Quotient(u: nat, base: nat)
    requires base >= 2 && u > 0
    ensures u / base < u
  {
    var q := u / base;
    assert u == q * base + u % base;
    Doubled(q, base);
  }

  lemma Doubled(q: nat, base: nat)
    requires base >= 2
    ensures q * base >= q * 2
  {
    assert q * base == q * 2 + q * (base - 2);
  }

  lemma ValueSnoc(s: string, c: char, base: nat)
    ensures Value(s + [c], base) == Value(s, base) * base + DigitValue(c)
  {
    assert (s + [c])[..|s|] == s;
  }

  lemma {:induction false} DigitsValue(u: nat, base: nat, large: bool)
    requires 2 <= base <= 36
    ensures Value(Digits(u, base, large), base) == u
    decreases u
  {
    hide DigitChar, DigitValue, Value;
    DigitCharValue(u % base, large);
    if u < base {
      SmallMod(u, base);
      ValueSnoc([], DigitChar(u, large), base);
      ValueNone(base);
      assert [] + [DigitChar(u, large)] == Digits(u, base, large);
    } else {
      Quotient(u, base);
      DigitsValue(u / base, base, large);
      ValueSnoc(Digits(u / base, base, large), DigitChar(u % base, large), base);
    }
  }

  lemma ValueNone(base: nat)
    ensures Value([], base) == 0
  {
  }

  lemma SmallMod(u: nat, base: nat)
    requires u < base
    ensures u % base == u && u / base == 0
  {
  }

  function Zeros(n: nat): (s: string)
    ensures |s| == n && forall i :: 0 <= i < n ==> s[i] == '0'
  {
    seq(n, _ => '0')
  }

  function Spaces(n: nat): (s: string)
    ensures |s| == n && forall i :: 0 <= i < n ==> s[i] == ' '
  {
    seq(n, _ => ' ')
  }

  /** Leading zeros do not change the value. */
  lemma {:induction false} LeadingZeros(n: nat, s: string, base: nat)
    ensures Value(Zeros(n) + s, base) == Value(s, base)
    decreases n + |s|
  {
    if s != [] {
      assert (Zeros(n) + s)[..n + |s| - 1] == Zeros(n) + s[..|s| - 1];
      LeadingZeros(n, s[..|s| - 1], base);
    } else if n > 0 {
      assert Zeros(n) + s == Zeros(n);
      assert Zeros(n)[..n - 1] == Zeros(n - 1) + [];
      LeadingZeros(n - 1, [], base);
    }
  }

  function Max(a: int, b: int): int {
    if a > b then a else b
  }

  /** The flags of number in bootx/libc/vsprintf.c. */
  datatype Flags = Flags(zeroPad: bool, sign: bool, plus: bool, space: bool, left: bool, special: bool, large: bool)

  /** The sign character, if one is printed. */
  function SignOf(n: int, f: Flags): string {
    if !f.sign then "" else if n < 0 then "-" else if f.plus then "+" else if f.space then " " else ""
  }

  function PrefixOf(base: int, f: Flags): string {
    if !f.special then "" else if base == 8 then "0" else if base == 16 then (if f.large then "0X" else "0x") else ""
  }

  /** What is printed in digits: the magnitude, or the 32-bit pattern if there is no sign. */
  function Magnitude(n: int, f: Flags): nat {
    if n >= 0 then n else if f.sign then -n else n % 0x1_0000_0000
  }

  /** The whole output: blanks, sign, prefix, zeros, digits, blanks. */
  function Printed(n: int, base: nat, size: int, precision: int, f: Flags): string
    requires 2 <= base <= 36
  {
    var ds := Digits(Magnitude(n, f), base, f.large);
    var sign, prefix := SignOf(n, f), PrefixOf(base, f);
    var p := Max(precision, |ds|);
    var pad := Max(size - |sign| - |prefix| - p, 0);
    Spaces(if !f.left && !f.zeroPad then pad else 0) + sign + prefix
      + Zeros((if !f.left && f.zeroPad then pad else 0) + (p - |ds|)) + ds + Spaces(if f.left then pad else 0)
  }

  /** The number of characters of the sign and of the prefix. */
  function Marks(n: int, base: int, f: Flags): nat {
    (if f.sign && (n < 0 || f.plus || f.space) then 1 else 0)
      + (if !f.special then 0 else if base == 16 then 2 else if base == 8 then 1 else 0)
  }

  /** What is printed without padding. */
  function Needed(n: int, base: nat, precision: int, f: Flags): int
    requires 2 <= base <= 36
  {
    Marks(n, base, f) + Max(precision, |Digits(if f.sign && n < 0 then -n else n % 0x1_0000_0000, base, f.large)|)
  }

  /** The output is as wide as asked for, unless the number needs more. */
  lemma PrintedLength(n: int, base: nat, size: int, precision: int, f: Flags)
    requires LONG_MIN <= n <= LONG_MAX && 2 <= base <= 36
    ensures |Printed(n, base, size, precision, f)| == Max(size, Needed(n, base, precision, f))
  {
    hide Digits;
  }

  predicate IsLower(c: char) { 'a' <= c <= 'z' }

  lemma DigitsCase(u: nat, base: nat, large: bool)
    requires 2 <= base <= 36
    ensures forall c :: c in Digits(u, base, large) ==> IsDigit(c) || (if large then IsUpper(c) else IsLower(c))
    ensures base <= 16 ==> forall c :: c in Digits(u, base, large) ==> c != 'x' && c != 'X'
    decreases u
  {
    if u >= base {
      Quotient(u, base);
      DigitsCase(u / base, base, large);
    }
  }

  /** Where the sign, the prefix and the padding show, each if and only if it is asked for. */
  lemma PrintedMarks(n: int, base: nat, size: int, precision: int, f: Flags)
    requires LONG_MIN <= n <= LONG_MAX && 2 <= base <= 36
    ensures var s := Printed(n, base, size, precision, f);
      ('-' in s <==> f.sign && n < 0) && ('+' in s <==> f.sign && n >= 0 && f.plus)
    ensures var s := Printed(n, base, size, precision, f);
      base == 16 ==> ('x' in s <==> f.special && !f.large) && ('X' in s <==> f.special && f.large)
    ensures var s, padded := Printed(n, base, size, precision, f), size > Needed(n, base, precision, f);
      var blank := f.sign && n >= 0 && !f.plus && f.space;
      && s != []
      && (s[0] == ' ' <==> (padded && !f.left && !f.zeroPad) || blank)
      && (s[|s| - 1] == ' ' <==> padded && f.left)
      && (' ' in s <==> (padded && (f.left || !f.zeroPad)) || blank)
    ensures forall c :: c in Printed(n, base, size, precision, f) ==> !(if f.large then IsLower(c) else IsUpper(c))
  {
    hide Digits, Magnitude, SignOf, PrefixOf, Needed, Printed, Assembly;
    var ds := Digits(Magnitude(n, f), base, f.large);
    var pad := Max(size - Needed(n, base, precision, f), 0);
    var before, behind := if !f.left && !f.zeroPad then pad else 0, if f.left then pad else 0;
    var zeros := (if !f.left && f.zeroPad then pad else 0) + (Max(precision, |ds|) - |ds|);
    PrintedIs(n, base, size, precision, f, pad, zeros, ds);
    DigitsCase(Magnitude(n, f), base, f.large);
    MarksAre(n, base, f);
    Membership(SignOf(n, f), PrefixOf(base, f), before, zeros, ds, behind);
    Ends(SignOf(n, f), PrefixOf(base, f), before, zeros, ds, behind);
  }

  lemma UnsignedIs(n: int, f: Flags)
    requires LONG_MIN <= n <= LONG_MAX
    ensures Magnitude(n, f) == if f.sign && n < 0 then -n else n % 0x1_0000_0000
  {
  }

  /** The characters of sign and prefix. */
  lemma MarksAre(n: int, base: int, f: Flags)
    ensures |SignOf(n, f)| + |PrefixOf(base, f)| == Marks(n, base, f) && |SignOf(n, f)| <= 1
    ensures '-' in SignOf(n, f) <==> f.sign && n < 0
    ensures '+' in SignOf(n, f) <==> f.sign && n >= 0 && f.plus
    ensures ' ' in SignOf(n, f) <==> f.sign && n >= 0 && !f.plus && f.space
    ensures ' ' in SignOf(n, f) <==> SignOf(n, f) == " "
    ensures forall c :: c in SignOf(n, f) ==> c == '-' || c == '+' || c == ' '
    ensures forall c :: c in PrefixOf(base, f) ==> c == '0' || (base == 16 && c == if f.large then 'X' else 'x')
    ensures base == 16 ==> ((if f.large then 'X' else 'x') in PrefixOf(base, f) <==> f.special)
  {
  }

  lemma PrintedIs(n: int, base: nat, size: int, precision: int, f: Flags, pad: int, zeros: int, ds: string)
    requires LONG_MIN <= n <= LONG_MAX && 2 <= base <= 36 && ds == Digits(Magnitude(n, f), base, f.large)
    requires pad == Max(size - Needed(n, base, precision, f), 0)
    requires zeros == (if !f.left && f.zeroPad then pad else 0) + (Max(precision, |ds|) - |ds|)
    ensures pad >= 0 && zeros >= 0
    ensures Printed(n, base, size, precision, f) ==
      Assembly(SignOf(n, f), PrefixOf(base, f), if !f.left && !f.zeroPad then pad else 0, zeros, ds, if f.left then pad else 0)
  {
    hide Digits, Magnitude, SignOf, PrefixOf, Zeros, Spaces, Marks;
    UnsignedIs(n, f);
    MarksAre(n, base, f);
  }

  function Assembly(sign: string, prefix: string, before: nat, zeros: nat, ds: string, behind: nat): string {
    Spaces(before) + sign + prefix + Zeros(zeros) + ds + Spaces(behind)
  }

  lemma Filled(n: nat, c: char)
    ensures c in Spaces(n) <==> n > 0 && c == ' '
    ensures c in Zeros(n) <==> n > 0 && c == '0'
  {
    if n > 0 { assert Spaces(n)[0] == ' ' && Zeros(n)[0] == '0'; }
  }

  lemma Membership(sign: string, prefix: string, before: nat, zeros: nat, ds: string, behind: nat)
    ensures forall c :: c in Assembly(sign, prefix, before, zeros, ds, behind) <==>
      c in sign || c in prefix || c in ds || (before + behind > 0 && c == ' ') || (zeros > 0 && c == '0')
  {
    hide Zeros, Spaces;
    forall c ensures c in Assembly(sign, prefix, before, zeros, ds, behind) <==>
      c in sign || c in prefix || c in ds || (before + behind > 0 && c == ' ') || (zeros > 0 && c == '0')
    {
      Filled(before, c);
      Filled(zeros, c);
      Filled(behind, c);
    }
  }

  lemma Ends(sign: string, prefix: string, before: nat, zeros: nat, ds: string, behind: nat)
    requires ds != [] && |sign| <= 1 && (' ' in sign ==> sign == " ") && ' ' !in prefix && ' ' !in ds
    ensures var s := Assembly(sign, prefix, before, zeros, ds, behind);
      s != [] && (s[0] == ' ' <==> before > 0 || sign == " ") && (s[|s| - 1] == ' ' <==> behind > 0)
  {
    hide Zeros, Spaces;
    var s := Assembly(sign, prefix, before, zeros, ds, behind);
    var body := prefix + Zeros(zeros) + ds;
    Filled(zeros, ' ');
    assert ' ' !in body && body != [] && s == Spaces(before) + sign + body + Spaces(behind);
    assert s[0] == if before > 0 then Spaces(before)[0] else if sign != [] then sign[0] else body[0];
    assert s[|s| - 1] == if behind > 0 then Spaces(behind)[behind - 1] else body[|body| - 1];
  }

  // ----- Reading

  /** A character of a NUL-terminated string. */
  function At(s: string, i: nat): char {
    if i < |s| then s[i] else '\0'
  }

  /** The first index from i on that is not a blank. */
  function SkipSpaces(s: string, i: nat): (j: nat)
    ensures i <= j && !IsSpace(At(s, j))
    ensures forall k :: i <= k < j ==> IsSpace(At(s, k))
    decreases |s| - i
  {
    if IsSpace(At(s, i)) then SkipSpaces(s, i + 1) else i
  }

  /** The end of the digits of a base from i on. */
  function SkipDigits(s: string, i: nat, base: int): (j: nat)
    requires base <= 36
    ensures i <= j && DigitValue(At(s, j)) >= base
    ensures forall k :: i <= k < j ==> DigitValue(At(s, k)) < base
    ensures i <= |s| ==> j <= |s|
    decreases |s| - i
  {
    if DigitValue(At(s, i)) < base then SkipDigits(s, i + 1, base) else i
  }

  /** Sign, first digit and base of a number. */
  datatype Head = Head(neg: bool, start: nat, base: nat)

  function ParseHead(s: string, base: nat): (h: Head)
    requires base == 0 || 2 <= base <= 36
    ensures 2 <= h.base <= 36
  {
    var i := SkipSpaces(s, 0);
    var neg := At(s, i) == '-';
    var j := if neg || At(s, i) == '+' then i + 1 else i;
    if (base == 0 || base == 16) && At(s, j) == '0' && (At(s, j + 1) == 'x' || At(s, j + 1) == 'X') then Head(neg, j + 2, 16)
    else if (base == 0 || base == 2) && At(s, j) == '0' && (At(s, j + 1) == 'b' || At(s, j + 1) == 'B') then Head(neg, j + 2, 2)
    else Head(neg, j, if base != 0 then base else if At(s, j) == '0' then 8 else 10)
  }

  function Clamp(v: int): int {
    if v < LONG_MIN then LONG_MIN else if v > LONG_MAX then LONG_MAX else v
  }

  /** The characters i..j of a string. */
  function Part(s: string, i: nat, j: nat): string
    requires i <= j
  {
    seq(j - i, k requires 0 <= k < j - i => At(s, i + k))
  }

  /** What strtol returns: the value, clamped to a long, and the index of the first character
      behind the number, 0 if there is no digit. */
  function ReadNumber(s: string, base: nat): (int, nat)
    requires base == 0 || 2 <= base <= 36
  {
    var h := ParseHead(s, base);
    var j := SkipDigits(s, h.start, h.base);
    var v: int := Value(Part(s, h.start, j), h.base);
    (Clamp(if h.neg then -v else v), if j > h.start then j else 0)
  }

  /** The parts of a printed number, where reading finds them. */
  lemma ReadParts(pre: string, sign: string, prefix: string, body: string, post: string, base: nat)
    requires 2 <= base <= 36
    requires forall i :: 0 <= i < |pre| ==> IsSpace(pre[i])
    requires sign == "" || sign == "-" || sign == "+" || sign == " "
    requires prefix == "" || (base == 8 && prefix == "0") || (base == 16 && (prefix == "0x" || prefix == "0X"))
    requires body != [] && AllDigits(body, base)
    requires post == [] || IsSpace(post[0])
    ensures var s := pre + sign + prefix + body + post;
      var at := |pre| + |sign| + if base == 16 then |prefix| else 0;
      ParseHead(s, base) == Head(sign == "-", at, base) &&
      SkipDigits(s, at, base) == |pre| + |sign| + |prefix| + |body| &&
      Part(s, at, |pre| + |sign| + |prefix| + |body|) == (if base == 16 then "" else prefix) + body
  {
    hide *;
    var s := pre + sign + prefix + body + post;
    var front := pre + sign + if base == 16 then prefix else "";
    var digits := (if base == 16 then "" else prefix) + body;
    HeadOf(s, pre, sign, prefix, body, post, base);
    Regrouped(pre, sign, prefix, body, post, base == 16);
    PrefixDigits(prefix, body, base);
    Located(s, front, digits, post, base);
  }

  lemma Regrouped(pre: string, sign: string, prefix: string, body: string, post: string, hex: bool)
    ensures pre + sign + prefix + body + post ==
      (pre + sign + if hex then prefix else "") + ((if hex then "" else prefix) + body) + post
  {
    if hex {
      assert "" + body == body;
    } else {
      assert pre + sign + "" == pre + sign;
      Associates(pre + sign, prefix, body);
    }
  }

  lemma PrefixDigits(prefix: string, body: string, base: nat)
    requires prefix == "" || (base == 8 && prefix == "0") || base == 16
    requires AllDigits(body, base) && base >= 2
    ensures AllDigits((if base == 16 then "" else prefix) + body, base)
  {
  }

  /** Digits in the middle of a string, read where they are. */
  lemma Located(s: string, front: string, digits: string, post: string, base: nat)
    requires s == front + digits + post && AllDigits(digits, base) && 2 <= base <= 36
    requires post == [] || IsSpace(post[0])
    ensures SkipDigits(s, |front|, base) == |front| + |digits|
    ensures Part(s, |front|, |front| + |digits|) == digits
  {
    hide SkipDigits;
    forall k | |front| <= k < |front| + |digits| ensures At(s, k) == digits[k - |front|] {
    }
    DigitsEnd(s, |front|, |front| + |digits|, base);
  }

  lemma DigitsEnd(s: string, at: nat, end: nat, base: nat)
    requires at <= end <= |s| && 2 <= base <= 36
    requires forall k :: at <= k < end ==> DigitValue(At(s, k)) < base
    requires DigitValue(At(s, end)) >= base
    ensures SkipDigits(s, at, base) == end
  {
    var j := SkipDigits(s, at, base);
    assert j >= end;
  }

  lemma HeadOf(s: string, pre: string, sign: string, prefix: string, body: string, post: string, base: nat)
    requires 2 <= base <= 36 && s == pre + sign + prefix + body + post
    requires forall i :: 0 <= i < |pre| ==> IsSpace(pre[i])
    requires sign == "" || sign == "-" || sign == "+" || sign == " "
    requires prefix == "" || (base == 8 && prefix == "0") || (base == 16 && (prefix == "0x" || prefix == "0X"))
    requires body != [] && AllDigits(body, base)
    requires post == [] || IsSpace(post[0])
    ensures ParseHead(s, base) == Head(sign == "-", |pre| + |sign| + if base == 16 then |prefix| else 0, base)
  {
    hide SkipSpaces, ParseHead, IsSpace, DigitValue;
    var j := |pre| + |sign|;
    var i := if sign == "-" || sign == "+" then |pre| else j;
    HeadChars(s, pre, sign, prefix, body, post, base);
    HeadIs(s, base, i, j, sign == "-", prefix);
  }

  /** The characters by which reading decides, where they stand. */
  lemma HeadChars(s: string, pre: string, sign: string, prefix: string, body: string, post: string, base: nat)
    requires 2 <= base <= 36 && s == pre + sign + prefix + body + post
    requires forall i :: 0 <= i < |pre| ==> IsSpace(pre[i])
    requires sign == "" || sign == "-" || sign == "+" || sign == " "
    requires prefix == "" || (base == 8 && prefix == "0") || (base == 16 && (prefix == "0x" || prefix == "0X"))
    requires body != [] && AllDigits(body, base)
    requires post == [] || IsSpace(post[0])
    ensures var j := |pre| + |sign|;
      var i := if sign == "-" || sign == "+" then |pre| else j;
      SkipSpaces(s, 0) == i && DigitValue(At(s, j)) < base &&
      (if i < j then At(s, i) == sign[0] else At(s, i) != '-' && At(s, i) != '+') &&
      (prefix != "" ==> At(s, j) == '0') &&
      (if |prefix| == 2 then At(s, j + 1) == prefix[1]
       else prefix == "" ==> DigitValue(At(s, j + 1)) < base || At(s, j + 1) == '\0' || IsSpace(At(s, j + 1)))
  {
    hide SkipSpaces;
    var j := |pre| + |sign|;
    var i := if sign == "-" || sign == "+" then |pre| else j;
    var first := (prefix + body)[0];
    assert forall k :: 0 <= k < i ==> At(s, k) == (pre + sign)[k];
    assert At(s, j) == first && DigitValue(first) < base;
    assert At(s, i) == if i < j then sign[0] else first;
    SpacesEnd(s, i);
    if prefix == "" {
      SecondChar(s, pre + sign, body, post, base);
    } else {
      assert At(s, j + 1) == (prefix + body)[1];
    }
  }

  /** What reading makes of them. */
  lemma HeadIs(s: string, base: nat, i: nat, j: nat, neg: bool, prefix: string)
    requires 2 <= base <= 36 && SkipSpaces(s, 0) == i && DigitValue(At(s, j)) < base
    requires neg <==> At(s, i) == '-'
    requires j == if neg || At(s, i) == '+' then i + 1 else i
    requires prefix == "" || (base == 8 && prefix == "0") || (base == 16 && (prefix == "0x" || prefix == "0X"))
    requires prefix != "" ==> At(s, j) == '0'
    requires |prefix| == 2 ==> At(s, j + 1) == prefix[1]
    requires prefix == "" ==> DigitValue(At(s, j + 1)) < base || At(s, j + 1) == '\0' || IsSpace(At(s, j + 1))
    ensures ParseHead(s, base) == Head(neg, j + if base == 16 then |prefix| else 0, base)
  {
    hide SkipSpaces, At;
  }

  /** The character after the first digit is a digit, a blank or the end. */
  lemma SecondChar(s: string, front: string, body: string, post: string, base: nat)
    requires s == front + body + post || s == front + "" + body + post
    requires body != [] && AllDigits(body, base) && (post == [] || IsSpace(post[0]))
    ensures var c := At(s, |front| + 1); DigitValue(c) < base || c == '\0' || IsSpace(c)
  {
    if |body| > 1 {
      assert At(s, |front| + 1) == body[1];
    } else if post != [] {
      assert At(s, |front| + 1) == post[0];
    }
  }

  lemma SpacesEnd(s: string, i: nat)
    requires forall k :: 0 <= k < i ==> IsSpace(At(s, k))
    requires !IsSpace(At(s, i))
    ensures SkipSpaces(s, 0) == i
  {
  }

  /** Reading a printed long in the same base gives it back, for every width, precision and
      combination of flags that prints the sign. Without the sign it gives the 32-bit pattern, as far
      as that is a long. Only blanks are behind the end found. */
  lemma ReadPrinted(n: int, base: nat, size: int, precision: int, f: Flags)
    requires LONG_MIN <= n <= LONG_MAX && 2 <= base <= 36
    ensures var (v, end) := ReadNumber(Printed(n, base, size, precision, f), base);
      v == (if f.sign then n else Clamp(n % 0x1_0000_0000)) && 0 < end <= |Printed(n, base, size, precision, f)| &&
      forall k :: end <= k < |Printed(n, base, size, precision, f)| ==> Printed(n, base, size, precision, f)[k] == ' '
  {
    hide *;
    var s := Printed(n, base, size, precision, f);
    var pre, zeros, ds, post := PrintedParts(n, base, size, precision, f);
    ReadParts(pre, SignOf(n, f), PrefixOf(base, f), Zeros(zeros) + ds, post, base);
    PrintedValue(n, base, zeros, f);
    var end := |pre| + |SignOf(n, f)| + |PrefixOf(base, f)| + |Zeros(zeros) + ds|;
    assert forall k :: end <= k < |s| ==> s[k] == post[k - end];
    ReadOf(s, base, n, f, end);
  }

  lemma PrintedParts(n: int, base: nat, size: int, precision: int, f: Flags)
    returns (pre: string, zeros: nat, ds: string, post: string)
    requires 2 <= base <= 36
    ensures Printed(n, base, size, precision, f) == pre + SignOf(n, f) + PrefixOf(base, f) + (Zeros(zeros) + ds) + post
    ensures forall i :: 0 <= i < |pre| ==> IsSpace(pre[i])
    ensures post == [] || IsSpace(post[0])
    ensures forall i :: 0 <= i < |post| ==> post[i] == ' '
    ensures ds == Digits(Magnitude(n, f), base, f.large)
    ensures Zeros(zeros) + ds != [] && AllDigits(Zeros(zeros) + ds, base)
    ensures SignOf(n, f) == "" || SignOf(n, f) == "-" || SignOf(n, f) == "+" || SignOf(n, f) == " "
    ensures PrefixOf(base, f) == "" || (base == 8 && PrefixOf(base, f) == "0")
         || (base == 16 && (PrefixOf(base, f) == "0x" || PrefixOf(base, f) == "0X"))
  {
    hide Digits, Magnitude, SignOf, PrefixOf, Max, Zeros, DigitValue;
    ds := Digits(Magnitude(n, f), base, f.large);
    Fields(n, base, f, precision, |ds|, size - |SignOf(n, f)| - |PrefixOf(base, f)|);
    var p := Max(precision, |ds|);
    var pad := Max(size - |SignOf(n, f)| - |PrefixOf(base, f)| - p, 0);
    pre := Spaces(if !f.left && !f.zeroPad then pad else 0);
    zeros := (if !f.left && f.zeroPad then pad else 0) + (p - |ds|);
    post := Spaces(if f.left then pad else 0);
    Associates(pre + SignOf(n, f) + PrefixOf(base, f), Zeros(zeros), ds);
    ZerosDigits(zeros, ds, base);
  }

  /** The shapes of sign and prefix, and widths that are not negative. */
  lemma Fields(n: int, base: int, f: Flags, precision: int, digits: nat, room: int)
    ensures SignOf(n, f) == "" || SignOf(n, f) == "-" || SignOf(n, f) == "+" || SignOf(n, f) == " "
    ensures PrefixOf(base, f) == "" || (base == 8 && PrefixOf(base, f) == "0")
         || (base == 16 && (PrefixOf(base, f) == "0x" || PrefixOf(base, f) == "0X"))
    ensures Max(precision, digits) >= digits && forall x :: Max(x, 0) >= 0
  {
  }

  lemma ZerosDigits(zeros: nat, ds: string, base: nat)
    requires base >= 2 && AllDigits(ds, base)
    ensures AllDigits(Zeros(zeros) + ds, base)
  {
    var s := Zeros(zeros) + ds;
    forall i | 0 <= i < |s| ensures DigitValue(s[i]) < base {
      assert s[i] == if i < zeros then '0' else ds[i - zeros];
    }
  }

  /** The digits read are worth the magnitude, the prefix of base 8 being one more zero. */
  lemma PrintedValue(n: int, base: nat, zeros: nat, f: Flags)
    requires 2 <= base <= 36
    ensures var ds := Digits(Magnitude(n, f), base, f.large);
      Value((if base == 16 then "" else PrefixOf(base, f)) + (Zeros(zeros) + ds), base) == Magnitude(n, f)
  {
    hide Digits, Value;
    var ds := Digits(Magnitude(n, f), base, f.large);
    DigitsValue(Magnitude(n, f), base, f.large);
    LeadingZeros(zeros, ds, base);
    if base == 8 && f.special {
      LeadingZeros(1, Zeros(zeros) + ds, base);
      assert Zeros(1) == "0";
    } else {
      assert "" + (Zeros(zeros) + ds) == Zeros(zeros) + ds;
    }
  }

  /** Sign and magnitude put together. */
  lemma ReadOf(s: string, base: nat, n: int, f: Flags, end: nat)
    requires LONG_MIN <= n <= LONG_MAX && 2 <= base <= 36
    requires var h := ParseHead(s, base); h.neg == (SignOf(n, f) == "-") && h.base == base && h.start < end
    requires var h := ParseHead(s, base); SkipDigits(s, h.start, base) == end && Value(Part(s, h.start, end), base) == Magnitude(n, f)
    ensures ReadNumber(s, base) == (if f.sign then n else Clamp(n % 0x1_0000_0000), end)
  {
    hide ParseHead, SkipDigits, Value, Part;
  }

  /** The written forms of a number in base b that are understood when base0 is asked for: digits
      without prefix in the base itself; 0x, 0b; and for base 0 a leading 0 for octal, else decimal. */
  predicate Form(prefix: string, body: string, base0: nat, b: nat) {
    2 <= b <= 36 && body != [] && AllDigits(body, b) &&
    ((prefix == "" && base0 == b)
     || ((prefix == "0x" || prefix == "0X") && (base0 == 0 || base0 == 16) && b == 16)
     || ((prefix == "0b" || prefix == "0B") && (base0 == 0 || base0 == 2) && b == 2)
     || (prefix == "" && base0 == 0 && b == if body[0] == '0' then 8 else 10))
  }

  /** Blanks, a sign or none, a number in one of these forms, and then neither digit nor letter: the
      number is read, clamped to a long, up to its end. */
  lemma ReadForm(pre: string, sign: string, prefix: string, body: string, post: string, base0: nat, b: nat)
    requires Form(prefix, body, base0, b) && (forall i :: 0 <= i < |pre| ==> IsSpace(pre[i]))
    requires sign == "" || sign == "-" || sign == "+"
    requires post == [] || DigitValue(post[0]) == 36
    ensures var v: int := Value(body, b);
      ReadNumber(pre + sign + prefix + body + post, base0) ==
        (Clamp(if sign == "-" then -v else v), |pre| + |sign| + |prefix| + |body|)
  {
    hide SkipSpaces, SkipDigits, Value, ParseHead, Part, DigitValue;
    var s := pre + sign + prefix + body + post;
    var at := |pre| + |sign| + |prefix|;
    FormHead(pre, sign, prefix, body, post, base0, b);
    forall k | at <= k < at + |body| ensures At(s, k) == body[k - at] { }
    assert At(s, at + |body|) == if post == [] then '\0' else post[0];
    NulIsNoDigit();
    DigitsEnd(s, at, at + |body|, b);
    assert Part(s, at, at + |body|) == body by { PartIs(s, at, body); }
    ReadIs(s, base0);
  }

  lemma NulIsNoDigit()
    ensures DigitValue('\0') == 36
  {
  }

  lemma PartIs(s: string, at: nat, body: string)
    requires forall k :: at <= k < at + |body| ==> At(s, k) == body[k - at]
    ensures Part(s, at, at + |body|) == body
  {
  }

  lemma ReadIs(s: string, base: nat)
    requires base == 0 || 2 <= base <= 36
    ensures var h := ParseHead(s, base); var j := SkipDigits(s, h.start, h.base);
      var v: int := Value(Part(s, h.start, j), h.base);
      ReadNumber(s, base) == (Clamp(if h.neg then -v else v), if j > h.start then j else 0)
  {
  }

  lemma FormHead(pre: string, sign: string, prefix: string, body: string, post: string, base0: nat, b: nat)
    requires Form(prefix, body, base0, b) && (forall i :: 0 <= i < |pre| ==> IsSpace(pre[i]))
    requires sign == "" || sign == "-" || sign == "+"
    requires post == [] || DigitValue(post[0]) == 36
    ensures ParseHead(pre + sign + prefix + body + post, base0) == Head(sign == "-", |pre| + |sign| + |prefix|, b)
  {
    hide SkipSpaces, Value, ParseHead;
    var s := pre + sign + prefix + body + post;
    var i, j := |pre|, |pre| + |sign|;
    assert forall k :: 0 <= k < i ==> At(s, k) == pre[k];
    assert At(s, i) == if sign != "" then sign[0] else if prefix != "" then prefix[0] else body[0];
    assert At(s, j) == if prefix != "" then prefix[0] else body[0];
    assert At(s, j + 1) == if prefix != "" then prefix[1] else if |body| > 1 then body[1] else if post != [] then post[0] else '\0';
    SpacesEnd(s, i);
    FormHeadIs(s, i, j, sign, prefix, body, base0, b);
  }

  lemma FormHeadIs(s: string, i: nat, j: nat, sign: string, prefix: string, body: string, base0: nat, b: nat)
    requires Form(prefix, body, base0, b) && SkipSpaces(s, 0) == i && j == i + |sign|
    requires sign == "" || sign == "-" || sign == "+"
    requires if sign == "" then At(s, i) != '-' && At(s, i) != '+' else At(s, i) == sign[0]
    requires At(s, j) == if prefix != "" then prefix[0] else body[0]
    requires prefix != "" ==> At(s, j + 1) == prefix[1]
    requires prefix == "" ==> DigitValue(At(s, j + 1)) < b || DigitValue(At(s, j + 1)) == 36
    ensures ParseHead(s, base0) == Head(sign == "-", j + |prefix|, b)
  {
    hide SkipSpaces, At;
  }
}
