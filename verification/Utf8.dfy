/** The UTF-8 codec of bootx/fs/HFSCompare.c: utf_encodestr and utf_decodestr, on UCS-2 names. */
module Utf8 {
  import opened Sequences

  function Lead2(c: bv16): bv8 { (((c >> 6) | 0xc0) & 0xff) as bv8 }

  function Lead3(c: bv16): bv8 { ((c >> 12) | 0xe0) as bv8 }

  function Middle(c: bv16): bv8 { (((c >> 6) & 0x3f) | 0x80) as bv8 }

  function Last(c: bv16): bv8 { ((c & 0x3f) | 0x80) as bv8 }

  /** The bytes of one character, in the 1- to 3-byte forms of section 3 of RFC 3629; surrogate
      units are encoded like any other unit, and a NUL is dropped. */
  function EncodeChar(c: bv16): seq<bv8> {
    if c == 0 then []
    else if c < 0x80 then [c as bv8]
    else if c < 0x800 then [Lead2(c), Last(c)]
    else [Lead3(c), Middle(c), Last(c)]
  }

  /** The forms by their numbers: the ranges of the bytes, and how they add up to the character. */
  lemma EncodeForms(c: bv16)
    requires c != 0
    ensures c < 0x80 ==> EncodeChar(c) == [c as bv8]
    ensures 0x80 <= c < 0x800 ==> var b := EncodeChar(c);
      |b| == 2 && 0xc2 <= b[0] < 0xe0 && 0x80 <= b[1] < 0xc0 && c == (b[0] - 0xc0) as bv16 * 64 + (b[1] - 0x80) as bv16
    ensures 0x800 <= c ==> var b := EncodeChar(c);
      |b| == 3 && 0xe0 <= b[0] < 0xf0 && 0x80 <= b[1] < 0xc0 && 0x80 <= b[2] < 0xc0 &&
      c == (b[0] - 0xe0) as bv16 * 4096 + (b[1] - 0x80) as bv16 * 64 + (b[2] - 0x80) as bv16
  {
    hide Lead2, Lead3, Middle, Last;
    if 0x800 <= c {
      Form3(c);
    } else if 0x80 <= c {
      Form2(c);
    }
  }

  lemma Form2(c: bv16)
    requires 0x80 <= c < 0x800
    ensures 0xc2 <= Lead2(c) < 0xe0 && 0x80 <= Last(c) < 0xc0
    ensures c == (Lead2(c) - 0xc0) as bv16 * 64 + (Last(c) - 0x80) as bv16
  {
  }

  lemma Form3(c: bv16)
    requires 0x800 <= c
    ensures 0xe0 <= Lead3(c) < 0xf0 && 0x80 <= Middle(c) < 0xc0 && 0x80 <= Last(c) < 0xc0
    ensures c == (Lead3(c) - 0xe0) as bv16 * 4096 + (Middle(c) - 0x80) as bv16 * 64 + (Last(c) - 0x80) as bv16
  {
  }

  function Encode(s: seq<bv16>): seq<bv8> {
    if s == [] then [] else Encode(s[..|s| - 1]) + EncodeChar(s[|s| - 1])
  }

  /** What one step of utf_decodestr reads: a character and the bytes it took, or nothing at the
      terminating NUL (or the end) and at a malformed sequence. */
  datatype Step = Stop | Char(c: bv16, used: nat)

  function ByteAt(b: seq<bv8>, i: nat): bv8 {
    if i < |b| then b[i] else 0
  }

  predicate IsLead2(b: bv8) { b >= 0x80 && (b & 0xf0 == 0xc0 || b & 0xf0 == 0xd0) }

  predicate IsLead3(b: bv8) { b >= 0x80 && b & 0xf0 == 0xe0 }

  predicate IsTrail(b: bv8) { b & 0xc0 == 0x80 }

  function Join2(b0: bv8, b1: bv8): bv16 {
    (((b0 & 0x1f) as bv16) << 6) + (b1 & 0x3f) as bv16
  }

  function Join3(b0: bv8, b1: bv8, b2: bv8): bv16 {
    (((((b0 & 0x0f) as bv16) << 6) + (b1 & 0x3f) as bv16) << 6) + (b2 & 0x3f) as bv16
  }

  function DecodeStep(b: seq<bv8>): (r: Step)
    ensures r.Char? ==> 0 < r.used <= |b|
  {
    var b0 := ByteAt(b, 0);
    if b0 == 0 then Stop
    else if b0 < 0x80 then Char(b0 as bv16, 1)
    else if IsLead2(b0) then
      (if IsTrail(ByteAt(b, 1)) then Char(Join2(b0, ByteAt(b, 1)), 2) else Stop)
    else if IsLead3(b0) then
      (if IsTrail(ByteAt(b, 1)) && IsTrail(ByteAt(b, 2)) then Char(Join3(b0, ByteAt(b, 1), ByteAt(b, 2)), 3) else Stop)
    else Stop
  }

  function Decode(b: seq<bv8>): seq<bv16>
    decreases |b|
  {
    match DecodeStep(b)
    case Stop => []
    case Char(c, used) => [c] + Decode(b[used..])
  }

  lemma StepEncoded(c: bv16, rest: seq<bv8>)
    requires c != 0
    ensures EncodeChar(c) != []
    ensures DecodeStep(EncodeChar(c) + rest) == Char(c, |EncodeChar(c)|)
  {
    hide Lead2, Lead3, Middle, Last, Join2, Join3, IsLead2, IsLead3, IsTrail, DecodeStep;
    if c < 0x80 {
      Bits1(c);
      Step1(c as bv8, rest);
    } else if c < 0x800 {
      Bits2(c);
      Step2(Lead2(c), Last(c), rest);
    } else {
      Bits3(c);
      Step3(Lead3(c), Middle(c), Last(c), rest);
    }
  }

  lemma Step1(b0: bv8, rest: seq<bv8>)
    requires 0 < b0 < 0x80
    ensures DecodeStep([b0] + rest) == Char(b0 as bv16, 1)
  {
  }

  lemma Step2(b0: bv8, b1: bv8, rest: seq<bv8>)
    requires IsLead2(b0) && IsTrail(b1)
    ensures DecodeStep([b0, b1] + rest) == Char(Join2(b0, b1), 2)
  {
    hide Join2, Join3, IsTrail;
    var b := [b0, b1] + rest;
    assert ByteAt(b, 0) == b0 && ByteAt(b, 1) == b1;
  }

  lemma Step3(b0: bv8, b1: bv8, b2: bv8, rest: seq<bv8>)
    requires IsLead3(b0) && IsTrail(b1) && IsTrail(b2)
    ensures DecodeStep([b0, b1, b2] + rest) == Char(Join3(b0, b1, b2), 3)
  {
    hide Join2, Join3, IsTrail;
    var b := [b0, b1, b2] + rest;
    assert ByteAt(b, 0) == b0 && ByteAt(b, 1) == b1 && ByteAt(b, 2) == b2;
  }

  lemma Bits1(c: bv16)
    requires 0 < c < 0x80
    ensures var b := c as bv8; 0 < b < 0x80 && b as bv16 == c
  {
  }

  lemma Bits2(c: bv16)
    requires 0x80 <= c < 0x800
    ensures IsLead2(Lead2(c)) && IsTrail(Last(c)) && Join2(Lead2(c), Last(c)) == c
  {
  }

  lemma Bits3(c: bv16)
    requires 0x800 <= c
    ensures IsLead3(Lead3(c)) && IsTrail(Middle(c)) && IsTrail(Last(c)) && Join3(Lead3(c), Middle(c), Last(c)) == c
  {
  }

  lemma {:induction false} EncodeFirst(s: seq<bv16>)
    requires s != []
    ensures Encode(s) == EncodeChar(s[0]) + Encode(s[1..])
    decreases |s|
  {
    hide EncodeChar;
    if |s| > 1 {
      var front, last := s[..|s| - 1], s[|s| - 1];
      EncodeFirst(front);
      assert s[1..][..|s| - 2] == front[1..];
      assert (EncodeChar(s[0]) + Encode(front[1..])) + EncodeChar(last) == EncodeChar(s[0]) + (Encode(front[1..]) + EncodeChar(last));
    } else {
      assert s[..0] == [] && s[1..] == [];
    }
  }

  /** Decoding inverts encoding on every name without NUL, with the terminating NUL or at the end
      of the bytes. */
  lemma {:induction false} DecodeEncode(s: seq<bv16>, rest: seq<bv8>)
    requires 0 !in s && (rest == [] || rest[0] == 0)
    ensures Decode(Encode(s) + rest) == s
    decreases |s|
  {
    hide EncodeChar, DecodeStep;
    if s == [] {
      assert Encode(s) + rest == rest;
      DecodeEnd(rest);
    } else {
      EncodeFirst(s);
      var c, more := s[0], Encode(s[1..]) + rest;
      assert Encode(s) + rest == EncodeChar(c) + more;
      StepEncoded(c, more);
      assert (EncodeChar(c) + more)[|EncodeChar(c)|..] == more;
      DecodeEncode(s[1..], rest);
      assert s == [c] + s[1..];
    }
  }

  lemma DecodeEnd(rest: seq<bv8>)
    requires rest == [] || rest[0] == 0
    ensures DecodeStep(rest) == Stop
  {
  }

  /** Encoded names without NUL are different for different names. */
  lemma EncodeInjective(s: seq<bv16>, t: seq<bv16>)
    requires 0 !in s && 0 !in t
    ensures Encode(s) == Encode(t) <==> s == t
  {
    DecodeEncode(s, []);
    DecodeEncode(t, []);
    assert Encode(s) + [] == Encode(s) && Encode(t) + [] == Encode(t);
  }

  /** The comment above the codec admits the shortest form only; the decoder takes longer ones too. */
  lemma OverlongAccepted()
    ensures Decode([0xc1, 0x81]) == [0x41] && Encode([0x41]) != [0xc1, 0x81]
  {
    var b: seq<bv8> := [0xc1, 0x81];
    assert DecodeStep(b) == Char(0x41, 2);
    assert b[2..] == [];
    DecodeEnd([]);
    var a: seq<bv16> := [0x41];
    assert a[..0] == [];
    assert Encode([]) == [];
    assert |EncodeChar(0x41)| == 1;
  }

  /** The bytes of a form that is not the shortest one show it: a two-byte form needs a lead byte
      from 0xc2 on, a three-byte form with lead byte 0xe0 a second byte from 0xa0 on. */
  predicate ShortestBytes(b: seq<bv8>, used: nat)
    requires used <= |b|
  {
    (used == 2 ==> b[0] >= 0xc2) && (used == 3 ==> b[0] != 0xe0 || b[1] >= 0xa0)
  }

  /** Exactly these sequences, of all the decoder accepts, are what the encoder would have written. */
  lemma ShortestExactly(b: seq<bv8>)
    requires DecodeStep(b).Char?
    ensures var step := DecodeStep(b); EncodeChar(step.c) == b[..step.used] <==> ShortestBytes(b, step.used)
  {
    hide Lead2, Lead3, Middle, Last, Join2, Join3, IsLead2, IsLead3, IsTrail;
    var step := DecodeStep(b);
    if step.used == 1 {
      Bits1Back(b[0]);
      assert b[..1] == [b[0]];
    } else if step.used == 2 {
      Bits2Back(b[0], b[1]);
      Bits2Range(b[0], b[1]);
      assert b[..2] == [b[0], b[1]];
    } else {
      Bits3Back(b[0], b[1], b[2]);
      Bits3Range(b[0], b[1], b[2]);
      assert b[..3] == [b[0], b[1], b[2]];
    }
  }

  lemma Bits1Back(b0: bv8)
    requires 0 < b0 < 0x80
    ensures 0 < b0 as bv16 < 0x80 && (b0 as bv16) as bv8 == b0
  {
  }

  lemma Bits2Back(b0: bv8, b1: bv8)
    requires IsLead2(b0) && IsTrail(b1)
    ensures Lead2(Join2(b0, b1)) == b0 && Last(Join2(b0, b1)) == b1
  {
  }

  lemma Bits2Range(b0: bv8, b1: bv8)
    requires IsLead2(b0) && IsTrail(b1)
    ensures Join2(b0, b1) < 0x800
    ensures Join2(b0, b1) >= 0x80 <==> b0 >= 0xc2
  {
  }

  lemma Bits3Back(b0: bv8, b1: bv8, b2: bv8)
    requires IsLead3(b0) && IsTrail(b1) && IsTrail(b2)
    ensures Lead3(Join3(b0, b1, b2)) == b0
    ensures Middle(Join3(b0, b1, b2)) == b1
    ensures Last(Join3(b0, b1, b2)) == b2
  {
  }

  lemma Bits3Range(b0: bv8, b1: bv8, b2: bv8)
    requires IsLead3(b0) && IsTrail(b1) && IsTrail(b2)
    ensures Join3(b0, b1, b2) >= 0x800 <==> b0 != 0xe0 || b1 >= 0xa0
  {
  }

  /** Some prefix of the name is encoded in exactly as many bytes. */
  ghost predicate Fills(ucs: seq<bv16>, bufsize: nat) {
    exists j :: 0 <= j <= |ucs| && |Encode(ucs[..j])| == bufsize
  }

  /** The name "A" fills a buffer of one byte. */
  lemma FillsOne()
    ensures Fills([0x41], 1)
  {
    var a: seq<bv16> := [0x41];
    EncodeNext(a, 0);
    EncodeNone(a);
    EncodedLength(0x41);
    assert |Encode(a[..1])| == 1;
  }

  lemma {:induction false} EncodeGrows(ucs: seq<bv16>, i: nat, j: nat)
    requires i <= j <= |ucs|
    ensures |Encode(ucs[..i])| <= |Encode(ucs[..j])|
    decreases j - i
  {
    hide EncodeChar;
    if i < j {
      EncodeGrows(ucs, i, j - 1);
      EncodeNext(ucs, j - 1);
    }
  }

  /** Where the longest prefix ends, by the test utf_encodestr makes. */
  lemma FillsExactly(ucs: seq<bv16>, bufsize: nat, k: nat)
    requires k <= |ucs| && |Encode(ucs[..k])| <= bufsize
    requires k < |ucs| ==> |Encode(ucs[..k + 1])| > bufsize || |Encode(ucs[..k])| == bufsize
    ensures |Encode(ucs[..k])| == bufsize <==> Fills(ucs, bufsize)
  {
    hide Encode;
    if Fills(ucs, bufsize) {
      var j :| 0 <= j <= |ucs| && |Encode(ucs[..j])| == bufsize;
      if j <= k {
        EncodeGrows(ucs, j, k);
      } else {
        EncodeGrows(ucs, k + 1, j);
      }
    }
  }

  /** utf_encodestr: writes the encoding of the longest prefix that fits in bufsize bytes, never a
      part of a character, and behind it the terminator. That is the byte behind the buffer exactly
      if some prefix fills the buffer. */
  method EncodeStr(ucs: seq<bv16>, utf8: array<bv8>, bufsize: nat) returns (n: nat, ghost k: nat)
    requires bufsize < utf8.Length
    modifies utf8
    ensures k <= |ucs| && n <= bufsize
    ensures utf8[..n] == Encode(ucs[..k]) && utf8[n] == 0
    ensures k < |ucs| ==> |Encode(ucs[..k + 1])| > bufsize || (ucs[k] == 0 && n == bufsize)
    ensures n == bufsize <==> Fills(ucs, bufsize)
  {
    hide Encode, EncodeChar;
    n, k := 0, 0;
    var i := 0;
    EncodeNone(ucs);
    while i < |ucs|
      invariant 0 <= i == k <= |ucs| && n <= bufsize
      invariant utf8[..n] == Encode(ucs[..k])
    {
      var c := ucs[i];
      i := i + 1;
      EncodeNext(ucs, k);
      EncodedLength(c);
      if c < 0x80 {
        if n >= bufsize {
          break;
        }
      } else if c < 0x800 {
        if n + 1 >= bufsize {
          break;
        }
      } else {
        if n + 2 >= bufsize {
          break;
        }
      }
      n := WriteChar(c, utf8, n);
      k := i;
    }
    utf8[n] := 0;
    FillsExactly(ucs, bufsize, k);
  }

  /** The stores of utf_encodestr for one character. */
  method WriteChar(c: bv16, utf8: array<bv8>, n: nat) returns (n': nat)
    requires n + |EncodeChar(c)| <= utf8.Length
    modifies utf8
    ensures n' == n + |EncodeChar(c)| && utf8[..n'] == old(utf8[..n]) + EncodeChar(c)
  {
    hide Lead2, Lead3, Middle, Last;
    n' := n;
    if c < 0x80 {
      if c != 0 {
        utf8[n'] := c as bv8;
        n' := n' + 1;
      }
    } else if c < 0x800 {
      utf8[n'] := Lead2(c);
      utf8[n' + 1] := Last(c);
      n' := n' + 2;
    } else {
      utf8[n'] := Lead3(c);
      utf8[n' + 1] := Middle(c);
      utf8[n' + 2] := Last(c);
      n' := n' + 3;
    }
  }

  lemma EncodedLength(c: bv16)
    ensures |EncodeChar(c)| == if c == 0 then 0 else if c < 0x80 then 1 else if c < 0x800 then 2 else 3
  {
  }

  lemma EncodeNone(ucs: seq<bv16>)
    ensures Encode(ucs[..0]) == []
  {
  }

  lemma EncodeNext(ucs: seq<bv16>, k: nat)
    requires k < |ucs|
    ensures Encode(ucs[..k + 1]) == Encode(ucs[..k]) + EncodeChar(ucs[k])
  {
    hide EncodeChar;
    assert ucs[..k + 1][..k] == ucs[..k];
  }

  /** utf_decodestr with a buffer of bufsize bytes for the result: the characters of Decode, as many
      as fit. The second byte of the last one is behind the buffer exactly if the size is odd and
      the characters do not all fit. */
  method DecodeStr(utf8: seq<bv8>, ucs: array<bv16>, bufsize: nat) returns (ucslen: nat)
    requires utf8 != [] && utf8[|utf8| - 1] == 0
    requires bufsize <= 2 * ucs.Length
    modifies ucs
    ensures ucslen <= ucs.Length && 2 * ucslen <= bufsize + 1
    ensures 2 * ucslen > bufsize <==> bufsize % 2 == 1 && 2 * |Decode(utf8)| > bufsize
    ensures ucs[..ucslen] <= Decode(utf8)
    ensures ucs[..ucslen] == Decode(utf8) || 2 * ucslen >= bufsize
  {
    hide DecodeStep, Decode;
    ucslen := 0;
    var pos := 0;
    assert utf8[0..] == utf8;
    while true
      invariant pos < |utf8| && ucslen <= ucs.Length && 2 * ucslen <= bufsize + 1
      invariant Decode(utf8) == ucs[..ucslen] + Decode(utf8[pos..])
      decreases |utf8| - pos
    {
      var step := ReadChar(utf8, pos);
      DecodeUnfold(utf8, pos, step);
      if step.Stop? || 2 * ucslen >= bufsize {
        return;
      }
      ghost var done := ucs[..ucslen];
      ucs[ucslen] := step.c;
      ucslen := ucslen + 1;
      assert ucs[..ucslen] == done + [step.c];
      Associates(done, [step.c], Decode(utf8[pos + step.used..]));
      pos := pos + step.used;
    }
  }

  lemma DecodeUnfold(utf8: seq<bv8>, pos: nat, step: Step)
    requires pos < |utf8| && step == DecodeStep(utf8[pos..])
    ensures step.Char? ==> pos + step.used <= |utf8|
    ensures Decode(utf8[pos..]) == if step.Stop? then [] else [step.c] + Decode(utf8[pos + step.used..])
  {
    hide DecodeStep;
    if step.Char? {
      assert utf8[pos..][step.used..] == utf8[pos + step.used..];
    }
  }

  /** The body of the loop of utf_decodestr up to the store: never reads past the terminator. */
  method ReadChar(utf8: seq<bv8>, pos: nat) returns (r: Step)
    requires pos < |utf8| && utf8[|utf8| - 1] == 0
    ensures r == DecodeStep(utf8[pos..])
    ensures r.Char? ==> pos + r.used < |utf8|
  {
    hide Join2, Join3, IsLead2, IsLead3, IsTrail;
    var byte := utf8[pos];
    assert ByteAt(utf8[pos..], 0) == byte;
    if byte == 0 {
      return Stop;
    }
    if byte < 0x80 {
      return Char(byte as bv16, 1);
    }
    assert ByteAt(utf8[pos..], 1) == utf8[pos + 1];
    if IsLead2(byte) {
      if !IsTrail(utf8[pos + 1]) {
        return Stop;
      }
      Terminates(utf8[pos + 1]);
      r := Char(Join2(byte, utf8[pos + 1]), 2);
    } else if IsLead3(byte) {
      if !IsTrail(utf8[pos + 1]) {
        return Stop;
      }
      Terminates(utf8[pos + 1]);
      assert ByteAt(utf8[pos..], 2) == utf8[pos + 2];
      if !IsTrail(utf8[pos + 2]) {
        return Stop;
      }
      Terminates(utf8[pos + 2]);
      r := Char(Join3(byte, utf8[pos + 1], utf8[pos + 2]), 3);
    } else {
      r := Stop;
    }
  }

  lemma Terminates(b: bv8)
    requires IsTrail(b)
    ensures b != 0
  {
  }

  /** utf_decodestr of what utf_encodestr wrote, on a name without NUL: the longest prefix that fits
      in the buffer, the whole name if it does. */
  method RoundTrip(ucs: seq<bv16>, bufsize: nat) returns (name: seq<bv16>)
    requires 0 !in ucs
    ensures name <= ucs && |Encode(name)| <= bufsize
    ensures |name| < |ucs| ==> |Encode(ucs[..|name| + 1])| > bufsize
    ensures |Encode(ucs)| <= bufsize ==> name == ucs
  {
    hide Encode, Decode;
    var utf8 := new bv8[bufsize + 1];
    var n, k := EncodeStr(ucs, utf8, bufsize);
    var decoded := new bv16[|ucs|];
    assert utf8[..n + 1] == Encode(ucs[..k]) + [0];
    DecodeEncode(ucs[..k], [0]);
    var len := DecodeStr(utf8[..n + 1], decoded, 2 * |ucs|);
    name := decoded[..len];
    assert name == ucs[..k] && |utf8[..n]| == n;
    assert ucs[..|ucs|] == ucs;
    if k < |ucs| {
      EncodeGrows(ucs, k + 1, |ucs|);
    }
  }
}
