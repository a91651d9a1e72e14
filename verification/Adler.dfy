/** Alder32 of bootx/main/util.c: the checksum with its reductions deferred. */
module Adler {

  const BASE := 65521
  const PERIOD := 5000

  type Byte = x: int | 0 <= x < 256

  /** s1 and s2 of sections 2.2 and 8.2 of RFC 1950, reduced after every byte. */
  function S1(b: seq<Byte>): (r: int)
    ensures 0 <= r < BASE
  {
    if b == [] then 1 else (S1(b[..|b| - 1]) + b[|b| - 1]) % BASE
  }

  function S2(b: seq<Byte>): (r: int)
    ensures 0 <= r < BASE
  {
    if b == [] then 0 else (S2(b[..|b| - 1]) + S1(b)) % BASE
  }

  /** 1 + 2 + ... + m */
  ghost function Triangle(m: nat): nat {
    if m == 0 then 0 else Triangle(m - 1) + m
  }

  lemma {:induction false} TriangleBound(m: nat, n: nat)
    requires m <= n
    ensures Triangle(m) <= Triangle(n)
    decreases n - m
  {
    if m < n {
      TriangleBound(m, n - 1);
    }
  }

  lemma {:induction false} TriangleClosed(m: nat)
    ensures 2 * Triangle(m) == m * (m + 1)
  {
    if m > 0 {
      TriangleClosed(m - 1);
    }
  }

  /** How large the two sums get m bytes after a reduction. */
  ghost predicate Bounded(low: int, high: int, m: nat) {
    0 <= low <= BASE - 1 + 255 * m && 0 <= high <= BASE - 1 + (BASE - 1) * m + 255 * Triangle(m)
  }

  lemma FitsWord(low: int, high: int, m: nat)
    requires Bounded(low, high, m) && m <= PERIOD
    ensures low < 0x1_0000_0000 && high < 0x1_0000_0000
  {
    TriangleBound(m, PERIOD);
    TriangleClosed(PERIOD);
  }

  lemma ModSum(x: int, y: int, s: int, t: int)
    requires x % BASE == s % BASE && y % BASE == t % BASE
    ensures (x + y) % BASE == (s + t) % BASE
  {
  }

  /** Every 32-bit sum stays below 2^32, and the result is the byte-by-byte checksum. */
  method Alder32(buffer: seq<Byte>) returns (result: int)
    ensures result == S2(buffer) * 0x10000 + S1(buffer)
  {
    hide S1, S2, Triangle;
    var lowHalf, highHalf := 1, 0;
    ghost var m := 0;
    SumsEmpty();
    assert buffer[..0] == [];
    BoundedStart(lowHalf, highHalf);
    var cnt := 0;
    while cnt < |buffer|
      invariant 0 <= cnt <= |buffer|
      invariant lowHalf % BASE == S1(buffer[..cnt]) && highHalf % BASE == S2(buffer[..cnt])
      invariant Bounded(lowHalf, highHalf, m) && m <= PERIOD
      invariant cnt % PERIOD == m % PERIOD
    {
      if cnt % PERIOD == 0 {
        lowHalf := lowHalf % BASE;
        highHalf := highHalf % BASE;
        m := 0;
        BoundedStart(lowHalf, highHalf);
      }
      SumsNext(buffer, cnt, lowHalf, highHalf);
      BoundedNext(lowHalf, highHalf, m, buffer[cnt]);
      lowHalf := lowHalf + buffer[cnt];
      highHalf := highHalf + lowHalf;
      m := m + 1;
      FitsWord(lowHalf, highHalf, m);
      assert lowHalf < 0x1_0000_0000 && highHalf < 0x1_0000_0000;
      cnt := cnt + 1;
    }
    assert buffer[..|buffer|] == buffer;
    lowHalf := lowHalf % BASE;
    highHalf := highHalf % BASE;
    result := highHalf * 0x10000 + lowHalf;
  }

  lemma SumsEmpty()
    ensures S1([]) == 1 && S2([]) == 0
  {
  }

  lemma BoundedStart(low: int, high: int)
    requires 0 <= low < BASE && 0 <= high < BASE
    ensures Bounded(low, high, 0)
  {
  }

  lemma BoundedNext(low: int, high: int, m: nat, b: Byte)
    requires Bounded(low, high, m)
    ensures Bounded(low + b, high + low + b, m + 1)
  {
  }

  lemma SumsNext(buffer: seq<Byte>, i: nat, low: int, high: int)
    requires i < |buffer| && low % BASE == S1(buffer[..i]) && high % BASE == S2(buffer[..i])
    ensures (low + buffer[i]) % BASE == S1(buffer[..i + 1])
    ensures (high + low + buffer[i]) % BASE == S2(buffer[..i + 1])
  {
    hide S1, S2;
    SumsSnoc(buffer, i);
    ModSum(low, buffer[i], S1(buffer[..i]), buffer[i]);
    ModSum(high, low + buffer[i], S2(buffer[..i]), S1(buffer[..i + 1]));
  }

  lemma SumsSnoc(buffer: seq<Byte>, i: nat)
    requires i < |buffer|
    ensures S1(buffer[..i + 1]) == (S1(buffer[..i]) + buffer[i]) % BASE
    ensures S2(buffer[..i + 1]) == (S2(buffer[..i]) + S1(buffer[..i + 1])) % BASE
  {
    assert buffer[..i + 1][..i] == buffer[..i];
  }

  /** The sum of the bytes. */
  ghost function Sum(b: seq<Byte>): int {
    if b == [] then 0 else b[0] + Sum(b[1..])
  }

  /** The sum of the bytes, each times the number of bytes from it to the end. */
  ghost function Weighted(b: seq<Byte>): int {
    if b == [] then 0 else |b| * b[0] + Weighted(b[1..])
  }

  lemma SumEmpty()
    ensures Sum([]) == 0 && Weighted([]) == 0
  {
  }

  lemma {:induction false} SumSnoc(b: seq<Byte>, x: Byte)
    ensures Sum(b + [x]) == Sum(b) + x
    ensures Weighted(b + [x]) == Weighted(b) + Sum(b) + x
  {
    if b == [] {
      assert b + [x] == [x] && [x][1..] == [];
    } else {
      assert (b + [x])[1..] == b[1..] + [x];
      SumSnoc(b[1..], x);
      assert (|b| + 1) * b[0] == |b| * b[0] + b[0];
    }
  }

  /** The two halves of the checksum in closed form. */
  lemma {:induction false} ClosedForm(b: seq<Byte>)
    ensures S1(b) == (1 + Sum(b)) % BASE && S2(b) == (|b| + Weighted(b)) % BASE
  {
    hide S1, S2, Sum, Weighted;
    if b == [] {
      SumsEmpty();
      SumEmpty();
    } else {
      var front, x := b[..|b| - 1], b[|b| - 1];
      ClosedForm(front);
      SumsSnoc(b, |front|);
      assert b[..|front| + 1] == b;
      SumSnoc(front, x);
      assert b == front + [x];
      ModSum(1 + Sum(front), x, S1(front), x);
      ModSum(|front| + Weighted(front), 1 + Sum(b), S2(front), S1(b));
    }
  }
}
