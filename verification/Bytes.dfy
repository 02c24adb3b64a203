/** Byte strings of ASCII literals and of fixed-width integers. */
module Bytes {
  import opened Integers
  import opened NumberTheory
  import opened Sums

  /** The bytes of an ASCII literal. */
  function Ascii(s: string): (r: seq<u8>)
    ensures |r| == |s|
  {
    seq(|s|, i requires 0 <= i < |s| => (s[i] as int) % 256)
  }

  ghost predicate IsAscii(s: string) {
    forall i | 0 <= i < |s| :: s[i] as int < 128
  }

  lemma AsciiInjective(s: string, t: string)
    requires IsAscii(s) && IsAscii(t) && Ascii(s) == Ascii(t)
    ensures s == t
  {
    assert |s| == |t|;
    forall i | 0 <= i < |s| ensures s[i] == t[i] {
      assert Ascii(s)[i] == s[i] as int && Ascii(t)[i] == t[i] as int;
    }
  }

  /** The low `k` big-endian bytes of n. */
  function BigEndian(n: nat, k: nat): (r: seq<u8>)
    ensures |r| == k
  {
    if k == 0 then [] else BigEndian(n / 256, k - 1) + [n % 256]
  }

  /** The low `k` little-endian bytes of n. */
  function ToBytes(n: nat, k: nat): (r: seq<u8>)
    ensures |r| == k
  {
    if k == 0 then [] else [n % 256] + ToBytes(n / 256, k - 1)
  }

  // -------------------------------------------------------------------------- values

  /** What bytes are worth when the first one counts most. */
  ghost function ValueOf(bytes: seq<u8>): nat {
    if bytes == [] then 0 else 256 * ValueOf(bytes[..|bytes| - 1]) + bytes[|bytes| - 1]
  }

  /** `from_le_bytes`, before it is reduced. */
  function LittleEndian(bytes: seq<u8>): (v: nat)
    ensures v < Pow(256, |bytes|)
  {
    if bytes == [] then 0
    else
      LittleEndianStep(bytes[0], LittleEndian(bytes[1..]), |bytes|);
      bytes[0] + 256 * LittleEndian(bytes[1..])
  }

  lemma LittleEndianStep(first: u8, rest: nat, n: nat)
    requires n > 0 && rest < Pow(256, n - 1)
    ensures first + 256 * rest < Pow(256, n)
  {
  }

  /** What each byte adds when byte i counts 256^i times. */
  ghost function PlaceTerms(bytes: seq<u8>): seq<int> {
    seq(|bytes|, i requires 0 <= i < |bytes| => bytes[i] * Pow(256, i))
  }

  lemma {:induction false} LittleEndianSnoc(bytes: seq<u8>, last: u8)
    ensures LittleEndian(bytes + [last]) == LittleEndian(bytes) + last * Pow(256, |bytes|)
  {
    if bytes == [] {
      assert bytes + [last] == [last] && [last][1..] == [];
    } else {
      assert (bytes + [last])[1..] == bytes[1..] + [last];
      LittleEndianSnoc(bytes[1..], last);
      assert 256 * (last * Pow(256, |bytes| - 1)) == last * (256 * Pow(256, |bytes| - 1));
    }
  }

  lemma {:induction false} LittleEndianPlaces(bytes: seq<u8>)
    ensures LittleEndian(bytes) == Sum(PlaceTerms(bytes))
  {
    if bytes == [] {
    } else {
      var n := |bytes| - 1;
      LittleEndianPlaces(bytes[..n]);
      LittleEndianSnoc(bytes[..n], bytes[n]);
      assert bytes == bytes[..n] + [bytes[n]];
      assert PlaceTerms(bytes)[..n] == PlaceTerms(bytes[..n]);
    }
  }

  lemma {:induction false} PowPositive(e: nat)
    ensures Pow(256, e) >= 1
  {
    if e == 0 {
    } else {
      PowPositive(e - 1);
    }
  }

  lemma PowersOf256()
    ensures Pow(256, 4) == U32_MAX + 1 && Pow(256, 8) == U64_MAX + 1
  {
    assert Pow(256, 2) == 65536 by { assert Pow(256, 1) == 256 * Pow(256, 0); }
    PowAdd(256, 2, 2);
    PowAdd(256, 4, 4);
  }

  lemma DigitStep(q: int, d: int, m: int)
    requires m > 0 && 0 <= d < 256
    ensures (256 * q + d) % (256 * m) == 256 * (q % m) + d
  {
    var k, r := q / m, q % m;
    assert 256 * q + d == k * (256 * m) + (256 * r + d) by {
      assert q == k * m + r;
      assert 256 * (k * m) == k * (256 * m);
    }
    DivModUnique(256 * q + d, k, 256 * r + d, 256 * m);
  }

  lemma ValueNext(bytes: seq<u8>, k: nat)
    requires k < |bytes|
    ensures ValueOf(bytes[..k + 1]) == 256 * ValueOf(bytes[..k]) + bytes[k]
  {
    assert bytes[..k + 1][..k] == bytes[..k];
  }

  /** The digits of a fixed-width integer stand most significant first. */
  lemma {:induction false} BigEndianValue(n: nat, k: nat)
    ensures Pow(256, k) >= 1 && ValueOf(BigEndian(n, k)) == n % Pow(256, k)
  {
    if k == 0 {
      assert n % 1 == 0;
    } else {
      var m := Pow(256, k - 1);
      PowPositive(k - 1);
      BigEndianValue(n / 256, k - 1);
      DigitStep(n / 256, n % 256, m);
      var init := BigEndian(n / 256, k - 1);
      assert BigEndian(n, k) == init + [n % 256] && (init + [n % 256])[..k - 1] == init;
      assert ValueOf(BigEndian(n, k)) == 256 * ValueOf(init) + n % 256;
    }
  }

  /** And these least significant first. */
  lemma {:induction false} ToBytesValue(n: nat, k: nat)
    ensures Pow(256, k) >= 1 && LittleEndian(ToBytes(n, k)) == n % Pow(256, k)
  {
    if k == 0 {
      assert n % 1 == 0;
    } else {
      PowPositive(k - 1);
      ToBytesValue(n / 256, k - 1);
      assert ToBytes(n, k)[1..] == ToBytes(n / 256, k - 1);
      DigitStep(n / 256, n % 256, Pow(256, k - 1));
    }
  }

  lemma {:induction false} ValueInjective(a: seq<u8>, b: seq<u8>)
    requires |a| == |b| && ValueOf(a) == ValueOf(b)
    ensures a == b
  {
    if a == [] {
    } else {
      var n := |a| - 1;
      assert 256 * ValueOf(a[..n]) + a[n] == 256 * ValueOf(b[..n]) + b[n];
      ValueInjective(a[..n], b[..n]);
      assert a == a[..n] + [a[n]] && b == b[..n] + [b[n]];
    }
  }

  lemma {:induction false} LittleEndianInjective(a: seq<u8>, b: seq<u8>)
    requires |a| == |b| && LittleEndian(a) == LittleEndian(b)
    ensures a == b
  {
    if a == [] {
    } else {
      assert a[0] + 256 * LittleEndian(a[1..]) == b[0] + 256 * LittleEndian(b[1..]);
      assert a[0] == b[0];
      LittleEndianInjective(a[1..], b[1..]);
      assert a == [a[0]] + a[1..] && b == [b[0]] + b[1..];
    }
  }

  lemma BigEndianInjective(m: nat, n: nat, k: nat)
    requires m < Pow(256, k) && n < Pow(256, k) && BigEndian(m, k) == BigEndian(n, k)
    ensures m == n
  {
    BigEndianValue(m, k);
    BigEndianValue(n, k);
    ModSmall(m, Pow(256, k));
    ModSmall(n, Pow(256, k));
  }

  lemma ToBytesInjective(m: nat, n: nat, k: nat)
    requires m < Pow(256, k) && n < Pow(256, k) && ToBytes(m, k) == ToBytes(n, k)
    ensures m == n
  {
    ToBytesValue(m, k);
    ToBytesValue(n, k);
    ModSmall(m, Pow(256, k));
    ModSmall(n, Pow(256, k));
  }

  /** These bytes hold this number, if it fits. */
  ghost predicate Holds(bytes: seq<u8>, n: nat) {
    n < Pow(256, |bytes|) ==> ValueOf(bytes) == n
  }

  lemma BigEndianHolds(n: nat, k: nat)
    ensures Holds(BigEndian(n, k), n)
  {
    BigEndianValue(n, k);
    if n < Pow(256, k) { ModSmall(n, Pow(256, k)); }
  }

  lemma Cut(a: seq<u8>, x: seq<u8>, b: seq<u8>, y: seq<u8>)
    requires a + x == b + y && |a| == |b|
    ensures a == b && x == y
  {
    assert a == (a + x)[..|a|] && b == (b + y)[..|b|] && x == (a + x)[|a|..] && y == (b + y)[|b|..];
  }
}
