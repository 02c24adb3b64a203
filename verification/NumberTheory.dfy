/** Congruences, Euclid's lemma and Fermat's little theorem for an arbitrary prime modulus. */
module NumberTheory {

  ghost predicate Prime(p: int) {
    p > 1 && forall d | 1 < d < p :: p % d != 0
  }

  predicate PowerOfTwo(n: nat) {
    n == 1 || (n > 1 && n % 2 == 0 && PowerOfTwo(n / 2))
  }

  function Pow(b: int, e: nat): int {
    if e == 0 then 1 else b * Pow(b, e - 1)
  }

  lemma MulAtLeast(k: int, m: int)
    requires m > 0
    ensures k >= 1 ==> k * m >= m
  {
  }

  lemma MulLe(a: int, b: int, c: int)
    requires a <= b && c >= 0
    ensures a * c <= b * c
  {
  }

  lemma MulLt(a: int, b: int, c: int)
    requires c > 0
    ensures a < b <==> a * c < b * c
  {
  }

  lemma DivModUnique(x: int, q: int, r: int, m: int)
    requires m > 0 && 0 <= r < m && x == q * m + r
    ensures x / m == q && x % m == r
  {
    var q', r' := x / m, x % m;
    assert (q - q') * m == r' - r;
    MulAtLeast(q - q', m);
    MulAtLeast(q' - q, m);
  }

  lemma ModShift(x: int, k: int, m: int)
    requires m > 0
    ensures (x + k * m) % m == x % m
  {
    DivModUnique(x + k * m, x / m + k, x % m, m);
  }

  lemma ModMultiple(k: int, m: int)
    requires m > 0
    ensures (k * m) % m == 0
  {
    ModShift(0, k, m);
  }

  /** Two integers are congruent exactly when their difference is a multiple. */
  lemma ModEqual(x: int, y: int, m: int)
    requires m > 0
    ensures x % m == y % m <==> (x - y) % m == 0
  {
    if x % m == y % m {
      assert x - y == (x / m - y / m) * m;
      ModMultiple(x / m - y / m, m);
    }
    if (x - y) % m == 0 {
      assert x == y + ((x - y) / m) * m;
      ModShift(y, (x - y) / m, m);
    }
  }

  lemma ModAdd(x: int, y: int, m: int)
    requires m > 0
    ensures (x % m + y) % m == (x + y) % m
  {
    assert x + y == (x % m + y) + (x / m) * m;
    ModShift(x % m + y, x / m, m);
  }

  lemma ModMul(x: int, y: int, m: int)
    requires m > 0
    ensures ((x % m) * y) % m == (x * y) % m
  {
    assert x == (x / m) * m + x % m;
    assert x * y == (x % m) * y + ((x / m) * y) * m by {
      var q, r := x / m, x % m;
      assert (q * m + r) * y == r * y + (q * y) * m;
    }
    ModShift((x % m) * y, (x / m) * y, m);
  }

  lemma ModMulBoth(x: int, y: int, m: int)
    requires m > 0
    ensures ((x % m) * (y % m)) % m == (x * y) % m
  {
    ModMul(x, y % m, m);
    assert (y % m) * x == x * (y % m) && y * x == x * y;
    ModMul(y, x, m);
  }

  lemma ModMulCongruent(a: int, b: int, c: int, m: int)
    requires m > 0 && a % m == b % m
    ensures (a * c) % m == (b * c) % m
  {
    ModMul(a, c, m);
    ModMul(b, c, m);
  }

  lemma ModSmall(x: int, m: int)
    requires 0 <= x < m
    ensures x % m == x
  {
  }

  // ---------------------------------------------------------------- powers

  lemma {:induction false} PowAdd(b: int, e: nat, f: nat)
    ensures Pow(b, e + f) == Pow(b, e) * Pow(b, f)
  {
    if e == 0 {
    } else {
      PowAdd(b, e - 1, f);
      assert Pow(b, e + f) == b * Pow(b, e - 1 + f);
      assert b * (Pow(b, e - 1) * Pow(b, f)) == (b * Pow(b, e - 1)) * Pow(b, f);
    }
  }

  lemma {:induction false} PowMul(b: int, e: nat, f: nat)
    ensures e * f >= 0 && Pow(b, e * f) == Pow(Pow(b, e), f)
  {
    if f > 0 {
      PowMul(b, e, f - 1);
      assert e * f == e + e * (f - 1);
      PowAdd(b, e, e * (f - 1));
    } else {
      assert e * f == 0;
    }
  }

  lemma {:induction false} PowMod(b: int, e: nat, m: int)
    requires m > 0
    ensures Pow(b % m, e) % m == Pow(b, e) % m
  {
    if e == 0 {
    } else {
      PowMod(b, e - 1, m);
      var s, t := Pow(b % m, e - 1), Pow(b, e - 1);
      ModMul(b, s, m);
      assert s * b == b * s && t * b == b * t;
      ModMulCongruent(s, t, b, m);
    }
  }

  lemma {:induction false} PowOne(e: nat)
    ensures Pow(1, e) == 1
  {
    if e == 0 {
    } else {
      PowOne(e - 1);
    }
  }

  // ------------------------------------------------------------ Euclid, Fermat

  /** A prime that divides neither factor does not divide the product. */
  lemma {:induction false} Euclid(p: int, a: int, b: int)
    requires Prime(p) && 0 < a < p && b % p != 0
    ensures (a * b) % p != 0
    decreases a
  {
    if (a * b) % p == 0 {
      if a == 1 {
        assert false;
      } else {
        var q, r, k := p / a, p % a, (a * b) / p;
        assert p == q * a + r && a * b == k * p;
        assert r * b == (b - q * k) * p by {
          assert r * b == p * b - (q * a) * b;
          assert (q * a) * b == q * (a * b);
          assert q * (k * p) == (q * k) * p;
        }
        ModMultiple(b - q * k, p);
        Euclid(p, r, b);
      }
    }
  }

  lemma EuclidAny(p: int, a: int, b: int)
    requires Prime(p) && a % p != 0 && b % p != 0
    ensures (a * b) % p != 0
  {
    Euclid(p, a % p, b);
    ModMul(a, b, p);
  }

  /** Multiplication by a unit is injective modulo a prime. */
  lemma Cancel(p: int, a: int, x: int, y: int)
    requires Prime(p) && a % p != 0 && (a * x) % p == (a * y) % p
    ensures x % p == y % p
  {
    ModEqual(a * x, a * y, p);
    assert a * x - a * y == a * (x - y);
    if (x - y) % p != 0 {
      EuclidAny(p, a, x - y);
    }
    ModEqual(x, y, p);
  }

  ghost function Pick<T>(s: set<T>): (x: T)
    requires s != {}
    ensures x in s
  {
    var x :| x in s; x
  }

  ghost function Product(s: set<int>): int {
    if s == {} then 1 else Pick(s) * Product(s - {Pick(s)})
  }

  lemma {:induction false} ProductInsert(s: set<int>, x: int)
    requires x !in s
    ensures Product(s + {x}) == x * Product(s)
    decreases |s|
  {
    var t := s + {x};
    assert x in t;
    var y := Pick(t);
    if y == x {
      assert t - {x} == s;
    } else {
      var rest := s - {y};
      assert t - {y} == rest + {x} && rest + {y} == s;
      ProductInsert(rest, x);
      ProductInsert(rest, y);
      SwapFactors(y, x, Product(rest));
    }
  }

  lemma SwapFactors(x: int, y: int, z: int)
    ensures x * (y * z) == y * (x * z)
  {
  }

  ghost function Image(a: int, s: set<int>, p: int): set<int>
    requires p > 0
  {
    set x | x in s :: (a * x) % p
  }

  lemma ScaleStep(a: int, x: int, u: int, v: int, w: int, p: int)
    requires p > 0 && u % p == (v * w) % p
    ensures (((a * x) % p) * u) % p == ((a * v) * (x * w)) % p
  {
    ModMul(a * x, u, p);
    ModMulCongruent(u, v * w, a * x, p);
    assert u * (a * x) == (a * x) * u;
    assert (v * w) * (a * x) == (a * v) * (x * w);
  }

  /** Scaling every element of a set of residues scales its product by a power. */
  lemma {:induction false} ProductImage(a: int, s: set<int>, p: int)
    requires Prime(p) && a % p != 0 && forall x | x in s :: 0 < x < p
    ensures Product(Image(a, s, p)) % p == (Pow(a, |s|) * Product(s)) % p
    ensures |Image(a, s, p)| == |s|
    decreases |s|
  {
    if s == {} {
      assert Image(a, s, p) == {};
    } else {
      var x := Pick(s);
      var rest, y := s - {x}, (a * x) % p;
      assert s == rest + {x};
      ProductImage(a, rest, p);
      ImageSplit(a, rest, x, p);
      ProductInsert(Image(a, rest, p), y);
      ScaleStep(a, x, Product(Image(a, rest, p)), Pow(a, |rest|), Product(rest), p);
    }
  }

  lemma ImageSplit(a: int, rest: set<int>, x: int, p: int)
    requires Prime(p) && a % p != 0 && 0 < x < p && x !in rest
    requires forall z | z in rest :: 0 < z < p
    ensures (a * x) % p !in Image(a, rest, p)
    ensures Image(a, rest + {x}, p) == Image(a, rest, p) + {(a * x) % p}
  {
    if (a * x) % p in Image(a, rest, p) {
      var z :| z in rest && (a * x) % p == (a * z) % p;
      Cancel(p, a, x, z);
      ModSmall(x, p);
      ModSmall(z, p);
    }
  }

  lemma {:induction false} ProductUnit(s: set<int>, p: int)
    requires Prime(p) && forall x | x in s :: 0 < x < p
    ensures Product(s) % p != 0
    decreases |s|
  {
    if s == {} {
      ModSmall(1, p);
    } else {
      var x := Pick(s);
      ProductUnit(s - {x}, p);
      assert (s - {x}) + {x} == s;
      ProductInsert(s - {x}, x);
      Euclid(p, x, Product(s - {x}));
    }
  }

  ghost function Units(p: int): (s: set<int>)
    requires p >= 1
    ensures forall x :: x in s <==> 0 < x < p
    ensures |s| == p - 1
  {
    if p == 1 then {} else Units(p - 1) + {p - 1}
  }

  lemma SubsetOfEqualSize<T>(s: set<T>, t: set<T>)
    requires s <= t && |s| == |t|
    ensures s == t
  {
    assert t == s + (t - s);
  }

  lemma ImageOfUnits(p: int, a: int)
    requires Prime(p) && a % p != 0
    ensures Image(a, Units(p), p) == Units(p)
  {
    var units := Units(p);
    ProductImage(a, units, p);
    forall x | x in units
      ensures (a * x) % p in units
    {
      ModSmall(x, p);
      EuclidAny(p, a, x);
    }
    SubsetOfEqualSize(Image(a, units, p), units);
  }

  lemma Fermat(p: int, a: int)
    requires Prime(p) && a % p != 0
    ensures Pow(a, p - 1) % p == 1
  {
    var w, e := Product(Units(p)), Pow(a, p - 1);
    ProductImage(a, Units(p), p);
    ImageOfUnits(p, a);
    ProductUnit(Units(p), p);
    assert w * 1 == w && e * w == w * e;
    Cancel(p, w, e, 1);
    ModSmall(1, p);
  }
}
