/** The field F251 and its inversion by repeated squaring. */
module Field251 {
  import opened Integers
  import opened NumberTheory

  const F251_MODULUS: u16 := 251

  lemma F251IsPrime()
    ensures Prime(251)
  {
  }

  /** What `inverse_f251` promises: the residue of value^249. */
  function Inverse(value: int): (r: int)
    ensures 0 <= r < 251
  {
    Pow(value, 249) % 251
  }

  lemma InverseIsInverse(value: int)
    requires value % 251 != 0
    ensures (value * Inverse(value)) % 251 == 1
    ensures Inverse(value) != 0
  {
    F251IsPrime();
    Fermat(251, value);
    var w := Pow(value, 249);
    ModMul(w, value, 251);
    assert value * w == w * value && (w % 251) * value == value * (w % 251);
    assert Pow(value, 250) == value * w;
  }

  /** The square-and-multiply loop; every product fits in a u16. */
  method InverseF251(value: u16) returns (result: u16)
    requires value < F251_MODULUS
    ensures result == Inverse(value)
    ensures value != 0 ==> (value * result) % 251 == 1
  {
    result := 1;
    var base: u16 := value;
    var exponent: u16 := F251_MODULUS - 2;
    while exponent != 0
      invariant 0 <= result < 251 && 0 <= base < 251
      invariant (result * Pow(base, exponent)) % 251 == Inverse(value)
      decreases exponent
    {
      SquareStep(result, base, exponent);
      if exponent % 2 == 1 {
        ProductFits(result, base);
        var product: u16 := result * base;
        result := product % F251_MODULUS;
      }
      ProductFits(base, base);
      var square: u16 := base * base;
      base := square % F251_MODULUS;
      exponent := exponent / 2;
    }
    assert Pow(base, 0) == 1;
    if value != 0 {
      InverseIsInverse(value);
    }
  }

  lemma ProductFits(a: int, b: int)
    requires 0 <= a < 251 && 0 <= b < 251
    ensures 0 <= a * b <= 62500
  {
  }

  lemma SquareStep(result: int, base: int, exponent: nat)
    requires exponent > 0
    ensures var half := Pow((base * base) % 251, exponent / 2);
            (result * Pow(base, exponent)) % 251
            == ((if exponent % 2 == 1 then (result * base) % 251 else result) * half) % 251
  {
    var k, square := exponent / 2, base * base;
    PowHalves(base, exponent);
    PowMod(square, k, 251);
    var h, half := Pow(square, k), Pow(square % 251, k);
    if exponent % 2 == 1 {
      Regroup(result, base, h);
      ModMulCongruent(h, half, result * base, 251);
      ModMul(result * base, half, 251);
      assert half * (result * base) == (result * base) * half;
    } else {
      ModMulCongruent(h, half, result, 251);
      assert h * result == result * h && half * result == result * half;
    }
  }

  lemma Regroup(x: int, y: int, z: int)
    ensures x * (y * z) == z * (x * y)
  {
  }

  lemma PowHalves(base: int, exponent: nat)
    ensures Pow(base, exponent)
            == if exponent % 2 == 1 then base * Pow(base * base, exponent / 2) else Pow(base * base, exponent / 2)
  {
    var k := exponent / 2;
    PowMul(base, 2, k);
    assert Pow(base, 2) == base * base by {
      assert Pow(base, 1) == base * Pow(base, 0);
    }
    if exponent % 2 == 1 {
      assert exponent - 1 == 2 * k;
    }
  }
}
