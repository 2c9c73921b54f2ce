/** Integer powers. */
module Powers {

  function Pow(b: nat, e: nat): nat {
    if e == 0 then 1 else b * Pow(b, e - 1)
  }

  lemma {:induction false} PowPositive(b: nat, e: nat)
    requires 0 < b
    ensures 0 < Pow(b, e)
  {
    if e != 0 {
      PowPositive(b, e - 1);
    }
  }

  lemma {:induction false} PowAdds(b: nat, d: nat, e: nat)
    ensures Pow(b, d + e) == Pow(b, d) * Pow(b, e)
  {
    if d != 0 {
      PowAdds(b, d - 1, e);
      Associative(b, Pow(b, d - 1), Pow(b, e));
      assert Pow(b, d + e) == b * Pow(b, d - 1 + e);
    }
  }

  lemma Associative(x: int, y: int, z: int)
    ensures x * (y * z) == (x * y) * z
  {
  }

  lemma {:induction false} PowGrows(b: nat, d: nat, e: nat)
    requires 2 <= b && d < e
    ensures Pow(b, d) < Pow(b, e)
    decreases e
  {
    PowPositive(b, e - 1);
    if d < e - 1 {
      PowGrows(b, d, e - 1);
    }
    Doubles(b, Pow(b, e - 1));
  }

  lemma Doubles(b: nat, p: nat)
    requires 2 <= b && 0 < p
    ensures p < b * p
  {
  }

  lemma PowTens()
    ensures Pow(10, 0) == 1 && Pow(10, 1) == 10 && Pow(10, 2) == 100 && Pow(10, 3) == 1000 && Pow(10, 4) == 10000
    ensures Pow(10, 5) == 100000 && Pow(10, 6) == 1000000 && Pow(10, 7) == 10000000
    ensures Pow(10, 8) == 100000000 && Pow(10, 9) == 1000000000 && Pow(10, 10) == 10000000000
  {
    assert Pow(10, 2) == 100;
    assert Pow(10, 4) == 10000;
    assert Pow(10, 6) == 1000000;
    assert Pow(10, 8) == 100000000;
  }

  lemma PowTwos()
    ensures Pow(2, 32) == 0x1_0000_0000 && Pow(2, 60) == 0x1000_0000_0000_0000
  {
    assert Pow(2, 8) == 256;
    PowAdds(2, 8, 8);
    PowAdds(2, 16, 16);
    assert Pow(2, 4) == 16;
    PowAdds(2, 8, 4);
    PowAdds(2, 16, 12);
    PowAdds(2, 32, 28);
  }

  lemma Monotone(x: int, y: int, u: int)
    requires x <= y && 0 <= u
    ensures x * u <= y * u
  {
  }
}
