/** The constant tables of the CKKSPrecomputed constructor (src/ckks/precomputed.cpp:98-137): products
    and inverses of moduli in the Montgomery domain. */
module Precomputed {
  import opened Congruence
  import opened Montgomery
  import opened Arithmetic
  import opened ResidueBase
  import opened BaseExtension
  import opened ModDown

  /** One more modulus in front of a product. */
  lemma {:induction false} RemovedExtend(m: seq<Modulus>, n: nat, s: nat)
    requires s <= n < |m|
    ensures Removed(m, n + 1, s + 1) == Removed(m, n, s) * m[n].q
  {
    if s > 0 {
      RemovedExtend(m, n, s - 1);
      Exchange(Removed(m, n, s - 1), m[n].q, m[n - s].q);
    } else {
      assert Removed(m, n + 1, 0) == 1;
    }
  }

  lemma Exchange(a: int, b: int, c: int)
    ensures a * b * c == a * c * b
  {
  }

  lemma ProductStep(product: int, p: int, removed: int, q: int, next: int)
    requires Cong(product, removed * R, q) && Cong(next, product * p, q)
    ensures Cong(next, (removed * p) * R, q)
  {
    hide *;
    MulRight(product, removed * R, p, q);
    Exchange(removed, R, p);
    Trans(next, product * p, (removed * p) * R, q);
  }

  /** p_product_mult_r_: the radix times the product of the special primes, modulo every chain. Without
      special primes the word stays the bare radix. */
  method ProductMultR(m: seq<Modulus>, chains: nat) returns (products: seq<int>)
    requires Base(m) && chains <= |m|
    ensures |products| == chains
    ensures forall i :: 0 <= i < chains ==> Cong(products[i], Removed(m, |m|, |m| - chains) * R, m[i].q)
    ensures chains < |m| ==> forall i :: 0 <= i < chains ==> FactorConstant(products[i], Removed(m, |m|, |m| - chains), m[i].q)
  {
    hide *;
    products := [];
    for i := 0 to chains
      invariant |products| == i
      invariant forall j :: 0 <= j < i ==> ProductConstant(products[j], m, chains, m[j].q)
    {
      BaseAt(m, i);
      var q := m[i].q;
      var product := R;
      ProductStart(m, chains, q);
      for p := chains to |m|
        invariant product >= 0 && Cong(product, Removed(m, p, p - chains) * R, q) && (p > chains ==> product < q)
      {
        BaseAt(m, p);
        var next := ModulusMultiply(product, m[p].q, q);
        ProductStep(product, m[p].q, Removed(m, p, p - chains), q, next);
        RemovedExtend(m, p, p - chains);
        product := next;
      }
      ProductConstantIs(product, m, chains, q);
      products := products + [product];
    }
    forall i | 0 <= i < chains
      ensures Cong(products[i], Removed(m, |m|, |m| - chains) * R, m[i].q)
      ensures chains < |m| ==> FactorConstant(products[i], Removed(m, |m|, |m| - chains), m[i].q)
    {
      ProductConstantMeans(products[i], m, chains, m[i].q);
    }
  }

  ghost predicate ProductConstant(c: int, m: seq<Modulus>, chains: nat, q: int)
    requires chains <= |m|
  {
    Cong(c, Removed(m, |m|, |m| - chains) * R, q) && 0 <= c && (chains < |m| ==> c < q)
  }

  lemma ProductConstantIs(c: int, m: seq<Modulus>, chains: nat, q: int)
    requires chains <= |m| && Cong(c, Removed(m, |m|, |m| - chains) * R, q) && 0 <= c && (chains < |m| ==> c < q)
    ensures ProductConstant(c, m, chains, q)
  {
  }

  lemma ProductConstantMeans(c: int, m: seq<Modulus>, chains: nat, q: int)
    requires chains <= |m| && ProductConstant(c, m, chains, q)
    ensures Cong(c, Removed(m, |m|, |m| - chains) * R, q)
    ensures chains < |m| ==> FactorConstant(c, Removed(m, |m|, |m| - chains), q)
  {
  }

  lemma ProductStart(m: seq<Modulus>, chains: nat, q: int)
    requires chains <= |m| && q > 0
    ensures R >= 0 && Cong(R, Removed(m, chains, 0) * R, q)
  {
    Refl(R, q);
  }

  /** The key generator's word for P * s_from: enter with the product table. */
  lemma ProductEntered(s: int, f: int, c: int, p: int, q: int, k: int)
    requires MontModulus(q, k) && 0 <= s < 2 * q && Cong(s, f * R, q) && FactorConstant(c, p, q)
    ensures 0 <= MontMultScalar(s, c, q, k) < 2 * q && Cong(MontMultScalar(s, c, q, k), (p * f) * R, q)
  {
    FactorMeans(c, p, q);
    hide *;
    var t := MontMultScalar(s, c, q, k);
    MontLazy(s, c, q, k);
    TimesCommute(s, c);
    MontMeaning(t, c, s, q, k, p);
    Scale(p, s, f * R, q);
    Associate(p, f, R);
    Trans(t, p * s, (p * f) * R, q);
  }

  lemma FactorMeans(c: int, p: int, q: int)
    requires FactorConstant(c, p, q)
    ensures 0 <= c < q && c < 2 * q && Cong(c, p * R, q)
  {
  }

  // ---------- inverses ----------

  /** modulus_multiply(modulus_invert(p, q), r, q); a modulus without an inverse gets the word 0. */
  method InverseMultR(p: int, q: int) returns (c: int)
    requires p >= 0 && q > 1
    ensures 0 <= c < q
    ensures Invertible(p, q) ==> InverseConstant(c, p, q)
    ensures !Invertible(p, q) ==> c == 0
  {
    hide *;
    var inverse := ModulusInvert(p, q);
    RadixPositive();
    c := ModulusMultiply(inverse, R, q);
    if inverse != 0 {
      Refl(p, q);
      InverseConstantIs(p, p, inverse, c, q);
    } else {
      ZeroProduct(c, q);
    }
  }

  lemma RadixPositive()
    ensures R >= 0
  {
  }

  lemma ZeroProduct(c: int, q: int)
    requires q > 1 && 0 <= c < q && Cong(c, 0 * R, q)
    ensures c == 0
  {
  }

  ghost predicate InverseRow(row: seq<int>, m: seq<Modulus>, from: nat, low: nat) {
    from < |m| && low + |row| <= |m| &&
    forall i :: 0 <= i < |row| ==> InverseWord(row[i], m[from].q, m[low + i].q)
  }

  ghost predicate InverseWord(c: int, p: int, q: int) {
    Invertible(p, q) ==> InverseConstant(c, p, q)
  }

  /** The inverses of modulus `from` modulo the moduli from low up to high. */
  method InversesOf(m: seq<Modulus>, from: nat, low: nat, high: nat) returns (row: seq<int>)
    requires (forall i :: 0 <= i < |m| ==> m[i].q > 1) && from < |m| && low <= high <= |m|
    ensures |row| == high - low && InverseRow(row, m, from, low)
  {
    hide Invertible, InverseConstant;
    row := [];
    for i := low to high
      invariant |row| == i - low && InverseRow(row, m, from, low)
    {
      var word := InverseMultR(m[from].q, m[i].q);
      row := row + [word];
    }
  }

  /** p_inverse_mult_r_: the special primes from the last one down. */
  method PInverseMultR(m: seq<Modulus>, chains: nat) returns (inverses: seq<seq<int>>)
    requires (forall i :: 0 <= i < |m| ==> m[i].q > 1) && chains <= |m|
    ensures |inverses| == |m| - chains
    ensures forall c :: 0 <= c < |inverses| ==> |inverses[c]| == |m| - 1 - c && InverseRow(inverses[c], m, |m| - 1 - c, 0)
    ensures forall c, i :: 0 <= c < |inverses| && 0 <= i < |inverses[c]| && Invertible(m[|m| - 1 - c].q, m[i].q) ==>
      0 <= inverses[c][i] < m[i].q && (inverses[c][i] * m[|m| - 1 - c].q) % m[i].q == R % m[i].q
  {
    hide InverseRow, Invertible;
    inverses := [];
    var pIndex := |m|;
    while pIndex > chains
      invariant chains <= pIndex <= |m| && |inverses| == |m| - pIndex
      invariant forall c :: 0 <= c < |inverses| ==> |inverses[c]| == |m| - 1 - c && InverseRow(inverses[c], m, |m| - 1 - c, 0)
    {
      pIndex := pIndex - 1;
      var row := InversesOf(m, pIndex, 0, pIndex);
      inverses := inverses + [row];
    }
    forall c, i | 0 <= c < |inverses| && 0 <= i < |inverses[c]| && Invertible(m[|m| - 1 - c].q, m[i].q)
      ensures 0 <= inverses[c][i] < m[i].q && (inverses[c][i] * m[|m| - 1 - c].q) % m[i].q == R % m[i].q
    {
      RowInverse(inverses[c], m, |m| - 1 - c, 0, i);
    }
  }

  lemma RowInverse(row: seq<int>, m: seq<Modulus>, from: nat, low: nat, i: nat)
    requires InverseRow(row, m, from, low) && i < |row| && from < |m| && low + i < |m| && Invertible(m[from].q, m[low + i].q)
    ensures 0 <= row[i] < m[low + i].q && (row[i] * m[from].q) % m[low + i].q == R % m[low + i].q
  {
    hide Invertible;
    assert InverseWord(row[i], m[from].q, m[low + i].q);
  }

  /** rescale_scale_: entry i of row c is the radix over modulus c, modulo modulus c + 1 + i. */
  method RescaleScale(m: seq<Modulus>) returns (scales: seq<seq<int>>)
    requires |m| >= 1 && forall i :: 0 <= i < |m| ==> m[i].q > 1
    ensures |scales| == |m| - 1
    ensures forall c :: 0 <= c < |scales| ==> |scales[c]| == |m| - 1 - c
    ensures forall c, i :: 0 <= c < |scales| && 0 <= i < |scales[c]| && Invertible(m[c].q, m[c + 1 + i].q) ==>
      0 <= scales[c][i] < m[c + 1 + i].q && (scales[c][i] * m[c].q) % m[c + 1 + i].q == R % m[c + 1 + i].q
  {
    hide InverseRow, Invertible;
    scales := [];
    for from := 0 to |m| - 1
      invariant |scales| == from
      invariant forall c :: 0 <= c < |scales| ==> |scales[c]| == |m| - 1 - c && InverseRow(scales[c], m, c, c + 1)
    {
      var row := InversesOf(m, from, from + 1, |m|);
      scales := scales + [row];
    }
    forall c, i | 0 <= c < |scales| && 0 <= i < |scales[c]| && Invertible(m[c].q, m[c + 1 + i].q)
      ensures 0 <= scales[c][i] < m[c + 1 + i].q && (scales[c][i] * m[c].q) % m[c + 1 + i].q == R % m[c + 1 + i].q
    {
      RowInverse(scales[c], m, c, c + 1, i);
    }
  }

  /** Below the top level the first `id` moduli are gone, and the tables are read from entry `id` on:
      what mod_down then sees divides by its own special primes, provided only that those primes are
      invertible modulo the moduli that are left. */
  lemma InversesBelow(m: seq<Modulus>, chains: nat, inverses: seq<seq<int>>, id: nat)
    requires id <= chains <= |m| == |inverses| + chains
    requires forall c :: 0 <= c < |inverses| ==> |inverses[c]| == |m| - 1 - c && InverseRow(inverses[c], m, |m| - 1 - c, 0)
    requires forall i, j :: id <= i < j < |m| && chains <= j ==> Invertible(m[j].q, m[i].q)
    ensures ValidInverses(Views(inverses, id), m[id..], |m| - id, |m| - chains)
  {
    hide InverseConstant, Invertible;
    var views, n := Views(inverses, id), |m| - id;
    forall c | 0 <= c < |m| - chains ensures RoundConstants(views[c], m[id..], n - 1 - c) {
      forall i | 0 <= i < n - 1 - c ensures InverseConstant(views[c][i], m[id..][n - 1 - c].q, m[id..][i].q) {
        assert InverseWord(inverses[c][id + i], m[|m| - 1 - c].q, m[id + i].q);
        assert Invertible(m[|m| - 1 - c].q, m[id + i].q);
      }
    }
  }

  function Views(inverses: seq<seq<int>>, id: nat): (views: seq<seq<int>>)
    ensures |views| == |inverses|
  {
    seq(|inverses|, c requires 0 <= c < |inverses| => if id <= |inverses[c]| then inverses[c][id..] else [])
  }
}
