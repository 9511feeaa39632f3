/** Two primes that is_prime refuses because of its machine words (src/arithmetic/prime.cpp). Proth's
    theorem shows that they are prime, and evaluation what the words make of them. */
module RefusedPrimes {
  import opened Congruence
  import opened Montgomery
  import opened Arithmetic
  import opened NumberTheory
  import opened QuadraticResidues
  import opened Jacobi
  import opened Primality
  import opened Lucas
  import opened LucasTest
  import PrimeTest

  // ---------- Proth's theorem ----------

  /** Every prime factor p of n = k * 2^m + 1 has 2^m below it, if some a to the power (n - 1) / 2 is -1:
      otherwise Fermat's theorem modulo p makes an odd power of -1 one. */
  lemma FactorAbove(p: int, k: nat, m: nat, a: int)
    requires Prime(p) && Odd(p) && m >= 1 && Cong(Pow(Pow(a, k), Pow2(m - 1)), -1, p)
    ensures p > Pow2(m)
  {
    var b := Pow(a, k);
    var t, j := OddPart(p - 1), Twos(p - 1);
    hide *;
    OddPrime(p);
    OddPartSplit(p - 1);
    if j < m {
      UnitBase(b, m - 1, p);
      Fermat(b, p);
      PowMul(b, Pow2(m - 1), t);
      PowMul(b, p - 1, Pow2(m - 1 - j));
      SameExponent(t, j, m, p);
      PowCong(Pow(b, Pow2(m - 1)), -1, t, p);
      OddPowerOfMinusOne(t);
      PowCong(Pow(b, p - 1), 1, Pow2(m - 1 - j), p);
      PowOne(Pow2(m - 1 - j));
      Sym(Pow(b, (p - 1) * Pow2(m - 1 - j)), 1, p);
      Trans(1, Pow(b, (p - 1) * Pow2(m - 1 - j)), -1, p);
      NotMinusOne(p);
    } else {
      Pow2Monotone(m, j);
      AtLeast(t, Pow2(j));
      OddAtLeastOne(t);
    }
  }

  lemma OddAtLeastOne(t: nat)
    requires t % 2 == 1
    ensures t >= 1
  {
  }

  lemma UnitBase(b: int, e: nat, p: int)
    requires Prime(p) && p >= 3 && Cong(Pow(b, Pow2(e)), -1, p)
    ensures !Cong(b, 0, p)
  {
    if Cong(b, 0, p) {
      PowCong(b, 0, Pow2(e), p);
      PowPositive(0, Pow2(e));
      Sym(Pow(b, Pow2(e)), 0, p);
      Trans(0, Pow(b, Pow2(e)), -1, p);
    }
  }

  lemma PowPositive(b: int, e: nat)
    requires e > 0
    ensures Pow(b, e) == b * Pow(b, e - 1)
  {
  }

  lemma SameExponent(t: nat, j: nat, m: nat, p: int)
    requires p - 1 == t * Pow2(j) && j < m
    ensures Pow2(m - 1) * t == (p - 1) * Pow2(m - 1 - j)
  {
    Pow2Add(j, m - 1 - j);
    hide *;
    SameProduct(t, Pow2(j), Pow2(m - 1 - j), Pow2(m - 1));
  }

  lemma SameProduct(t: int, a: int, b: int, c: int)
    requires c == a * b
    ensures c * t == (t * a) * b
  {
  }

  /** Proth's theorem. */
  lemma Proth(n: int, k: nat, m: nat, a: int)
    requires n == k * Pow2(m) + 1 && 0 < k < Pow2(m) && m >= 1 && Cong(Pow(Pow(a, k), Pow2(m - 1)), -1, n)
    ensures Prime(n)
  {
    hide *;
    Pow2Double(m - 1);
    ProthOdd(n, k, Pow2(m), Pow2(m - 1));
    var p := LeastFactor(n, 2);
    Jacobi.Cofactor(n, p);
    LeastIsPrime(n);
    TimesCommute(p, n / p);
    OddPositive(n / p);
    OddPositive(p);
    Factor(Pow(Pow(a, k), Pow2(m - 1)), -1, n / p, p);
    FactorAbove(p, k, m, a);
    LeastCofactor(n, p, n / p);
    SquareAbove(n, k, Pow2(m), p, n / p);
  }

  lemma ProthOdd(n: int, k: int, w: int, half: int)
    requires n == k * w + 1 && 0 < k && w == 2 * half && half >= 1
    ensures Odd(n) && 2 < n
  {
    EvenTimes(w, k);
    TimesCommute(k, w);
    AtLeast(k, w);
  }

  lemma LeastCofactor(n: int, p: int, c: int)
    requires n > 2 && p == LeastFactor(n, 2) && n == p * c && c > 0
    ensures p == n || c >= p
  {
    DivModUnique(n, p, 0, c);
    assert p * 1 == p;
  }

  /** A cofactor of at least p would make n too large. */
  lemma SquareAbove(n: int, k: int, w: int, p: int, c: int)
    requires n == k * w + 1 && k < w && p > w > 0 && n == p * c
    ensures c < p
  {
    TimesMonotone(k, w, w);
    NextSquare(w);
    if c >= p {
      TimesMonotone(w + 1, c, w + 1);
      TimesMonotone(w + 1, p, c);
      TimesCommute(c, w + 1);
    }
  }

  lemma NextSquare(w: int)
    ensures (w + 1) * (w + 1) == w * w + 2 * w + 1
  {
  }

  // ---------- evaluation ----------

  /** Eight squarings. */
  function Square(v: int, n: int): int
    requires n > 0
  {
    v * v % n
  }

  function Squares8(v: int, n: int): int
    requires n > 0
  {
    Square(Square(Square(Square(Square(Square(Square(Square(v, n), n), n), n), n), n), n), n)
  }

  lemma SquareIs(v: int, x: int, r: nat, n: int)
    requires n > 0 && Cong(v, Pow(x, Pow2(r)), n)
    ensures Cong(Square(v, n), Pow(x, Pow2(r + 1)), n)
  {
    Residue(v * v, n);
    hide Cong, Pow, Pow2;
    var p := Pow(x, Pow2(r));
    Mul(v, p, v, p, n);
    Squared(x, r);
    Trans(v * v % n, v * v, p * p, n);
  }

  lemma Squares8Is(v: int, x: int, r: nat, n: int)
    requires n > 0 && Cong(v, Pow(x, Pow2(r)), n)
    ensures Cong(Squares8(v, n), Pow(x, Pow2(r + 8)), n)
  {
    hide *;
    SquareIs(v, x, r, n);
    SquareIs(Square(v, n), x, r + 1, n);
    var w := Square(Square(v, n), n);
    SquareIs(w, x, r + 2, n);
    SquareIs(Square(w, n), x, r + 3, n);
    var y := Square(Square(w, n), n);
    SquareIs(y, x, r + 4, n);
    SquareIs(Square(y, n), x, r + 5, n);
    var z := Square(Square(y, n), n);
    SquareIs(z, x, r + 6, n);
    SquareIs(Square(z, n), x, r + 7, n);
    Squares8Are(v, n);
  }

  lemma Squares8Are(v: int, n: int)
    requires n > 0
    ensures Squares8(v, n) == (var w := Square(Square(v, n), n); var y := Square(Square(w, n), n); var z := Square(Square(y, n), n);
      Square(Square(z, n), n))
  {
    hide Square;
  }

  /** vs[i] is vs[0] after 8 * i squarings. */
  predicate Chain(vs: seq<int>, n: int)
    requires n > 0
  {
    |vs| == 8
    && Squares8(vs[0], n) == vs[1] && Squares8(vs[1], n) == vs[2] && Squares8(vs[2], n) == vs[3] && Squares8(vs[3], n) == vs[4]
    && Squares8(vs[4], n) == vs[5] && Squares8(vs[5], n) == vs[6] && Squares8(vs[6], n) == vs[7]
  }

  lemma ChainEnd(vs: seq<int>, x: int, n: int)
    requires n > 0 && Chain(vs, n) && Cong(vs[0], x, n)
    ensures Cong(vs[7], Pow(x, Pow2(56)), n)
  {
    assert Pow(x, Pow2(0)) == x * Pow(x, 0) == x;
    hide Squares8, Cong, Pow, Pow2;
    Squares8Is(vs[0], x, 0, n);
    Squares8Is(vs[1], x, 8, n);
    Squares8Is(vs[2], x, 16, n);
    Squares8Is(vs[3], x, 24, n);
    Squares8Is(vs[4], x, 32, n);
    Squares8Is(vs[5], x, 40, n);
    Squares8Is(vs[6], x, 48, n);
  }

  lemma Pow2Of57()
    ensures 32 * Pow2(57) == R && Pow2(57) == 0x200_0000_0000_0000
  {
    RadixPower();
    Pow2Add(57, 5);
    Pow2Add(4, 1);
    Pow2Four();
    Pow2Double(0);
    hide Pow2;
  }

  /** k * 2^57 + 1 is prime, by a chain of squarings from 3^k to -1. */
  lemma PrimeByChain(n: int, k: nat, vs: seq<int>)
    requires n == k * 0x200_0000_0000_0000 + 1 && 0 < k < 0x200_0000_0000_0000
    requires Chain(vs, n) && Cong(vs[0], Pow(3, k), n) && vs[7] == n - 1
    ensures Prime(n)
  {
    hide *;
    Pow2Of57();
    ChainEnd(vs, Pow(3, k), n);
    FromQuotient(-1, n - 1, n, -1);
    var x := Pow(Pow(3, k), Pow2(56));
    Sym(n - 1, x, n);
    Sym(-1, n - 1, n);
    Trans(x, n - 1, -1, n);
    Proth(n, k, 57, 3);
  }

  /** Eight squarings, each of them checked. */
  lemma Eight(v0: int, v1: int, v2: int, v3: int, v4: int, v5: int, v6: int, v7: int, v8: int, n: int)
    requires n > 0 && v0 * v0 % n == v1 && v1 * v1 % n == v2 && v2 * v2 % n == v3 && v3 * v3 % n == v4
    requires v4 * v4 % n == v5 && v5 * v5 % n == v6 && v6 * v6 % n == v7 && v7 * v7 % n == v8
    ensures Squares8(v0, n) == v8
  {
  }

  // ---------- a prime above 2^63 ----------

  /** 71 * 2^57 + 1. */
  const Large: int := 10232178353385766913

  const LargePowers: seq<int> := [3419711604162223203, 3209090088618873967, 2264287294995564878, 9653357625905687779,
    3125241394381190253, 1830715477503673905, 247071390720051732, 10232178353385766912]

  lemma LargePowersHolds()
    ensures Chain(LargePowers, 10232178353385766913)
  {
    hide Squares8;
    Eight(3419711604162223203, 10224429055575324879, 1238737454066236620, 7277678785696632467, 4770634438176929436,
          118053511521716624, 1249403552910088144, 9252493928049592805, 3209090088618873967, 10232178353385766913);
    Eight(3209090088618873967, 9047387537262589815, 9342801377154671745, 1044434170847175563, 9409083012344245203,
          3954600420198692005, 9942468976146460357, 8258471105705196545, 2264287294995564878, 10232178353385766913);
    Eight(2264287294995564878, 417344121794048493, 2055167760911471357, 5956560976471432791, 4695623521004806013,
          6066907575144805157, 770632315536471259, 8784688306033652810, 9653357625905687779, 10232178353385766913);
    Eight(9653357625905687779, 8060676602253617120, 6185301606627993595, 8709336225243669946, 1422723290929883757,
          2998961596506692444, 5390395560123052455, 4234264397922902880, 3125241394381190253, 10232178353385766913);
    Eight(3125241394381190253, 2433833504686826379, 2973185474863719664, 451910608515950261, 4000765498391795034,
          2032258706218957702, 2176364181876282535, 10037323330151006568, 1830715477503673905, 10232178353385766913);
    Eight(1830715477503673905, 3268423020546090004, 1863010417520406824, 1300350528201123425, 6294210007868428228,
          2026021098566630532, 995923474631273707, 7416560222164929764, 247071390720051732, 10232178353385766913);
    Eight(247071390720051732, 6534607279068270619, 10200708618284221221, 8568622935066023357, 2008881404560210166,
          5030854302624130630, 2772096347440647993, 9336970564456853289, 10232178353385766912, 10232178353385766913);
  }


  const LargeWords: seq<int> := [3602879701896397087, 1542830490845133725, 9179946744224695960, 9269078370895192453,
    10039098546611741866, 4836747992041833544, 5794064276214408280, 5494313996281793567]

  lemma LargeWordsHolds()
    ensures Chain(LargeWords, 10232178353385766913)
  {
    hide Squares8;
    Eight(3602879701896397087, 1325453772021686173, 5367547156698551010, 9745342683169620440, 6754924578943802120,
          7999701033215734739, 514840661237513639, 7504998425916073252, 1542830490845133725, 10232178353385766913);
    Eight(1542830490845133725, 6094475362692645909, 7787270609602035560, 2141025533299414383, 5679962688755470708,
          1766574951282030688, 5962678737064891229, 4151470340987626375, 9179946744224695960, 10232178353385766913);
    Eight(9179946744224695960, 5843703725135684651, 1184635020434862722, 7807682911983271792, 9263674684609126560,
          3992679601370391812, 8619582732040841536, 6862212778005864367, 9269078370895192453, 10232178353385766913);
    Eight(9269078370895192453, 1530753367315460845, 3707703912035242650, 1109808745540819116, 5556539187748700104,
          3340940683203121011, 3841508712058356510, 8603242378296568458, 10039098546611741866, 10232178353385766913);
    Eight(10039098546611741866, 7563319801448248305, 6341871148768371508, 2145009152079163132, 7549678568758597058,
          1506555478193517031, 4396544525319591435, 7301568974086737387, 4836747992041833544, 10232178353385766913);
    Eight(4836747992041833544, 5799576815706360109, 4617191530272902337, 9948803868791073449, 9185888101970218154,
          4218088383468268480, 1760036044684694251, 8195978041545758324, 5794064276214408280, 10232178353385766913);
    Eight(5794064276214408280, 3233837184011264497, 2104991032868864515, 2756262468801913811, 236626034684129623,
          3388200599112497390, 8708608938949308221, 3191774813927678215, 5494313996281793567, 10232178353385766913);
  }


  lemma PowersOfThree()
    ensures Pow(3, 8) == 6561 && Pow(3, 29) == 68630377364883 && Pow(3, 71) == 7509466514979724803946715958257547
  {
    assert Pow(3, 3) == 27 && Pow(3, 5) == 243 && Pow(3, 2) == 9;
    PowAdd(3, 3, 5);
    PowAdd(3, 8, 8);
    PowAdd(3, 16, 8);
    PowAdd(3, 24, 5);
    PowAdd(3, 29, 29);
    PowAdd(3, 58, 8);
    PowAdd(3, 66, 5);
    hide Pow;
  }

  lemma LargeIsPrime()
    ensures Prime(Large)
  {
    PowersOfThree();
    LargePowersHolds();
    LargeStart();
    hide Pow, Prime, Chain, Cong;
    PrimeByChain(Large, 71, LargePowers);
  }

  lemma LargeStart()
    ensures Cong(LargePowers[0], 7509466514979724803946715958257547, Large)
  {
  }

  lemma {:induction false} OddPartOf(d: nat, s: nat)
    requires d % 2 == 1
    ensures OddPart(d * Pow2(s)) == d && Twos(d * Pow2(s)) == s
  {
    if s > 0 {
      OddPartOf(d, s - 1);
      Pow2Double(s - 1);
      MoveTwo(d, Pow2(s - 1));
      AtLeast(d, Pow2(s - 1));
      hide Pow2, OddPart, Twos;
      Halved(d * Pow2(s));
    } else {
      assert d * Pow2(0) == d;
      Halved(d);
    }
  }

  lemma TwoToThe71()
    ensures Pow(2, 71) == 2361183241434822606848
  {
    RadixPower();
    Pow2Add(62, 9);
    Pow2Add(4, 4);
    Pow2Four();
    Pow2Double(8);
    Pow2IsPow(71);
    hide Pow2, Pow;
  }

  /** The base 2 refuses it: modulus_power works modulo 2^64 - n, and no square of its result is -1. */
  lemma LargeRefused()
    ensures TWO63 < Large < TWO64 && Prime(Large) && !WordsAccept(Large, 2)
  {
    LargeFirst();
    LargeWordsHolds();
    LargeLast();
    var n, x := Large, LargeWords[0];
    hide *;
    LargeIsPrime();
    Refl(x, n);
    ChainEnd(LargeWords, x, n);
    NoMinusOne(n, x, LargeWords[7], 57);
    WordsAre(n, 2);
  }

  lemma LargeFirst()
    ensures TWO63 < Large < TWO64 && FirstTestValue(Large, 2) == LargeWords[0] && Twos(Large - 1) == 57
  {
    TwoToThe71();
    Pow2Of57();
    OddPartOf(71, 57);
    hide Pow, OddPart, Twos;
    assert 71 * Pow2(57) == Large - 1;
    FirstDefinition(Large, 2, 2361183241434822606848);
  }

  lemma LargeLast()
    ensures Large > 2 && |LargeWords| == 8 && 0 <= LargeWords[7] < Large && LargeWords[7] != 1 && LargeWords[7] != Large - 1
  {
  }

  /** If the last square is neither 1 nor -1, none before it was. */
  lemma NoMinusOne(n: int, x: int, last: int, s: nat)
    requires n > 2 && s == 57 && Twos(n - 1) == s && Cong(last, Pow(x, Pow2(56)), n) && 0 <= last < n && last != 1 && last != n - 1
    ensures !ChainAccepts(n, x)
  {
    hide Pow, Pow2, Twos;
    MinusOneResidue(last, Pow(x, Pow2(56)), n);
    if Cong(x, 1, n) {
      PowCong(x, 1, Pow2(56), n);
      PowOne(Pow2(56));
    }
    forall r: nat ensures !MinusOneAt(n, x, r, s) {
      if MinusOneAt(n, x, r, s) && r < 56 {
        var p := Pow(x, Pow2(r));
        Mul(p, -1, p, -1, n);
        Squared(x, r);
        OneStays(n, x, r + 1, 56);
      }
    }
  }

  // ---------- a prime below 2^62 ----------

  /** 29 * 2^57 + 1. */
  const Small: int := 4179340454199820289

  const SmallPowers: seq<int> := [68630377364883, 2662803803144636507, 237290798922099402, 3266340371969367453,
    1983276754466596887, 2402182977918453148, 2471598670465504564, 4179340454199820288]

  lemma SmallPowersHolds()
    ensures Chain(SmallPowers, 4179340454199820289)
  {
    hide Squares8;
    Eight(68630377364883, 2297262907334733681, 2578974407270488565, 1135578895370918674, 3394594994770408472,
          2845780990511282638, 3980257483825340962, 2531000001358713945, 2662803803144636507, 4179340454199820289);
    Eight(2662803803144636507, 4115430179549132954, 3420419882482295079, 1909196053616447176, 1383592752755275064,
          3054193828455324388, 434486614159022416, 1274909484284039695, 237290798922099402, 4179340454199820289);
    Eight(237290798922099402, 1706369657516203946, 733598205103286191, 2049007426855423364, 1830331321490071742,
          677615243565997151, 2635820689445836900, 119867372130218851, 3266340371969367453, 4179340454199820289);
    Eight(3266340371969367453, 1285186287410745131, 2300171078155094491, 3075394932486639785, 515632490303272024,
          796245258878702573, 1646369876752167142, 166685504187832576, 1983276754466596887, 4179340454199820289);
    Eight(1983276754466596887, 3854271288527505563, 538489285068984638, 3659627752956453597, 361563756215063401,
          1394649864822396625, 2223874915386397902, 1071831321620451291, 2402182977918453148, 4179340454199820289);
    Eight(2402182977918453148, 1240788861817700094, 296682951752994131, 2187013510972560222, 2851580052554115727,
          3233568307201063014, 2122255410354045463, 3682837705344255159, 2471598670465504564, 4179340454199820289);
    Eight(2471598670465504564, 2589600750401167509, 3698753851283186381, 163657867345391920, 3652694528069969887,
          2371771477745282871, 3324705732702508476, 3360066027580426122, 4179340454199820288, 4179340454199820289);
  }


  lemma SmallIsPrime()
    ensures Prime(Small)
  {
    PowersOfThree();
    SmallPowersHolds();
    SmallStart();
    hide Pow, Prime, Chain, Cong;
    PrimeByChain(Small, 29, SmallPowers);
  }

  lemma SmallStart()
    ensures Cong(SmallPowers[0], 68630377364883, Small)
  {
  }

  /** Below 2^62 every symbol is exact; those of 5, -7 and 9 are not -1, that of -11 is. */
  lemma SmallSearch()
    ensures 3 < Small < R && Odd(Small) && Small < TWO64 && FirstStop(Small, 3) && Candidate(3) == -11
  {
    assert Odd(Small);
    assert Candidate(0) == 5 && Candidate(1) == -7 && Candidate(2) == 9 && Candidate(3) == -11;
    SmallSymbols();
    SmallSize();
    hide *;
    SmallSymbol(0);
    SmallSymbol(1);
    SmallSymbol(2);
    SmallSymbol(3);
    StopsAtThree(Small);
  }

  lemma SmallSize()
    ensures 3 < Small < R && Small < TWO64
  {
  }

  lemma StopsAtThree(n: int)
    requires 0 < n < TWO64 && WordSymbol(Candidate(3), n) == -1
    requires WordSymbol(Candidate(0), n) != -1 && WordSymbol(Candidate(1), n) != -1 && WordSymbol(Candidate(2), n) != -1
    ensures FirstStop(n, 3)
  {
    hide WordSymbol, Candidate;
    forall j: nat | j < 3 ensures !Stops(n, j) {
      assert j == 0 || j == 1 || j == 2;
    }
  }

  lemma SmallSymbol(i: nat)
    requires Odd(Small)
    ensures WordSymbol(Candidate(i), Small) == Symbol(Candidate(i), Small)
  {
    hide WordSymbol, Symbol, JacobiSymbol, Odd, Candidate;
    NoWrapBelow(Candidate(i), Small);
    WordSymbolExact(Candidate(i), Small);
    SymbolIsJacobi(Candidate(i), Small);
  }

  lemma SmallSymbols()
    ensures Symbol(5, Small) == 1 && Symbol(-7, Small) == 1 && Symbol(9, Small) != -1 && Symbol(-11, Small) == -1
  {
    assert Odd(Small) && Small % 4 == 1;
    hide Symbol;
    SmallIsPrime();
    MinusOneSymbol(Small);
    SymbolTimes(-1, 7, Small);
    SymbolTimes(-1, 11, Small);
    SymbolTimes(3, 3, Small);
    SquareSign(Symbol(3, Small));
    SmallTurned();
  }

  lemma SmallTurned()
    ensures Symbol(5, Small) == 1 && Symbol(7, Small) == 1 && Symbol(11, Small) == -1
  {
    hide Symbol;
    SymbolTwo(5);
    SymbolTimes(2, 2, 5);
    SmallTurns(5, 4);
    SymbolTwo(7);
    SmallTurns(7, 2);
    SymbolTwo(3);
    Turns(3, 11, 2);
    SymbolTwo(11);
    SymbolTimes(2, 3, 11);
    SmallTurns(11, 6);
  }

  lemma SmallTurns(p: int, r: int)
    requires Odd(p) && 0 <= r < p && Small % p == r
    ensures Symbol(p, Small) == Symbol(r, p)
  {
    assert Odd(Small) && (Small / 2) % 2 == 0;
    hide Symbol;
    Turns(p, Small, r);
  }

  lemma Turns(p: int, n: int, r: int)
    requires Odd(p) && Odd(n) && 0 <= r < p && n % p == r
    ensures Symbol(p, n) == (if (p / 2) % 2 == 1 && (n / 2) % 2 == 1 then -1 else 1) * Symbol(r, p)
  {
    Residue(n, p);
    hide Symbol;
    Reciprocity(p, n);
    SymbolResidue(n, r, p);
    HalfBits(p / 2, n / 2);
  }

  /** Modulo a prime that is 1 modulo 4, -1 is a square. */
  lemma MinusOneSymbol(n: int)
    requires Prime(n) && n % 4 == 1
    ensures Odd(n) && Symbol(-1, n) == 1
  {
    var h := n / 4;
    assert n / 2 == 2 * h && Odd(n) && n > 2;
    Refl(1, n);
    Invert(-1, -1, n);
    hide Symbol, Prime, Invertible, Cong;
    EulerCriterion(-1, n);
    SymbolSign(-1, n);
    PowMul(-1, 2, h);
    PowPositive(-1, 2);
    PowPositive(-1, 1);
    PowOne(h);
    NotMinusOne(n);
  }

  // ---------- the ladder on words ----------

  /** A round in plain arithmetic: `half` is the halved word, `wraps` how often it wrapped around. */
  predicate DoublesTo(a: State, b: State, half: int, wraps: int, n: int, bound: int)
    requires n > 0
  {
    var x := a.v * a.v - 11 * (a.u * a.u) - wraps * (2 * bound);
    && a.u >= 0 && a.v >= 0 && a.u * a.v < bound && a.u * a.v % n == b.u
    && -bound <= x && x + n < bound && (x == 2 * half || x + n == 2 * half) && half % n == b.v
  }

  predicate HalvesTo(x: int, y: int, half: int, n: int, bound: int)
    requires n > 0
  {
    -bound <= x && x + n < bound && (x == 2 * half || x + n == 2 * half) && half % n == y
  }

  lemma Modulo(x: int, n: int)
    requires n > 0
    ensures PositiveModulo(x, n) == x % n
  {
    Residue(x, n);
    hide *;
    var p := PositiveModulo(x, n);
    Trans(p, x, x % n, n);
    Unique(p, x % n, 0, n);
  }

  lemma HalfModulo(x: int, half: int, n: int)
    requires n > 2 && n % 2 == 1 && -TWO127 <= x && x + n < TWO127 && (x == 2 * half || x + n == 2 * half)
    ensures ModulusHalf(x, n) == half % n
  {
    Residue(half, n);
    hide *;
    FromQuotient(2 * half, x, n, if x == 2 * half then 0 else 1);
    var h := ModulusHalf(x, n);
    Sym(2 * half, x, n);
    Trans(2 * h, x, 2 * half, n);
    CancelTwo(h, half, n);
    Trans(h, half, half % n, n);
    Unique(h, half % n, 0, n);
  }

  lemma Wrapped(x: int, y: int, wraps: int)
    requires x == y + wraps * (2 * TWO127) && -TWO127 <= y < TWO127
    ensures Int128(x) == y
  {
    DivModUnique(x + TWO127, wraps, y + TWO127, 2 * TWO127);
  }

  lemma Doubles(a: State, b: State, half: int, wraps: int)
    requires DoublesTo(a, b, half, wraps, Small, TWO127)
    ensures Doubled(a, -11, Small) == b
  {
    var x := a.v * a.v - 11 * (a.u * a.u);
    var y := x - wraps * (2 * TWO127);
    SmallOdd();
    NatProduct(a.u, a.v);
    Modulo(a.u * a.v, Small);
    Wrapped(x, y, wraps);
    HalfModulo(y, half, Small);
    Eleven(a.u, a.v);
    hide PositiveModulo, ModulusHalf, Int128;
  }

  lemma Eleven(u: int, v: int)
    ensures v * v + -11 * u * u == v * v - 11 * (u * u)
  {
  }

  lemma Increments(a: State, b: State, uHalf: int, vHalf: int)
    requires HalvesTo(a.u + a.v, b.u, uHalf, Small, TWO127) && HalvesTo(-11 * a.u + a.v, b.v, vHalf, Small, TWO127)
    ensures Incremented(a, -11, Small) == b
  {
    SmallOdd();
    HalfModulo(a.u + a.v, uHalf, Small);
    HalfModulo(-11 * a.u + a.v, vHalf, Small);
    hide ModulusHalf;
  }

  /** An even bit of n + 1. */
  lemma Double(j: nat, a: State, b: State, half: int, wraps: int)
    requires j >= 1 && WordsAt(-11, Small, j) == a
    requires DoublesTo(a, b, half, wraps, 4179340454199820289, 0x8000_0000_0000_0000_0000_0000_0000_0000)
    ensures WordsAt(-11, Small, 2 * j) == b
  {
    SmallOdd();
    hide Doubled, DoublesTo;
    Doubles(a, b, half, wraps);
    EvenWords(j);
  }

  /** The increment of an odd bit, after its doubling. */
  lemma Increment(j: nat, a: State, b: State, uHalf: int, vHalf: int)
    requires j >= 2 && j % 2 == 0 && WordsAt(-11, Small, j) == a
    requires HalvesTo(a.u + a.v, b.u, uHalf, 4179340454199820289, 0x8000_0000_0000_0000_0000_0000_0000_0000)
    requires HalvesTo(-11 * a.u + a.v, b.v, vHalf, 4179340454199820289, 0x8000_0000_0000_0000_0000_0000_0000_0000)
    ensures WordsAt(-11, Small, j + 1) == b
  {
    SmallOdd();
    hide Doubled, HalvesTo, Incremented;
    Increments(a, b, uHalf, vHalf);
    hide WordsAt;
    OddWords(j / 2);
    EvenWords(j / 2);
  }

  lemma SmallOdd()
    ensures Small > 2 && Small % 2 == 1
  {
  }

  lemma EvenWords(j: nat)
    requires j >= 1
    ensures WordsAt(-11, Small, 2 * j) == Doubled(WordsAt(-11, Small, j), -11, Small)
  {
    WordsStep(-11, Small, 2 * j);
    assert (2 * j) / 2 == j && (2 * j) % 2 == 0;
  }

  lemma OddWords(j: nat)
    requires j >= 1
    ensures WordsAt(-11, Small, 2 * j + 1) == Incremented(Doubled(WordsAt(-11, Small, j), -11, Small), -11, Small)
  {
    WordsStep(-11, Small, 2 * j + 1);
    assert (2 * j + 1) / 2 == j && (2 * j + 1) % 2 == 1;
  }

  /** The first five bits of n + 1 = 29 * 2^57 + 2, and then the zeros. */
  lemma FirstRounds()
    ensures WordsAt(-11, Small, 29) == State(1837412334629238145, 854483996578181694)
  {
    hide WordsAt, Doubled, Incremented;
    LadderStart(-11, Small);
    Double(1, State(1, 1), State(1, 4179340454199820284), -5, 0);
    Increment(2, State(1, 4179340454199820284), State(4179340454199820287, 4179340454199820281), 4179340454199820287, 4179340454199820281);
    Double(3, State(4179340454199820287, 4179340454199820281), State(16, 939233467115060703), 82806750299913431036521717275201372179, -1);
    Increment(6, State(16, 939233467115060703), State(2559286960657440504, 2559286960657440408), 2559286960657440504, 2559286960657440408);
    Double(7, State(2559286960657440504, 2559286960657440408), State(756615078190366773, 1554156057098822745), -32749748734955997336482966704613153856, 0);
    Double(14, State(756615078190366773, 1554156057098822745), State(860378132041812790, 2814446537216663500), -1940864546089101948805354096978716897, 0);
    Increment(28, State(860378132041812790, 2814446537216663500), State(1837412334629238145, 854483996578181694), 1837412334629238145, -3324856457621638595);
  }

  lemma Zeros1()
    ensures WordsAt(-11, Small, 59392) == State(2559220685229467924, 2006022920737018172)
  {
    hide WordsAt, Doubled, Incremented;
    FirstRounds();
    Double(29, State(1837412334629238145, 854483996578181694), State(1905029546552675188, 3298058927647349752), -18203391030758059760726771780438460675, 0);
    Double(58, State(1905029546552675188, 3298058927647349752), State(2961210698218884937, 3088933721220971474), -14521660307695608533787758422162363640, 0);
    Double(116, State(2961210698218884937, 3088933721220971474), State(3171080608191536286, 164720416133209082), -43457472628804849050061765494789440347, 0);
    Double(232, State(3171080608191536286, 164720416133209082), State(3439832501645307704, 4037214628868850322), -55293070822320671393683244144937064516, 0);
    Double(464, State(3439832501645307704, 4037214628868850322), State(3326574733686131014, 1174480966989500793), -56928911036788462632905725267609882046, 0);
    Double(928, State(3326574733686131014, 1174480966989500793), State(118023956031338009, 4097459164267285720), -60173844252483947705990396433275950509, 0);
    Double(1856, State(118023956031338009, 4097459164267285720), State(3485832759964640354, 3671621324203457566), 8317972703333902131191548101713406899, 0);
    Double(3712, State(3485832759964640354, 3671621324203457566), State(836505739699956356, 308427301920114871), -60090263593262085237634609240527527060, 0);
    Double(7424, State(836505739699956356, 308427301920114871), State(3469298517174745103, 1890977375589074145), -3801016488745480416187992789658809583, 0);
    Double(14848, State(3469298517174745103, 1890977375589074145), State(2802978318390195175, 2214679464327521444), -64410279389494997090202008392469902837, 0);
    Double(29696, State(2802978318390195175, 2214679464327521444), State(2559220685229467924, 2006022920737018172), -40759378428653376285093028269023210725, 0);
  }

  lemma Zeros2()
    ensures WordsAt(-11, Small, 121634816) == State(2333955471592523859, 953564915294707044)
  {
    hide WordsAt, Doubled, Incremented;
    Zeros1();
    Double(59392, State(2559220685229467924, 2006022920737018172), State(1877412814392330516, 3120986732185294560), -34010793857123991826122392611867672976, 0);
    Double(118784, State(1877412814392330516, 3120986732185294560), State(791152475315545156, 2603575424459509703), -14515454724806600222235585092833747608, 0);
    Double(237568, State(791152475315545156, 2603575424459509703), State(916485886348996313, 374086044808550703), -53269820163770520612316317437369599, 0);
    Double(475136, State(916485886348996313, 374086044808550703), State(4018163895425919866, 3589060039579228054), -4549734904862727122920246792020869725, 0);
    Double(950272, State(4018163895425919866, 3589060039579228054), State(2008159238462357427, 2937670247862428900), -82360350013921989720719674622123705300, 0);
    Double(1900544, State(2008159238462357427, 2937670247862428900), State(2498822272172218722, 3827734817217679971), -17864916156031382037698825701783816665, 0);
    Double(3801088, State(2498822272172218722, 3827734817217679971), State(2283929080734480008, 1745396427431041408), -27016843198001381721668253490153032497, 0);
    Double(7602176, State(2283929080734480008, 1745396427431041408), State(688373985260648827, 332119085326605199), -27166621907591036643410046328128929120, 0);
    Double(15204352, State(688373985260648827, 332119085326605199), State(663631262632753207, 2377822323216258876), -2551071546290863394475421112583702809, 0);
    Double(30408704, State(663631262632753207, 2377822323216258876), State(3115316064410122692, 3931009228488069633), 404784010303300903055142136495985163, 0);
    Double(60817408, State(3115316064410122692, 3931009228488069633), State(2333955471592523859, 953564915294707044), -45652151219215582220070521057285010263, 0);
  }

  lemma Zeros3()
    ensures WordsAt(-11, Small, 249108103168) == State(293803974621302715, 148542202525831208)
  {
    hide WordsAt, Doubled, Incremented;
    Zeros2();
    Double(121634816, State(2333955471592523859, 953564915294707044), State(2326990905280331215, 2235918630930252452), -29505771764731241541958015750171866233, 0);
    Double(243269632, State(2326990905280331215, 2235918630930252452), State(2703862418987805184, 1904294586613501296), -27282210640845057461998480271242652941, 0);
    Double(486539264, State(2703862418987805184, 1904294586613501296), State(1881014088326709569, 456093132858118752), -38396626958177476539256623604358166400, 0);
    Double(973078528, State(1881014088326709569, 456093132858118752), State(2808026194051108194, 1942713681573639147), -19356166529739426130609088688251982789, 0);
    Double(1946157056, State(2808026194051108194, 1942713681573639147), State(4109646175368709533, 650549140973951600), -41480492861337634118706464987631325049, 0);
    Double(3892314112, State(4109646175368709533, 650549140973951600), State(1284885194066333937, 1601759401925066275), 77462236275905563530010832819067366383, -1);
    Double(7784628224, State(1284885194066333937, 1601759401925066275), State(3168863514845570162, 938830706628989029), -7797298199792170423188342528017372017, 0);
    Double(15569256448, State(3168863514845570162, 938830706628989029), State(1386760540265775927, 4029121095993392685), -54788626318602072431260192591354792777, 0);
    Double(31138512896, State(1386760540265775927, 4029121095993392685), State(2150847592992913050, 2332347304074575247), -2460167975120748113143624430244146697, 0);
    Double(62277025792, State(2150847592992913050, 2332347304074575247), State(778493975653464515, 417792566344521980), -22723877552146773040280916337899198101, 0);
    Double(124554051584, State(778493975653464515, 417792566344521980), State(293803974621302715, 148542202525831208), -3246015471461682603473737068551548393, 0);
  }

  lemma Zeros4()
    ensures WordsAt(-11, Small, 510173395288064) == State(2502604829798996946, 1721449463186463734)
  {
    hide WordsAt, Doubled, Incremented;
    Zeros3();
    Double(249108103168, State(293803974621302715, 148542202525831208), State(1175664553304965855, 1053124363809387414), -463731872302400464342417887411761961, 0);
    Double(498216206336, State(1175664553304965855, 1053124363809387414), State(3928213826371284182, 1896898582094777245), -7047493817613243459892547412866631795, 0);
    Double(996432412672, State(3928213826371284182, 1896898582094777245), State(2973831608066766762, 3717208779920509611), -83070639145943302561200161162733945025, 0);
    Double(1992864825344, State(2973831608066766762, 3717208779920509611), State(2734238805769621599, 1789352481209790874), -41731388825494283501041649990722209737, 0);
    Double(3985729650688, State(2734238805769621599, 1789352481209790874), State(4046527966131073369, 2651399239731476726), -39517449007364858289934452149553490323, 0);
    Double(7971459301376, State(4046527966131073369, 2651399239731476726), State(3569766233443677154, 925478231601811449), 83597005230948711185292911308988299525, -1);
    Double(15942918602752, State(3569766233443677154, 925478231601811449), State(2335022965311877560, 4135096791919602100), -69659515309306209462325996039224818493, 0);
    Double(31885837205504, State(2335022965311877560, 4135096791919602100), State(1886924683518671737, 747232466456291903), -21438314627664413117955096157211339800, 0);
    Double(63771674411008, State(1886924683518671737, 747232466456291903), State(3905786697693919834, 883448699539349800), -19303488007533040521098616171822603725, 0);
    Double(127543348822016, State(3905786697693919834, 883448699539349800), State(3545230152035385421, 721145373651735), -83513192700996381193025158022722211558, 0);
    Double(255086697644032, State(3545230152035385421, 721145373651735), State(2502604829798996946, 1721449463186463734), -69127612309929306178531196231572154713, 0);
  }

  lemma Zeros5()
    ensures WordsAt(-11, Small, 1044835113549955072) == State(2668095484334465146, 1074181508841230522)
  {
    hide WordsAt, Doubled, Incremented;
    Zeros4();
    Double(510173395288064, State(2502604829798996946, 1721449463186463734), State(3826143225432718762, 224864530981451475), -32964976010580483519304894028396686660, 0);
    Double(1020346790576128, State(3826143225432718762, 224864530981451475), State(1950603609181510125, 2059594478524857476), -80491263869739032916438436872437721585, 0);
    Double(2040693581152256, State(1950603609181510125, 2059594478524857476), State(3097988070306533686, 2584158667642607780), -18805734712850594395992629524969880505, 0);
    Double(4081387162304512, State(3097988070306533686, 2584158667642607780), State(418707686152910722, 3389777616388812965), -49447477450912592766734080534131842078, 0);
    Double(8162774324609024, State(418707686152910722, 3389777616388812965), State(246622108622908397, 3408205191988558792), 4781057448845927097298947927011868695, 0);
    Double(16325548649218048, State(246622108622908397, 3408205191988558792), State(4148985200132389191, 3632045640295863224), 5473407760810031493897852314928056927, 0);
    Double(32651097298436096, State(4148985200132389191, 3632045640295863224), State(3573300494324863149, 3559212890899338135), 82059631177018516531401181688226863315, -1);
    Double(65302194596872192, State(3573300494324863149, 3559212890899338135), State(3749334815924696941, 285309814316367527), -63892622123710700424460535336147439993, 0);
    Double(130604389193744384, State(3749334815924696941, 285309814316367527), State(2270106062990377075, 3795525688090942969), -77275612745405325960237110260751118281, 0);
    Double(261208778387488768, State(2270106062990377075, 3795525688090942969), State(3359632303994542663, 1148305332819566472), -21140590830262071118264649294965288457, 0);
    Double(522417556774977536, State(3359632303994542663, 1148305332819566472), State(2668095484334465146, 1074181508841230522), -61419908130549307521379461343786050093, 0);
  }

  /** The last two bits: the ladder does not end in 0. */
  lemma LastRounds()
    ensures WordsAt(-11, Small, Small + 1) == State(822332703588035711, 2701519990718683045)
  {
    hide WordsAt, Doubled, Incremented;
    Zeros5();
    Double(1044835113549955072, State(2668095484334465146, 1074181508841230522), State(3738614015863354425, 1633308765296809952), -38576101367424591507141853868816210996, 0);
    Increment(2089670227099910144, State(3738614015863354425, 1633308765296809952), State(596291163480172044, 3240649793498967228), 4775631617679992333, -17656052477500134217);
    Double(2089670227099910145, State(596291163480172044, 3240649793498967228), State(822332703588035711, 2701519990718683045), 3295308208007494525863040504193743344, 0);
  }

  /** Every base accepts this prime, the search stops at -11, and the ladder's words refuse it. */
  lemma SmallRefused()
    ensures Small < R && Prime(Small) && PrimeTest.WordsPassBases(Small) && FirstStop(Small, 3) && Candidate(3) == -11
    ensures forall index: nat :: FirstStop(Small, index) ==> WordsAt(Candidate(index), Small, Small + 1).u != 0
    ensures !Fits(-11, Small)
  {
    SmallSearch();
    SmallIsPrime();
    LastRounds();
    assert Small > 100;
    hide WordsAt, Stops, Candidate, Prime, Primality.StrongProbablePrime;
    forall i | 0 <= i < |PrimeTest.BasePrimes| ensures PrimeTest.Passes(Small, PrimeTest.BasePrimes[i]) {
      PrimeTest.BaseBounds(i);
      Primality.PrimePasses(Small, PrimeTest.BasePrimes[i]);
    }
    PrimeTest.WordsPassExact(Small);
    forall index: nat | FirstStop(Small, index) ensures index == 3 { OneFirstStop(Small, index, 3); }
  }

  lemma OneFirstStop(n: int, i: nat, j: nat)
    requires 0 < n < TWO64 && FirstStop(n, i) && FirstStop(n, j)
    ensures i == j
  {
    hide Stops;
  }

  // ---------- a square that needs the second base ----------

  lemma PowerTwice(a: int, k: nat, v: int, w: int, n: int)
    requires n > 0 && Cong(v, Pow(a, k), n) && w == v * v % n
    ensures Cong(w, Pow(a, 2 * k), n)
  {
    Residue(v * v, n);
    hide *;
    PowAdd(a, k, k);
    Mul(v, Pow(a, k), v, Pow(a, k), n);
    Trans(w, v * v, Pow(a, 2 * k), n);
  }

  lemma PowerTwiceMore(a: int, k: nat, v: int, w: int, n: int)
    requires n > 0 && Cong(v, Pow(a, k), n) && w == v * v * a % n
    ensures Cong(w, Pow(a, 2 * k + 1), n)
  {
    Residue(v * v * a, n);
    hide *;
    PowAdd(a, k, k);
    PowPositive(a, 2 * k + 1);
    TimesCommute(a, Pow(a, 2 * k));
    Mul(v, Pow(a, k), v, Pow(a, k), n);
    MulRight(v * v, Pow(a, 2 * k), a, n);
    Trans(w, v * v * a, Pow(a, 2 * k + 1), n);
  }

  /** The squarings and products of binary exponentiation, for the odd part of 1194648. */
  predicate Exponentiation(v: seq<int>, a: int, n: int)
    requires n > 0
  {
    && |v| == 19 && v[0] == 1
    && v[0] * v[0] * a % n == v[1] && v[1] * v[1] % n == v[2] && v[2] * v[2] % n == v[3] && v[3] * v[3] * a % n == v[4]
    && v[4] * v[4] % n == v[5] && v[5] * v[5] % n == v[6] && v[6] * v[6] % n == v[7] && v[7] * v[7] * a % n == v[8]
    && v[8] * v[8] * a % n == v[9] && v[9] * v[9] * a % n == v[10] && v[10] * v[10] % n == v[11] && v[11] * v[11] * a % n == v[12]
    && v[12] * v[12] % n == v[13] && v[13] * v[13] * a % n == v[14] && v[14] * v[14] % n == v[15] && v[15] * v[15] % n == v[16]
    && v[16] * v[16] * a % n == v[17] && v[17] * v[17] * a % n == v[18]
  }

  lemma ToOddPart(v: seq<int>, a: int, n: int, d: nat)
    requires n > 0 && Exponentiation(v, a, n) && d == 149331
    ensures Cong(v[18], Pow(a, d), n)
  {
    PowerZero(a, n);
    hide Pow, Cong;
    var k0 := 0;
    PowerTwiceMore(a, k0, v[0], v[1], n);
    var k1 := 2 * k0 + 1;
    PowerTwice(a, k1, v[1], v[2], n);
    var k2 := 2 * k1;
    PowerTwice(a, k2, v[2], v[3], n);
    var k3 := 2 * k2;
    PowerTwiceMore(a, k3, v[3], v[4], n);
    var k4 := 2 * k3 + 1;
    PowerTwice(a, k4, v[4], v[5], n);
    var k5 := 2 * k4;
    PowerTwice(a, k5, v[5], v[6], n);
    var k6 := 2 * k5;
    PowerTwice(a, k6, v[6], v[7], n);
    var k7 := 2 * k6;
    PowerTwiceMore(a, k7, v[7], v[8], n);
    var k8 := 2 * k7 + 1;
    PowerTwiceMore(a, k8, v[8], v[9], n);
    var k9 := 2 * k8 + 1;
    PowerTwiceMore(a, k9, v[9], v[10], n);
    var k10 := 2 * k9 + 1;
    PowerTwice(a, k10, v[10], v[11], n);
    var k11 := 2 * k10;
    PowerTwiceMore(a, k11, v[11], v[12], n);
    var k12 := 2 * k11 + 1;
    PowerTwice(a, k12, v[12], v[13], n);
    var k13 := 2 * k12;
    PowerTwiceMore(a, k13, v[13], v[14], n);
    var k14 := 2 * k13 + 1;
    PowerTwice(a, k14, v[14], v[15], n);
    var k15 := 2 * k14;
    PowerTwice(a, k15, v[15], v[16], n);
    var k16 := 2 * k15;
    PowerTwiceMore(a, k16, v[16], v[17], n);
    var k17 := 2 * k16 + 1;
    PowerTwiceMore(a, k17, v[17], v[18], n);
    var k18 := 2 * k17 + 1;
    assert k18 == d;
  }

  const TwoPowers: seq<int> := [1, 2, 4, 16, 512, 262144, 876958, 40014, 581072, 849979,
    635382, 160056, 934609, 84253, 1121951, 1066677, 584292, 1009121, 823592]

  lemma TwoToOddPart(d: nat)
    requires d == 149331
    ensures Cong(823592, Pow(2, d), 1194649)
  {
    TwoPowersHold();
    hide *;
    ToOddPart(TwoPowers, 2, 1194649, d);
  }

  lemma TwoPowersHold()
    ensures Exponentiation(TwoPowers, 2, 1194649) && TwoPowers[18] == 823592
  {
    hide Pow, Cong;
  }

  const ThreePowers: seq<int> := [1, 3, 9, 81, 19683, 354213, 32793, 196749, 1067011, 91893,
    438302, 721461, 578206, 850435, 1137822, 171682, 328996, 1143305, 42628]

  lemma ThreeToOddPart(d: nat)
    requires d == 149331
    ensures Cong(42628, Pow(3, d), 1194649)
  {
    ThreePowersHold();
    hide *;
    ToOddPart(ThreePowers, 3, 1194649, d);
  }

  lemma ThreePowersHold()
    ensures Exponentiation(ThreePowers, 3, 1194649) && ThreePowers[18] == 42628
  {
    hide Pow, Cong;
  }

  lemma ChainOfThree(x: int, n: int)
    requires n > 0
    ensures Pow(x, Pow2(0)) == x && Pow(x, Pow2(1)) == x * x && Pow(x, Pow2(2)) == (x * x) * (x * x) && Pow2(3) == 8
  {
    Pow2Double(0);
    Pow2Double(1);
    Pow2Double(2);
    PowAdd(x, 1, 1);
    PowAdd(x, 2, 2);
    assert Pow(x, 1) == x * Pow(x, 0);
  }

  /** 1093^2 is a strong probable prime to base 2 and not to base 3. The search for D never ends on it, so
      it is the second base that lets is_prime return. */
  lemma SecondBaseNeeded()
    ensures 1194649 == 1093 * 1093 && StrongProbablePrime(1194649, 2) && !StrongProbablePrime(1194649, 3)
    ensures !PrimeTest.WordsPassBases(1194649) && !SearchEnds(1194649)
  {
    hide *;
    SquareOf1093();
    SecondBase(149331);
    ThreeInList(1194649);
  }

  lemma SecondBase(d: nat)
    requires d == 149331
    ensures StrongProbablePrime(1194649, 2) && !StrongProbablePrime(1194649, 3)
  {
    hide *;
    TwoToOddPart(d);
    ThreeToOddPart(d);
    OddPartOf1194648();
    TwoAccepts(Pow(2, d));
    ThreeRefuses(Pow(3, d));
    StrongIs(1194649, 2, d);
    StrongIs(1194649, 3, d);
  }

  lemma SquareOf1093()
    ensures 1194649 == 1093 * 1093 && !SearchEnds(1194649) && 1194649 < TWO64
  {
    hide SearchEnds;
    IsSquareOf(1093);
    SquareNeverEnds(1194649);
  }

  lemma IsSquareOf(r: nat)
    ensures IsSquare(r * r)
  {
  }

  lemma OddPartOf1194648()
    ensures OddPart(1194648) == 149331 && Twos(1194648) == 3
  {
    ChainOfThree(1, 1);
    hide *;
    OddPartUnique(1194648, 149331, 3);
  }

  lemma StrongIs(n: int, a: int, d: nat)
    requires n > 1 && OddPart(n - 1) == d
    ensures StrongProbablePrime(n, a) <==> ChainAccepts(n, Pow(a, d))
  {
    hide ChainAccepts, Pow, OddPart;
  }

  lemma TwoAccepts(x: int)
    requires Cong(823592, x, 1194649) && Twos(1194648) == 3
    ensures ChainAccepts(1194649, x)
  {
    ChainOfThree(823592, 1);
    assert Pow(823592, Pow2(1)) % 1194649 == 1194648 by { hide *; assert 823592 * 823592 % 1194649 == 1194648; }
    hide *;
    ChainWritten(1194649, 823592, 3);
    ChainSame(1194649, 823592, x);
  }

  lemma ThreeRefuses(x: int)
    requires Cong(42628, x, 1194649) && Twos(1194648) == 3
    ensures !ChainAccepts(1194649, x)
  {
    ChainOfThree(42628, 1);
    hide *;
    assert 42628 * 42628 % 1194649 == 85255;
    assert (42628 * 42628) * (42628 * 42628) % 1194649 == 170509;
    forall r: nat | r < 3 ensures Pow(42628, Pow2(r)) % 1194649 != 1194648 {
      assert r == 0 || r == 1 || r == 2;
    }
    ChainWritten(1194649, 42628, 3);
    Sym(42628, x, 1194649);
    if ChainAccepts(1194649, x) { ChainSame(1194649, x, 42628); }
  }

  lemma ThreeInList(n: int)
    requires 1 < n < TWO64 && n < 0x10_0000_0000 && !StrongProbablePrime(n, 3)
    ensures !PrimeTest.WordsPassBases(n)
  {
    hide StrongProbablePrime, WordsAccept;
    WordsExact(n, 3);
    assert PrimeTest.BasePrimes[1] == 3 && !PrimeTest.WordsPass(n, PrimeTest.BasePrimes[1]);
  }
}
