/**
 * The generator visits every good seed from every good seed. The multiplier has order
 * M - 1 modulo M: its power M - 1 is 1, and its power (M - 1) / q is not 1 for any prime
 * factor q of M - 1.
 */
module RandomCycle {
  import opened Random

  /** The seed after k calls of Next. */
  function After(s: nat, k: nat): nat {
    if k == 0 then s else NextSeed(After(s, k - 1))
  }

  /** The powers of the multiplier are the seeds that follow 1. */
  function Power(k: nat): nat {
    After(1, k)
  }

  lemma {:induction false} AfterIsProduct(s: nat, k: nat)
    requires s < M
    ensures After(s, k) == s * Power(k) % M
  {
    if k > 0 {
      AfterIsProduct(s, k - 1);
      var p := Power(k - 1);
      ModMul(s * p, A);
      ModMul(p * A, s);
      Rearrange(s, p, A);
      Commute(s, p * A % M);
    }
  }

  lemma Rearrange(x: nat, y: nat, z: nat)
    ensures x * y * z == y * z * x
  {
  }

  lemma Commute(x: nat, y: nat)
    ensures x * y == y * x
  {
  }

  lemma {:induction false} AfterAdd(s: nat, a: nat, b: nat)
    ensures After(s, a + b) == After(After(s, a), b)
  {
    if b > 0 {
      AfterAdd(s, a, b - 1);
    }
  }

  lemma {:induction false} AfterGood(s: nat, k: nat)
    requires GoodSeed(s)
    ensures GoodSeed(After(s, k))
  {
    if k > 0 {
      AfterGood(s, k - 1);
      NextIsPermutation(After(s, k - 1), 1);
    }
  }

  /** Going back k steps from equal seeds. */
  lemma {:induction false} AfterInjective(s: nat, t: nat, k: nat)
    requires GoodSeed(s) && GoodSeed(t) && After(s, k) == After(t, k)
    ensures s == t
  {
    if k > 0 {
      AfterGood(s, k - 1);
      AfterGood(t, k - 1);
      NextIsPermutation(After(s, k - 1), After(t, k - 1));
      AfterInjective(s, t, k - 1);
    }
  }

  /** A product of known powers, reduced with the quotient c. */
  lemma Times(a: nat, x: nat, b: nat, y: nat, c: nat, z: nat)
    requires Power(a) == x && Power(b) == y && x < 2147483647
    requires x * y == c * 2147483647 + z && z < 2147483647
    ensures Power(a + b) == z
  {
    hide After;
    AfterAdd(1, a, b);
    AfterIsProduct(x, b);
    ModAddMultiple(z, c);
    assert Power(a + b) == x * y % M == z % M;
  }

  // ----- the powers of the multiplier at (M - 1) / q, by repeated squaring -----

  lemma PowersFrom3()
    requires Power(1) == 16807
    ensures Power(30783) == 24102045 && Power(209286) == 2046615961
  {
    hide Power;
    Times(1, 16807, 1, 16807, 0, 282475249);
    Times(2, 282475249, 1, 16807, 2210, 1622650073);
    Times(3, 1622650073, 3, 1622650073, 1226083031, 470211272);
    Times(6, 470211272, 6, 470211272, 102957077, 1115438165);
    Times(12, 1115438165, 3, 1622650073, 842831014, 114807987);
    Times(15, 114807987, 15, 114807987, 6137822, 1505795335);
    Times(30, 1505795335, 30, 1505795335, 1055849526, 130060903);
    Times(60, 130060903, 60, 130060903, 7877051, 280090412);
    Times(120, 280090412, 120, 280090412, 36531425, 1105222769);
    Times(240, 1105222769, 240, 1105222769, 568813350, 1795739911);
    Times(480, 1795739911, 480, 1795739911, 1501609491, 1855794244);
    Times(960, 1855794244, 960, 1855794244, 1603724564, 581326628);
    Times(1920, 581326628, 3, 1622650073, 439253494, 108431226);
    Times(1923, 108431226, 1923, 108431226, 5474933, 1685942425);
    Times(3846, 1685942425, 3846, 1685942425, 1323596509, 2111092302);
    Times(7692, 2111092302, 3, 1622650073, 1595152579, 77662433);
    Times(7695, 77662433, 7695, 77662433, 2808614, 863744231);
    Times(15390, 863744231, 15390, 863744231, 347408511, 384661744);
    Times(30780, 384661744, 3, 1622650073, 290652461, 24102045);
    Times(12, 1115438165, 12, 1115438165, 579376844, 1998097157);
    Times(24, 1998097157, 24, 1998097157, 1859102514, 1899894091);
    Times(48, 1899894091, 3, 1622650073, 1435570086, 1646035001);
    Times(51, 1646035001, 51, 1646035001, 1261677232, 1004844897);
    Times(102, 1004844897, 102, 1004844897, 470184379, 2049590396);
    Times(204, 2049590396, 204, 2049590396, 1956159618, 798669970);
    Times(408, 798669970, 408, 798669970, 297033098, 407052494);
    Times(816, 407052494, 816, 407052494, 77156225, 1419867461);
    Times(1632, 1419867461, 3, 1622650073, 1072859410, 736906383);
    Times(1635, 736906383, 1635, 736906383, 252868522, 1470082955);
    Times(3270, 1470082955, 3270, 1470082955, 1006361048, 1023749969);
    Times(6540, 1023749969, 6540, 1023749969, 488042831, 419416304);
    Times(13080, 419416304, 13080, 419416304, 81914493, 1891224445);
    Times(26160, 1891224445, 26160, 1891224445, 1665544650, 2142219475);
    Times(52320, 2142219475, 52320, 2142219475, 2136968207, 377864696);
    Times(104640, 377864696, 3, 1622650073, 285516575, 788573783);
    Times(104643, 788573783, 104643, 788573783, 289570824, 2046615961);
  }

  lemma PowersFrom209286()
    requires Power(209286) == 2046615961
    ensures Power(6487866) == 759513457 && Power(69273666) == 16384
  {
    hide Power;
    Times(209286, 2046615961, 209286, 2046615961, 1950486048, 38296465);
    Times(418572, 38296465, 209286, 2046615961, 36497673, 597824434);
    Times(627858, 597824434, 627858, 597824434, 166424575, 615995331);
    Times(1255716, 615995331, 209286, 2046615961, 587061921, 1202172204);
    Times(1465002, 1202172204, 1465002, 1202172204, 672982078, 841139150);
    Times(2930004, 841139150, 209286, 2046615961, 801630695, 1366228485);
    Times(3139290, 1366228485, 3139290, 1366228485, 869194173, 640206294);
    Times(6278580, 640206294, 209286, 2046615961, 610135691, 759513457);
    Times(418572, 38296465, 418572, 38296465, 682947, 1717228516);
    Times(837144, 1717228516, 209286, 2046615961, 1636569989, 981473993);
    Times(1046430, 981473993, 1046430, 981473993, 448567419, 2055866956);
    Times(2092860, 2055866956, 2092860, 2055866956, 1968158847, 2141830927);
    Times(4185720, 2141830927, 4185720, 2141830927, 2136193086, 834214687);
    Times(8371440, 834214687, 209286, 2046615961, 795031475, 1902029882);
    Times(8580726, 1902029882, 8580726, 1902029882, 1684631069, 115305281);
    Times(17161452, 115305281, 17161452, 115305281, 6191110, 344710791);
    Times(34322904, 344710791, 209286, 2046615961, 328519664, 631600543);
    Times(34532190, 631600543, 34532190, 631600543, 185761249, 1444099746);
    Times(69064380, 1444099746, 209286, 2046615961, 1376270126, 16384);
  }

  lemma PowersFrom30783()
    requires Power(30783) == 24102045
    ensures Power(2031678) == 392323019 && Power(32537631) == 1343336283
  {
    hide Power;
    Times(30783, 24102045, 30783, 24102045, 270506, 1361766643);
    Times(61566, 1361766643, 61566, 1361766643, 863526198, 1026405343);
    Times(123132, 1026405343, 123132, 1026405343, 490577858, 503659523);
    Times(246264, 503659523, 246264, 503659523, 118125656, 557440097);
    Times(492528, 557440097, 492528, 557440097, 144699337, 1804127370);
    Times(985056, 1804127370, 30783, 24102045, 20248423, 1787432969);
    Times(1015839, 1787432969, 1015839, 1787432969, 1487748986, 392323019);
    Times(2031678, 392323019, 2031678, 392323019, 71673351, 2039083264);
    Times(4063356, 2039083264, 4063356, 2039083264, 1936154700, 1212702796);
    Times(8126712, 1212702796, 8126712, 1212702796, 684823874, 936029138);
    Times(16253424, 936029138, 16253424, 936029138, 407989391, 1863034067);
    Times(32506848, 1863034067, 30783, 24102045, 20909556, 1343336283);
  }

  lemma PowersFrom2031678()
    requires Power(2031678) == 392323019
    ensures Power(14221746) == 1013763951 && Power(306783378) == 1600955193
  {
    hide Power;
    Times(2031678, 392323019, 2031678, 392323019, 71673351, 2039083264);
    Times(4063356, 2039083264, 2031678, 392323019, 372519391, 1761955039);
    Times(6095034, 1761955039, 6095034, 1761955039, 1445638742, 1542839447);
    Times(12190068, 1542839447, 2031678, 392323019, 281860786, 1013763951);
    Times(4063356, 2039083264, 4063356, 2039083264, 1936154700, 1212702796);
    Times(8126712, 1212702796, 8126712, 1212702796, 684823874, 936029138);
    Times(16253424, 936029138, 2031678, 392323019, 171002828, 571373906);
    Times(18285102, 571373906, 18285102, 571373906, 152023574, 1334202458);
    Times(36570204, 1334202458, 36570204, 1334202458, 828921887, 1960359875);
    Times(73140408, 1960359875, 2031678, 392323019, 358137444, 118084357);
    Times(75172086, 118084357, 75172086, 118084357, 6493141, 1252938222);
    Times(150344172, 1252938222, 2031678, 392323019, 228898835, 895680973);
    Times(152375850, 895680973, 152375850, 895680973, 373574162, 1557497915);
    Times(304751700, 1557497915, 2031678, 392323019, 284538736, 1600955193);
  }

  lemma PowersFrom32537631()
    requires Power(32537631) == 1343336283
    ensures Power(195225786) == 298192073 && Power(357913941) == 634005912
  {
    hide Power;
    Times(32537631, 1343336283, 32537631, 1343336283, 840310179, 1414113276);
    Times(65075262, 1414113276, 32537631, 1343336283, 884583998, 1819912402);
    Times(97612893, 1819912402, 97612893, 1819912402, 1542307973, 298192073);
    Times(65075262, 1414113276, 65075262, 1414113276, 931190493, 1400084205);
    Times(130150524, 1400084205, 32537631, 1343336283, 875808257, 2016636736);
    Times(162688155, 2016636736, 162688155, 2016636736, 1893762371, 1958286659);
    Times(325376310, 1958286659, 32537631, 1343336283, 1224986055, 634005912);
  }

  lemma PowersFrom357913941()
    requires Power(357913941) == 634005912
    ensures Power(715827882) == 634005911 && Power(1073741823) == 2147483646
  {
    hide Power;
    Times(357913941, 634005912, 357913941, 634005912, 187178839, 634005911);
    Times(715827882, 634005911, 357913941, 634005912, 187178838, 2147483646);
  }

  /** For every prime factor q of M - 1, the power (M - 1) / q. */
  lemma PowersAtFactors()
    ensures Power(1073741823) == 2147483646  // 2
    ensures Power(715827882) == 634005911  // 3
    ensures Power(306783378) == 1600955193  // 7
    ensures Power(195225786) == 298192073  // 11
    ensures Power(69273666) == 16384  // 31
    ensures Power(14221746) == 1013763951  // 151
    ensures Power(6487866) == 759513457  // 331
  {
    hide Power;
    PowerOne();
    PowersFrom3();
    PowersFrom209286();
    PowersFrom30783();
    PowersFrom2031678();
    PowersFrom32537631();
    PowersFrom357913941();
  }

  lemma PowerOne()
    ensures Power(1) == 16807
  {
    assert After(1, 0) == 1;
  }

  lemma PowerOfOrder()
    ensures Power(2147483646) == 1
  {
    hide Power;
    PowersAtFactors();
    Times(1073741823, 2147483646, 1073741823, 2147483646, 2147483645, 1);
  }

  // ----- the order of the multiplier -----

  lemma {:induction false} PowerOfMultiple(d: nat, q: nat)
    requires Power(d) == 1
    ensures Power(d * q) == 1
  {
    if q > 0 {
      PowerOfMultiple(d, q - 1);
      AfterAdd(1, d * (q - 1), d);
      assert d * q == d * (q - 1) + d;
    }
  }

  ghost predicate Prime(q: nat) {
    q >= 2 && forall a :: 2 <= a < q ==> q % a != 0
  }

  /** A prime that divides a product divides a factor. */
  lemma {:induction false} Euclid(q: nat, a: nat, d: nat, c: nat) returns (e: nat)
    requires Prime(q) && 0 < a < q && a * d == q * c
    ensures d == q * e
    decreases a
  {
    if a == 1 {
      e := c;
    } else {
      var r, n := q % a, q / a;
      Remainder(q, a, n, r, d, c);
      e := Euclid(q, r, d, d - n * c);
    }
  }

  lemma Remainder(q: nat, a: nat, n: nat, r: nat, d: nat, c: nat)
    requires q > 0 && q == n * a + r && a * d == q * c
    ensures d - n * c >= 0 && r * d == q * (d - n * c)
  {
    calc {
      q * (d - n * c);
      q * d - q * (n * c);
      { Rearrange(n, q, c); Rearrange(q, n, c); Commute(n, q * c); Rearrange(q, c, n); }
      q * d - n * (q * c);
      (n * a + r) * d - n * (a * d);
      { Rearrange(n, a, d); Commute(n, a * d); }
      r * d;
    }
    NegativeProduct(q, d - n * c);
  }

  lemma NegativeProduct(q: nat, x: int)
    requires q > 0
    ensures x < 0 ==> q * x < 0
  {
    if x < 0 {
      assert q * x <= q * -1;
    }
  }

  lemma Cancel(q: nat, x: int, y: int)
    requires q > 0 && q * x == q * y
    ensures x == y
  {
    NegativeProduct(q, x - y);
    NegativeProduct(q, y - x);
  }

  /** A prime factor of m * d that is not one of m can be taken out of d. */
  lemma TakeOut(q: nat, m: nat, d: nat, c: nat) returns (e: nat)
    requires Prime(q) && m * d == q * c && m % q != 0
    ensures m * e == c
  {
    var a, n := m % q, m / q;
    assert m == n * q + a;
    var c' := c - n * d;
    calc {
      a * d;
      m * d - (n * q) * d;
      { Rearrange(n, q, d); Rearrange(q, d, n); Commute(d, n); Rearrange(d, n, q); Commute(q, n * d); }
      q * c - q * (n * d);
      q * c';
    }
    NegativeProduct(q, c');
    e := Euclid(q, a, d, c');
    Rearrange(m, q, e);
    Commute(q * e, m);
    Rearrange(q, e, m);
    Commute(e, m);
    Commute(e * m, q);
    Cancel(q, m * e, c);
  }

  lemma NotAFactor(q: nat, m: nat, d: nat, k: nat)
    requires q > 0 && m * d == q * k && Power(d) == 1 && Power(k) != 1
    ensures m % q != 0
  {
    hide Power;
    if m % q == 0 {
      var n := m / q;
      assert m == q * n;
      Rearrange(q, n, d);
      Commute(q, n * d);
      Cancel(q, n * d, k);
      Commute(n, d);
      PowerOfMultiple(d, n);
    }
  }

  lemma SmallPrimes()
    ensures Prime(2) && Prime(3) && Prime(7) && Prime(11) && Prime(31) && Prime(151) && Prime(331)
  {
    Trial(2); Trial(3); Trial(7); Trial(11); Trial(31); Trial(151); Trial(331);
  }

  /** Trial division up to 18 decides primality below 361. */
  lemma Trial(q: nat)
    requires 2 <= q < 361 && forall a :: 2 <= a < 19 && a < q ==> q % a != 0
    ensures Prime(q)
  {
    forall a | 2 <= a < q ensures q % a != 0 {
      if q % a == 0 {
        var b := SmallDivisor(q, a);
        assert false;
      }
    }
  }

  /** A divisor or its cofactor is small. */
  lemma SmallDivisor(q: nat, a: nat) returns (b: nat)
    requires 2 <= a < q < 361 && q % a == 0
    ensures 2 <= b < 19 && b < q && q % b == 0
  {
    b := a;
    if a >= 19 {
      b := q / a;
      assert q == a * b;
      ProductMod(a, b);
      ProductGrows(a, b, 19);
    }
  }

  lemma ProductMod(a: nat, b: nat)
    requires b > 0
    ensures a * b % b == 0
  {
    var n, r := a * b / b, a * b % b;
    assert b * (a - n) == r;
    NegativeProduct(b, a - n);
    if a > n {
      ProductGrows(b, a - n, 1);
    }
  }

  lemma ProductGrows(a: nat, b: nat, k: nat)
    ensures b >= k ==> a * b >= a * k
  {
  }

  /** No smaller power of the multiplier is 1. */
  lemma {:induction false} OrderIsGreatest(d: nat)
    requires 0 < d < M - 1
    ensures Power(d) != 1
  {
    hide Power, Prime;
    if Power(d) == 1 {
      var n: nat := 2147483646;
      var m, r := n / d, n % d;
      PowerOfMultiple(d, m);
      PowerOfOrder();
      if r > 0 {
        PowerOfRemainder(d * m, r);
        OrderIsGreatest(r);
      } else {
        NoCofactor(m, d);
      }
    }
  }

  lemma PowerOfRemainder(a: nat, r: nat)
    requires Power(a) == 1
    ensures Power(a + r) == Power(r)
  {
    AfterAdd(1, a, r);
  }

  /** If m * d is M - 1 and the power d is 1, no prime divides m. */
  lemma NoCofactor(m: nat, d: nat)
    requires m * d == 2147483646 && Power(d) == 1
    ensures m == 1
  {
    hide Power, Prime;
    SmallPrimes();
    PowersAtFactors();
    NotAFactor(2, m, d, 1073741823);
    NotAFactor(3, m, d, 715827882);
    NotAFactor(7, m, d, 306783378);
    NotAFactor(11, m, d, 195225786);
    NotAFactor(31, m, d, 69273666);
    NotAFactor(151, m, d, 14221746);
    NotAFactor(331, m, d, 6487866);
    var e := TakeOut(2, m, d, 1073741823);
    e := TakeOut(3, m, e, 357913941);
    e := TakeOut(3, m, e, 119304647);
    e := TakeOut(7, m, e, 17043521);
    e := TakeOut(11, m, e, 1549411);
    e := TakeOut(31, m, e, 49981);
    e := TakeOut(151, m, e, 331);
    e := TakeOut(331, m, e, 1);
    UnitProduct(m, e);
  }

  lemma UnitProduct(m: nat, e: nat)
    requires m * e == 1
    ensures m == 1
  {
    ProductGrows(m, e, 1);
  }

  // ----- the cycle -----

  /** The first n powers. */
  function Powers(n: nat): set<nat> {
    if n == 0 then {} else Powers(n - 1) + {Power(n - 1)}
  }

  lemma {:induction false} InPowers(n: nat, x: nat)
    ensures x in Powers(n) <==> exists i: nat :: i < n && Power(i) == x
  {
    if n > 0 {
      InPowers(n - 1, x);
      assert Power(n - 1) in Powers(n);
    }
  }

  lemma PowersDiffer(i: nat, j: nat)
    requires i < j < M - 1
    ensures Power(i) != Power(j)
  {
    if Power(i) == Power(j) {
      AfterAdd(1, j - i, i);
      AfterGood(1, j - i);
      AfterInjective(Power(j - i), 1, i);
      OrderIsGreatest(j - i);
    }
  }

  lemma {:induction false} CountPowers(n: nat)
    requires n <= M - 1
    ensures |Powers(n)| == n && forall x :: x in Powers(n) ==> GoodSeed(x)
  {
    if n > 0 {
      CountPowers(n - 1);
      AfterGood(1, n - 1);
      InPowers(n - 1, Power(n - 1));
      if Power(n - 1) in Powers(n - 1) {
        var i: nat :| i < n - 1 && Power(i) == Power(n - 1);
        PowersDiffer(i, n - 1);
      }
    }
  }

  function UpTo(n: nat): set<nat> {
    if n == 0 then {} else UpTo(n - 1) + {n}
  }

  lemma {:induction false} CountUpTo(n: nat)
    ensures |UpTo(n)| == n && forall x: nat :: x in UpTo(n) <==> 1 <= x <= n
  {
    if n > 0 {
      CountUpTo(n - 1);
    }
  }

  lemma SubsetOfSameSize(a: set<nat>, b: set<nat>)
    requires a <= b && |a| == |b|
    ensures a == b
  {
    assert b == a + (b - a);
    assert |a + (b - a)| == |a| + |b - a|;
  }

  /** Every good seed is a power of the multiplier. */
  lemma Generates(s: nat) returns (i: nat)
    requires GoodSeed(s)
    ensures i < M - 1 && Power(i) == s
  {
    var n: nat := M - 1;
    CountPowers(n);
    CountUpTo(n);
    SubsetOfSameSize(Powers(n), UpTo(n));
    InPowers(n, s);
    i :| i < n && Power(i) == s;
  }

  /** From every good seed the generator reaches every good seed within M - 1 steps. */
  lemma ReachesEverySeed(s: nat, t: nat) returns (k: nat)
    requires GoodSeed(s) && GoodSeed(t)
    ensures k < M - 1 && After(s, k) == t
  {
    var i := Generates(s);
    var j := Generates(t);
    var n: nat := M - 1;
    k := if i <= j then j - i else j + n - i;
    AfterAdd(1, i, k);
    if i > j {
      PowerOfOrder();
      AfterAdd(1, n, j);
    }
  }

  /** It returns to a seed after M - 1 steps and not earlier. */
  lemma PeriodIsExact(s: nat, k: nat)
    requires GoodSeed(s) && 0 < k <= M - 1
    ensures After(s, k) == s <==> k == M - 1
  {
    var i := Generates(s);
    var n: nat := M - 1;
    AfterAdd(1, i, k);
    AfterAdd(1, k, i);
    if k == n {
      PowerOfOrder();
    } else {
      OrderIsGreatest(k);
      AfterGood(1, k);
      if After(s, k) == s {
        AfterInjective(Power(k), 1, i);
      }
    }
  }
}
