/**
  * Amounts whose compressed form does not fit 64 bits never come back.
  *
  * Such an amount is n = 10q + d with d > 0; its compressed form 90q + 10d - 9 loses k times 2^64. Decompression reads
  * some zeros off what is left, and would have to return to n modulo 2^64. That determines q modulo 2^63, by the
  * inverse of an odd number, and the one candidate does not lose k times 2^64.
  */
module AmountOverflow {
  import opened Bytes
  import opened Amount

  /** The number of zeros that decompression reads off. */
  function LostZeros(k: nat): nat { 4 * k % 10 }

  /** What is left in front of them is 9q and this. */
  function LostShift(k: nat, d: nat): int { d - 1 - (k * TWO64 + LostZeros(k)) / 10 }

  /** Modulo 2^63 a product with an odd number determines the other factor. */
  lemma OneCandidate(q: nat, a: int, b: int, inverse: int, j: int) returns (z: int)
    requires a * q == b + j * 0x8000_0000_0000_0000 && inverse * a % 0x8000_0000_0000_0000 == 1
    ensures q == inverse * b + z * 0x8000_0000_0000_0000
  {
    var w := inverse * a / 0x8000_0000_0000_0000;
    z := inverse * j - w * q;
    assert inverse * (a * q) == (inverse * a) * q == (1 + w * 0x8000_0000_0000_0000) * q ==
        q + w * q * 0x8000_0000_0000_0000;
    assert inverse * (b + j * 0x8000_0000_0000_0000) == inverse * b + inverse * j * 0x8000_0000_0000_0000;
  }

  /** Where decompression multiplies with 2h, a return to n needs an even d and fixes 5 (2h - 1) q modulo 2^63. */
  lemma Halved(q: nat, d: nat, h: nat, s: int, r: int, j: int)
    requires ((q + s) * 10 + r + 1) * (2 * h) == 10 * q + d + j * 0x1_0000_0000_0000_0000
    ensures d % 2 == 0 && 5 * (2 * h - 1) * q == d / 2 - s * 10 * h - (r + 1) * h + j * 0x8000_0000_0000_0000
  {
    var x := (q + s) * 10 + r + 1;
    assert x * (2 * h) == 2 * (x * h);
    assert x * h == 10 * (q * h) + 10 * (s * h) + (r + 1) * h by {
      assert x * h == (10 * q + 10 * s + (r + 1)) * h;
    }
    assert 5 * (2 * h - 1) * q == 10 * (q * h) - 5 * q;
    assert s * 10 * h == 10 * (s * h);
  }

  lemma TwoZeros(q: nat, d: nat, s: int, r: int, j: int) returns (z: int)
    requires ((q + s) * 10 + r + 1) * 100 == 10 * q + d + j * 0x1_0000_0000_0000_0000
    ensures d % 2 == 0 && q == 8_068_121_397_895_187_727 * (d / 2 - s * 500 - (r + 1) * 50) + z * 0x8000_0000_0000_0000
  {
    Halved(q, d, 50, s, r, j);
    z := OneCandidate(q, 495, d / 2 - s * 500 - (r + 1) * 50, 8_068_121_397_895_187_727, j);
  }

  lemma FourZeros(q: nat, d: nat, s: int, r: int, j: int) returns (z: int)
    requires ((q + s) * 10 + r + 1) * 10_000 == 10 * q + d + j * 0x1_0000_0000_0000_0000
    ensures d % 2 == 0 && q == 6_380_997_940_008_660_579 * (d / 2 - s * 50_000 - (r + 1) * 5_000) +
        z * 0x8000_0000_0000_0000
  {
    Halved(q, d, 5_000, s, r, j);
    z := OneCandidate(q, 49_995, d / 2 - s * 50_000 - (r + 1) * 5_000, 6_380_997_940_008_660_579, j);
  }

  lemma SixZeros(q: nat, d: nat, s: int, r: int, j: int) returns (z: int)
    requires ((q + s) * 10 + r + 1) * 1_000_000 == 10 * q + d + j * 0x1_0000_0000_0000_0000
    ensures d % 2 == 0 && q == 5_868_474_094_666_536_435 * (d / 2 - s * 5_000_000 - (r + 1) * 500_000) +
        z * 0x8000_0000_0000_0000
  {
    Halved(q, d, 500_000, s, r, j);
    z := OneCandidate(q, 4_999_995, d / 2 - s * 5_000_000 - (r + 1) * 500_000, 5_868_474_094_666_536_435, j);
  }

  lemma EightZeros(q: nat, d: nat, s: int, r: int, j: int) returns (z: int)
    requires ((q + s) * 10 + r + 1) * 100_000_000 == 10 * q + d + j * 0x1_0000_0000_0000_0000
    ensures d % 2 == 0 && q == 5_594_053_834_762_946_099 * (d / 2 - s * 500_000_000 - (r + 1) * 50_000_000) +
        z * 0x8000_0000_0000_0000
  {
    Halved(q, d, 50_000_000, s, r, j);
    z := OneCandidate(q, 499_999_995, d / 2 - s * 500_000_000 - (r + 1) * 50_000_000, 5_594_053_834_762_946_099, j);
  }

  lemma OnlyCandidate(q: nat, c: int, z: int, candidate: nat, u: int)
    requires q == c + z * 0x8000_0000_0000_0000 && c == candidate + u * 0x8000_0000_0000_0000
        && q < 0x8000_0000_0000_0000 && candidate < 0x8000_0000_0000_0000
    ensures q == candidate
  {
  }

  lemma SameParts(s: int, r: nat, s': int, r': nat)
    requires 9 * s + r == 9 * s' + r' && r < 9 && r' < 9
    ensures s == s' && r == r'
  {
  }

  // The candidates for each number of lost words, one for each even last digit

  lemma LostOne(q: nat, d: nat, s: int, r: int, j: int)
    requires 1 <= d <= 9 && 0 <= r < 9 && 9 * s + r == d - 1_844_674_407_370_955_163
        && 18_446_744_073_709_551_616 <= 90 * q + 10 * d - 9 < 36_893_488_147_419_103_232
    ensures ((q + s) * 10 + r + 1) * 10_000 != 10 * q + d + j * 0x1_0000_0000_0000_0000
  {
    if ((q + s) * 10 + r + 1) * 10_000 == 10 * q + d + j * 0x1_0000_0000_0000_0000 {
      var z := FourZeros(q, d, s, r, j);
      match d
      case 2 =>
        SameParts(s, r, -204_963_823_041_217_241, 8);
        OnlyCandidate(q, 65_393_686_630_115_342_477_615_174_806_142_409_555_579, z, 8_408_702_848_023_182_971,
            7_089_997_711_120_733_973_976);
      case 4 =>
        SameParts(s, r, -204_963_823_041_217_240, 1);
        OnlyCandidate(q, 65_393_686_630_115_342_381_906_586_703_952_509_531_158, z, 1_528_855_063_276_942_358,
            7_089_997_711_120_733_963_600);
      case 6 =>
        SameParts(s, r, -204_963_823_041_217_240, 3);
        OnlyCandidate(q, 65_393_686_630_115_342_318_102_988_301_805_912_401_737, z, 5_218_203_878_018_852_681,
            7_089_997_711_120_733_956_682);
      case 8 =>
        SameParts(s, r, -204_963_823_041_217_240, 5);
        OnlyCandidate(q, 65_393_686_630_115_342_254_299_389_899_659_315_272_316, z, 8_907_552_692_760_763_004,
            7_089_997_711_120_733_949_764);
      case _ =>
    }
  }

  lemma LostTwo(q: nat, d: nat, s: int, r: int, j: int)
    requires 1 <= d <= 9 && 0 <= r < 9 && 9 * s + r == d - 3_689_348_814_741_910_325
        && 36_893_488_147_419_103_232 <= 90 * q + 10 * d - 9 < 55_340_232_221_128_654_848
    ensures ((q + s) * 10 + r + 1) * 100_000_000 != 10 * q + d + j * 0x1_0000_0000_0000_0000
  {
    if ((q + s) * 10 + r + 1) * 100_000_000 == 10 * q + d + j * 0x1_0000_0000_0000_0000 {
      var z := EightZeros(q, d, s, r, j);
      match d
      case 2 =>
        SameParts(s, r, -409_927_646_082_434_481, 6);
        OnlyCandidate(q, 1_146_578_660_271_395_191_513_429_250_278_042_509_612_946_099, z,
            1_478_102_203_758_023_347, 124_312_307_439_176_579_960_930_319);
      case 4 =>
        SameParts(s, r, -409_927_646_082_434_481, 8);
        OnlyCandidate(q, 1_146_578_660_271_395_190_954_023_872_395_801_734_475_892_198, z,
            5_167_451_018_499_933_670, 124_312_307_439_176_579_900_279_466);
      case 6 =>
        SameParts(s, r, -409_927_646_082_434_480, 1);
        OnlyCandidate(q, 1_146_578_660_271_395_190_114_915_802_775_413_654_388_838_297, z,
            3_292_761_304_803_938_201, 124_312_307_439_176_579_809_303_187);
      case 8 =>
        SameParts(s, r, -409_927_646_082_434_480, 3);
        OnlyCandidate(q, 1_146_578_660_271_395_189_555_510_424_893_172_879_251_784_396, z,
            6_982_110_119_545_848_524, 124_312_307_439_176_579_748_652_334);
      case _ =>
    }
  }

  lemma LostThree(q: nat, d: nat, s: int, r: int, j: int)
    requires 1 <= d <= 9 && 0 <= r < 9 && 9 * s + r == d - 5_534_023_222_112_865_486
        && 55_340_232_221_128_654_848 <= 90 * q + 10 * d - 9 < 73_786_976_294_838_206_464
    ensures ((q + s) * 10 + r + 1) * 100 != 10 * q + d + j * 0x1_0000_0000_0000_0000
  {
    if ((q + s) * 10 + r + 1) * 100 == 10 * q + d + j * 0x1_0000_0000_0000_0000 {
      var z := TwoZeros(q, d, s, r, j);
      match d
      case 2 =>
        SameParts(s, r, -614_891_469_123_651_721, 5);
        OnlyCandidate(q, 2_480_509_509_709_871_290_373_865_053_560_152_953_127, z, 5_148_939_675_793_002_791,
            268_937_379_929_839_590_842);
      case 4 =>
        SameParts(s, r, -614_891_469_123_651_721, 7);
        OnlyCandidate(q, 2_480_509_509_709_871_289_575_121_035_168_529_368_154, z, 8_838_288_490_534_913_114,
            268_937_379_929_839_590_755);
      case 6 =>
        SameParts(s, r, -614_891_469_123_651_720, 0);
        OnlyCandidate(q, 2_480_509_509_709_871_288_372_970_946_882_146_396_831, z, 5_726_564_995_272_796_831,
            268_937_379_929_839_590_625);
      case 8 =>
        SameParts(s, r, -614_891_469_123_651_720, 2);
        OnlyCandidate(q, 2_480_509_509_709_871_287_574_226_928_490_522_811_858, z, 192_541_773_159_931_346,
            268_937_379_929_839_590_539);
      case _ =>
    }
  }

  lemma LostFour(q: nat, d: nat, s: int, r: int, j: int)
    requires 1 <= d <= 9 && 0 <= r < 9 && 9 * s + r == d - 7_378_697_629_483_820_648
        && 73_786_976_294_838_206_464 <= 90 * q + 10 * d - 9 < 92_233_720_368_547_758_080
    ensures ((q + s) * 10 + r + 1) * 1_000_000 != 10 * q + d + j * 0x1_0000_0000_0000_0000
  {
    if ((q + s) * 10 + r + 1) * 1_000_000 == 10 * q + d + j * 0x1_0000_0000_0000_0000 {
      var z := SixZeros(q, d, s, r, j);
      match d
      case 2 =>
        SameParts(s, r, -819_855_292_164_868_961, 3);
        OnlyCandidate(q, 24_056_497_717_223_990_479_206_315_296_676_491_971_536_435, z, 1_583_391_593_534_596_659,
            2_608_210_708_740_682_859_646_522);
      case 4 =>
        SameParts(s, r, -819_855_292_164_868_961, 5);
        OnlyCandidate(q, 24_056_497_717_223_990_473_337_847_070_484_050_203_072_870, z, 5_272_740_408_276_506_982,
            2_608_210_708_740_682_859_010_261);
      case 6 =>
        SameParts(s, r, -819_855_292_164_868_961, 7);
        OnlyCandidate(q, 24_056_497_717_223_990_467_469_378_844_291_608_434_609_305, z, 8_962_089_223_018_417_305,
            2_608_210_708_740_682_858_374_000);
      case 8 =>
        SameParts(s, r, -819_855_292_164_868_960, 0);
        OnlyCandidate(q, 24_056_497_717_223_990_458_666_673_570_765_898_448_645_740, z, 6_950_189_379_370_626_668,
            2_608_210_708_740_682_857_419_609);
      case _ =>
    }
  }

  lemma LostSix(q: nat, d: nat, s: int, r: int, j: int)
    requires 1 <= d <= 9 && 0 <= r < 9 && 9 * s + r == d - 11_068_046_444_225_730_971
        && 110_680_464_442_257_309_696 <= 90 * q + 10 * d - 9 < 129_127_208_515_966_861_312
    ensures ((q + s) * 10 + r + 1) * 10_000 != 10 * q + d + j * 0x1_0000_0000_0000_0000
  {
    if ((q + s) * 10 + r + 1) * 10_000 == 10 * q + d + j * 0x1_0000_0000_0000_0000 {
      var z := FourZeros(q, d, s, r, j);
      match d
      case 2 =>
        SameParts(s, r, -1_229_782_938_247_303_441, 0);
        OnlyCandidate(q, 392_362_119_780_692_054_961_374_112_947_284_322_715_579, z, 4_137_957_002_286_368_699,
            42_539_986_266_724_403_854_235);
      case 4 =>
        SameParts(s, r, -1_229_782_938_247_303_441, 2);
        OnlyCandidate(q, 392_362_119_780_692_054_897_570_514_545_137_725_586_158, z, 7_827_305_817_028_279_022,
            42_539_986_266_724_403_847_317);
      case 6 =>
        SameParts(s, r, -1_229_782_938_247_303_441, 4);
        OnlyCandidate(q, 392_362_119_780_692_054_833_766_916_142_991_128_456_737, z, 2_293_282_594_915_413_537,
            42_539_986_266_724_403_840_400);
      case 8 =>
        SameParts(s, r, -1_229_782_938_247_303_441, 6);
        OnlyCandidate(q, 392_362_119_780_692_054_769_963_317_740_844_531_327_316, z, 5_982_631_409_657_323_860,
            42_539_986_266_724_403_833_482);
      case _ =>
    }
  }

  lemma LostSeven(q: nat, d: nat, s: int, r: int, j: int)
    requires 1 <= d <= 9 && 0 <= r < 9 && 9 * s + r == d - 12_912_720_851_596_686_133
        && 129_127_208_515_966_861_312 <= 90 * q + 10 * d - 9 < 147_573_952_589_676_412_928
    ensures ((q + s) * 10 + r + 1) * 100_000_000 != 10 * q + d + j * 0x1_0000_0000_0000_0000
  {
    if ((q + s) * 10 + r + 1) * 100_000_000 == 10 * q + d + j * 0x1_0000_0000_0000_0000 {
      var z := EightZeros(q, d, s, r, j);
      match d
      case 2 =>
        SameParts(s, r, -1_434_746_761_288_520_682, 7);
        OnlyCandidate(q, 4_013_025_310_949_883_170_716_556_399_595_235_154_162_946_099, z,
            4_145_966_937_329_963_059, 435_093_076_037_118_029_908_744_255);
      case 4 =>
        SameParts(s, r, -1_434_746_761_288_520_681, 0);
        OnlyCandidate(q, 4_013_025_310_949_883_169_877_448_329_974_847_074_075_892_198, z,
            2_271_277_223_633_967_590, 435_093_076_037_118_029_817_767_976);
      case 6 =>
        SameParts(s, r, -1_434_746_761_288_520_681, 2);
        OnlyCandidate(q, 4_013_025_310_949_883_169_318_042_952_092_606_298_938_838_297, z,
            5_960_626_038_375_877_913, 435_093_076_037_118_029_757_117_123);
      case 8 =>
        SameParts(s, r, -1_434_746_761_288_520_681, 4);
        OnlyCandidate(q, 4_013_025_310_949_883_168_758_637_574_210_365_523_801_784_396, z, 426_602_816_263_012_428,
            435_093_076_037_118_029_696_466_271);
      case _ =>
    }
  }

  lemma LostEight(q: nat, d: nat, s: int, r: int, j: int)
    requires 1 <= d <= 9 && 0 <= r < 9 && 9 * s + r == d - 14_757_395_258_967_641_294
        && 147_573_952_589_676_412_928 <= 90 * q + 10 * d - 9 < 166_020_696_663_385_964_544
    ensures ((q + s) * 10 + r + 1) * 100 != 10 * q + d + j * 0x1_0000_0000_0000_0000
  {
    if ((q + s) * 10 + r + 1) * 100 == 10 * q + d + j * 0x1_0000_0000_0000_0000 {
      var z := TwoZeros(q, d, s, r, j);
      match d
      case 2 =>
        SameParts(s, r, -1_639_710_584_329_737_922, 6);
        OnlyCandidate(q, 6_614_692_025_892_990_108_591_474_103_585_021_130_277, z, 3_854_976_146_492_388_901,
            717_166_346_479_572_242_347);
      case 4 =>
        SameParts(s, r, -1_639_710_584_329_737_922, 8);
        OnlyCandidate(q, 6_614_692_025_892_990_107_792_730_085_193_397_545_304, z, 7_544_324_961_234_299_224,
            717_166_346_479_572_242_260);
      case 6 =>
        SameParts(s, r, -1_639_710_584_329_737_921, 1);
        OnlyCandidate(q, 6_614_692_025_892_990_106_590_579_996_907_014_573_981, z, 4_432_601_465_972_182_941,
            717_166_346_479_572_242_130);
      case 8 =>
        SameParts(s, r, -1_639_710_584_329_737_921, 3);
        OnlyCandidate(q, 6_614_692_025_892_990_105_791_835_978_515_390_989_008, z, 8_121_950_280_714_093_264,
            717_166_346_479_572_242_043);
      case _ =>
    }
  }

  /** Five lost words leave no zeros to read off. */
  lemma LostFive(q: nat, d: nat, s: int, r: nat, j: int)
    requires 1 <= d <= 9 && r < 9 && 9 * s + r == d - 1 - 0x8000_0000_0000_0000
    ensures (q + s) * 10 + r + 1 != 10 * q + d + j * 0x1_0000_0000_0000_0000
  {
  }

  lemma LostDigits(k: nat, d: nat)
    requires 1 <= k <= 8
    ensures 10 * (d - 1 - LostShift(k, d)) == k * 0x1_0000_0000_0000_0000 + LostZeros(k) && LostZeros(k) <= 8
  {
    var c := k * 1844674407370955161 + k - 4 * k / 10;
    assert k * 0x1_0000_0000_0000_0000 + LostZeros(k) == 10 * c;
  }

  /** What decompression makes of the 64 bits that are left. */
  lemma LostUnpack(q: nat, d: nat, k: nat)
    requires 1 <= d <= 9 && 1 <= k <= 8 && k * 0x1_0000_0000_0000_0000 <= 90 * q + 10 * d - 9
    ensures var (x, t) := (90 * q + 10 * d - 9 - k * 0x1_0000_0000_0000_0000, LostShift(k, d));
            x > 0 && q + t / 9 >= 0 && Unpack(x) == ((q + t / 9) * 10 + t % 9 + 1, LostZeros(k))
  {
    hide LostZeros, LostShift;
    LostDigits(k, d);
    var x, t, e := 90 * q + 10 * d - 9 - k * 0x1_0000_0000_0000_0000, LostShift(k, d), LostZeros(k);
    assert x - 1 == 10 * (9 * q + t) + e;
    assert (x - 1) % 10 == e && (x - 1) / 10 == 9 * q + t;
    assert 9 * q + t == 9 * (q + t / 9) + t % 9;
  }

  lemma ScaleTwice(m: nat, e: nat)
    requires e >= 2
    ensures Scale(m, e) == Scale(m, e - 2) * 100
  {
    assert Scale(m, e - 1) == Scale(m, e - 2) * 10;
  }

  lemma ScalePowers(m: nat)
    ensures Scale(m, 0) == m && Scale(m, 2) == m * 100 && Scale(m, 4) == m * 10_000
    ensures Scale(m, 6) == m * 1_000_000 && Scale(m, 8) == m * 100_000_000
  {
    ScaleTwice(m, 2);
    ScaleTwice(m, 4);
    ScaleTwice(m, 6);
    ScaleTwice(m, 8);
  }

  lemma NeverBack(q: nat, d: nat, k: nat, s: int, r: nat, j: int)
    requires 1 <= d <= 9 && 1 <= k <= 8
        && k * 0x1_0000_0000_0000_0000 <= 90 * q + 10 * d - 9 < (k + 1) * 0x1_0000_0000_0000_0000
    requires q + s >= 0 && r < 9 && 10 * (d - 1 - 9 * s - r) == k * 0x1_0000_0000_0000_0000 + LostZeros(k)
    ensures Scale((q + s) * 10 + r + 1, LostZeros(k)) != 10 * q + d + j * 0x1_0000_0000_0000_0000
  {
    hide Scale;
    ScalePowers((q + s) * 10 + r + 1);
    match k
    case 1 => LostOne(q, d, s, r, j);
    case 2 => LostTwo(q, d, s, r, j);
    case 3 => LostThree(q, d, s, r, j);
    case 4 => LostFour(q, d, s, r, j);
    case 5 => LostFive(q, d, s, r, j);
    case 6 => LostSix(q, d, s, r, j);
    case 7 => LostSeven(q, d, s, r, j);
    case _ => LostEight(q, d, s, r, j);
  }

  /** An amount that loses bits in compression never comes back. */
  lemma OverflowIsLost(n: uint64)
    requires Compress(n) >= TWO64
    ensures Wrap(Decompress(Wrap(Compress(n)))) != n
  {
    hide Compress, Scale, Unpack, LostZeros, LostShift;
    CompressFitsIff(n);
    var q, d, y := n / 10, n % 10, Compress(n);
    var k := y / TWO64;
    LostUnpack(q, d, k);
    var t := LostShift(k, d);
    var scaled := Scale((q + t / 9) * 10 + t % 9 + 1, LostZeros(k));
    assert Wrap(y) == y - k * TWO64;
    assert Decompress(Wrap(y)) == scaled;
    LostDigits(k, d);
    NeverBack(q, d, k, t / 9, t % 9, scaled / TWO64);
  }

  /** The 64-bit code gives an amount back exactly when its last digit is 0 or 9n plus that digit, less 9, fits 64
      bits. */
  lemma RoundTripIff(n: uint64)
    ensures Wrap(Decompress(Wrap(Compress(n)))) == n <==> n % 10 == 0 || 9 * n + n % 10 - 9 < TWO64
    ensures Compress(n) < TWO64 <==> n % 10 == 0 || 9 * n + n % 10 - 9 < TWO64
  {
    hide Compress, Decompress, Wrap;
    CompressFitsIff(n);
    if Compress(n) < TWO64 {
      AmountRoundTrip(n);
    } else {
      OverflowIsLost(n);
    }
  }

  /** The other way round: a compressed amount that is read is written back unchanged iff its amount fits 64 bits. */
  lemma ReprintIff(x: uint64)
    ensures Wrap(Compress(Wrap(Decompress(x)))) == x <==> Decompress(x) < TWO64
  {
    hide Compress, Decompress, Wrap;
    var n := Wrap(Decompress(x));
    DecompressThenCompress(x);
    CompressThenDecompress(n);
    RoundTripIff(n);
    WrapSmall(x);
    if Compress(n) < TWO64 {
      WrapSmall(Compress(n));
    }
    if Decompress(x) < TWO64 {
      WrapSmall(Decompress(x));
    }
  }
}
