/** The TestStrings table: each byte count, the constant expression that must
    produce it, and the texts both renderers must print for it. A row whose
    texts need a scaled rendering proves each renderer's text in a lemma of
    its own, with the digits of the printed number spelled out step by step,
    so that no single proof evaluates more than one text. */
module SizeTest {
  import opened Arith
  import opened Digits
  import opened ByteSize

  /** Every unit constant as a literal. */
  lemma UnitSizeValues()
    ensures UnitSize(Decimal, Kilo) == 1000 && UnitSize(Binary, Kilo) == 1024
    ensures UnitSize(Decimal, Mega) == 1000000 && UnitSize(Binary, Mega) == 1048576
    ensures UnitSize(Decimal, Giga) == 1000000000 && UnitSize(Binary, Giga) == 1073741824
    ensures UnitSize(Decimal, Tera) == 1000000000000 && UnitSize(Binary, Tera) == 1099511627776
    ensures UnitSize(Decimal, Peta) == 1000000000000000 && UnitSize(Binary, Peta) == 1125899906842624
    ensures UnitSize(Decimal, Exa) == 1000000000000000000 && UnitSize(Binary, Exa) == 1152921504606846976
  {
    BinaryConstantValues();
    DecimalConstantValues();
  }

  /** A scaled rendering, from the unit the switch picks and a count of
      hundredths strictly nearer to n than half a hundredth. */
  lemma PrintsScaled(m: Mode, n: Size, p: Scale, centi: nat, text: string)
    requires p != Unscaled && UnitSize(m, p) <= n && (p == Exa || n < UnitSize(m, Next(p)))
    requires 2 * Abs(centi * UnitSize(m, p) - 100 * n) < UnitSize(m, p)
    requires FixedTwo(centi) + Suffix(m, p) == text
    ensures Render(m, n) == text
  {
    SelectIff(m, n, p);
    RoundedCentiUnique(n, UnitSize(m, p), centi);
  }

  /** Below the mode's smallest unit the text is the byte count and "B". */
  lemma PrintsUnscaled(m: Mode, n: Size, text: string)
    requires n < Base(m) && NatToDigits(n) + "B" == text
    ensures Render(m, n) == text
  {
  }

  lemma CaseZero()
    ensures 0 * Byte == 0
    ensures SizeString(0) == "0B" && BinarySizeString(0) == "0B"
  {
    assert NatToDigits(0) == "0";
    PrintsUnscaled(Decimal, 0, "0B");
    PrintsUnscaled(Binary, 0, "0B");
  }

  lemma CaseOne()
    ensures 1 * Byte == 1
    ensures SizeString(1) == "1B" && BinarySizeString(1) == "1B"
  {
    assert NatToDigits(1) == "1";
    PrintsUnscaled(Decimal, 1, "1B");
    PrintsUnscaled(Binary, 1, "1B");
  }

  lemma CaseHundred()
    ensures 100 * Byte == 100
    ensures SizeString(100) == "100B" && BinarySizeString(100) == "100B"
  {
    assert NatToDigits(1) == "1";
    assert NatToDigits(10) == "10";
    assert NatToDigits(100) == "100";
    PrintsUnscaled(Decimal, 100, "100B");
    PrintsUnscaled(Binary, 100, "100B");
  }

  lemma CaseKilobyte()
    ensures 1 * Kilobyte == 1000
    ensures SizeString(1000) == "1.00KB" && BinarySizeString(1000) == "1000B"
  {
    CaseKilobyteDecimal();
    CaseKilobyteBinary();
  }

  lemma CaseKilobyteBinary()
    ensures BinarySizeString(1000) == "1000B"
  {
    assert NatToDigits(1) == "1";
    assert NatToDigits(10) == "10";
    assert NatToDigits(100) == "100";
    assert NatToDigits(1000) == "1000";
    PrintsUnscaled(Binary, 1000, "1000B");
  }

  lemma CaseKilobyteDecimal()
    ensures SizeString(1000) == "1.00KB"
  {
    UnitSizeValues();
    assert DigitChar(0) == '0';
    assert 100 / 100 == 1 && 100 % 100 / 10 == 0 && 100 % 10 == 0;
    assert FixedTwo(100) == "1.00";
    PrintsScaled(Decimal, 1000, Kilo, 100, "1.00KB");
  }

  lemma CaseKibibyte()
    ensures 1 * Kibibyte == 1024
    ensures SizeString(1024) == "1.02KB" && BinarySizeString(1024) == "1.00KiB"
  {
    CaseKibibyteDecimal();
    CaseKibibyteBinary();
  }

  lemma CaseKibibyteDecimal()
    ensures SizeString(1024) == "1.02KB"
  {
    UnitSizeValues();
    assert DigitChar(0) == '0' && DigitChar(2) == '2';
    assert 102 / 100 == 1 && 102 % 100 / 10 == 0 && 102 % 10 == 2;
    assert FixedTwo(102) == "1.02";
    PrintsScaled(Decimal, 1024, Kilo, 102, "1.02KB");
  }

  lemma CaseKibibyteBinary()
    ensures BinarySizeString(1024) == "1.00KiB"
  {
    UnitSizeValues();
    assert DigitChar(0) == '0';
    assert 100 / 100 == 1 && 100 % 100 / 10 == 0 && 100 % 10 == 0;
    assert FixedTwo(100) == "1.00";
    PrintsScaled(Binary, 1024, Kilo, 100, "1.00KiB");
  }

  lemma CaseMegabyte()
    ensures 1 * Megabyte == 1000000
    ensures SizeString(1000000) == "1.00MB" && BinarySizeString(1000000) == "976.56KiB"
  {
    CaseMegabyteDecimal();
    CaseMegabyteBinary();
  }

  lemma CaseMegabyteDecimal()
    ensures SizeString(1000000) == "1.00MB"
  {
    UnitSizeValues();
    assert DigitChar(0) == '0';
    assert 100 / 100 == 1 && 100 % 100 / 10 == 0 && 100 % 10 == 0;
    assert FixedTwo(100) == "1.00";
    PrintsScaled(Decimal, 1000000, Mega, 100, "1.00MB");
  }

  lemma CaseMegabyteBinary()
    ensures BinarySizeString(1000000) == "976.56KiB"
  {
    UnitSizeValues();
    assert NatToDigits(9) == "9";
    assert NatToDigits(97) == "97";
    assert NatToDigits(9) == "9";
    assert NatToDigits(97) == "97";
    assert NatToDigits(976) == "976";
    assert DigitChar(5) == '5' && DigitChar(6) == '6';
    assert 97656 / 100 == 976 && 97656 % 100 / 10 == 5 && 97656 % 10 == 6;
    assert FixedTwo(97656) == "976.56";
    PrintsScaled(Binary, 1000000, Kilo, 97656, "976.56KiB");
  }

  lemma CaseMebibyte()
    ensures 1 * Mebibyte == 1048576
    ensures SizeString(1048576) == "1.05MB" && BinarySizeString(1048576) == "1.00MiB"
  {
    CaseMebibyteDecimal();
    CaseMebibyteBinary();
  }

  lemma CaseMebibyteDecimal()
    ensures SizeString(1048576) == "1.05MB"
  {
    UnitSizeValues();
    assert DigitChar(0) == '0' && DigitChar(5) == '5';
    assert 105 / 100 == 1 && 105 % 100 / 10 == 0 && 105 % 10 == 5;
    assert FixedTwo(105) == "1.05";
    PrintsScaled(Decimal, 1048576, Mega, 105, "1.05MB");
  }

  lemma CaseMebibyteBinary()
    ensures BinarySizeString(1048576) == "1.00MiB"
  {
    UnitSizeValues();
    assert DigitChar(0) == '0';
    assert 100 / 100 == 1 && 100 % 100 / 10 == 0 && 100 % 10 == 0;
    assert FixedTwo(100) == "1.00";
    PrintsScaled(Binary, 1048576, Mega, 100, "1.00MiB");
  }

  lemma CaseGigabyte()
    ensures 1 * Gigabyte == 1000000000
    ensures SizeString(1000000000) == "1.00GB" && BinarySizeString(1000000000) == "953.67MiB"
  {
    CaseGigabyteDecimal();
    CaseGigabyteBinary();
  }

  lemma CaseGigabyteDecimal()
    ensures SizeString(1000000000) == "1.00GB"
  {
    UnitSizeValues();
    assert DigitChar(0) == '0';
    assert 100 / 100 == 1 && 100 % 100 / 10 == 0 && 100 % 10 == 0;
    assert FixedTwo(100) == "1.00";
    PrintsScaled(Decimal, 1000000000, Giga, 100, "1.00GB");
  }

  lemma CaseGigabyteBinary()
    ensures BinarySizeString(1000000000) == "953.67MiB"
  {
    UnitSizeValues();
    assert NatToDigits(9) == "9";
    assert NatToDigits(95) == "95";
    assert NatToDigits(9) == "9";
    assert NatToDigits(95) == "95";
    assert NatToDigits(953) == "953";
    assert DigitChar(6) == '6' && DigitChar(7) == '7';
    assert 95367 / 100 == 953 && 95367 % 100 / 10 == 6 && 95367 % 10 == 7;
    assert FixedTwo(95367) == "953.67";
    PrintsScaled(Binary, 1000000000, Mega, 95367, "953.67MiB");
  }

  lemma CaseGibibyte()
    ensures 1 * Gibibyte == 1073741824
    ensures SizeString(1073741824) == "1.07GB" && BinarySizeString(1073741824) == "1.00GiB"
  {
    CaseGibibyteDecimal();
    CaseGibibyteBinary();
  }

  lemma CaseGibibyteDecimal()
    ensures SizeString(1073741824) == "1.07GB"
  {
    UnitSizeValues();
    assert DigitChar(0) == '0' && DigitChar(7) == '7';
    assert 107 / 100 == 1 && 107 % 100 / 10 == 0 && 107 % 10 == 7;
    assert FixedTwo(107) == "1.07";
    PrintsScaled(Decimal, 1073741824, Giga, 107, "1.07GB");
  }

  lemma CaseGibibyteBinary()
    ensures BinarySizeString(1073741824) == "1.00GiB"
  {
    UnitSizeValues();
    assert DigitChar(0) == '0';
    assert 100 / 100 == 1 && 100 % 100 / 10 == 0 && 100 % 10 == 0;
    assert FixedTwo(100) == "1.00";
    PrintsScaled(Binary, 1073741824, Giga, 100, "1.00GiB");
  }

  lemma CaseTerabyte()
    ensures 1 * Terabyte == 1000000000000
    ensures SizeString(1000000000000) == "1.00TB" && BinarySizeString(1000000000000) == "931.32GiB"
  {
    CaseTerabyteDecimal();
    CaseTerabyteBinary();
  }

  lemma CaseTerabyteDecimal()
    ensures SizeString(1000000000000) == "1.00TB"
  {
    UnitSizeValues();
    assert DigitChar(0) == '0';
    assert 100 / 100 == 1 && 100 % 100 / 10 == 0 && 100 % 10 == 0;
    assert FixedTwo(100) == "1.00";
    PrintsScaled(Decimal, 1000000000000, Tera, 100, "1.00TB");
  }

  lemma CaseTerabyteBinary()
    ensures BinarySizeString(1000000000000) == "931.32GiB"
  {
    UnitSizeValues();
    assert NatToDigits(9) == "9";
    assert NatToDigits(93) == "93";
    assert NatToDigits(9) == "9";
    assert NatToDigits(93) == "93";
    assert NatToDigits(931) == "931";
    assert DigitChar(3) == '3' && DigitChar(2) == '2';
    assert 93132 / 100 == 931 && 93132 % 100 / 10 == 3 && 93132 % 10 == 2;
    assert FixedTwo(93132) == "931.32";
    PrintsScaled(Binary, 1000000000000, Giga, 93132, "931.32GiB");
  }

  lemma CaseTebibyte()
    ensures 1 * Tebibyte == 1099511627776
    ensures SizeString(1099511627776) == "1.10TB" && BinarySizeString(1099511627776) == "1.00TiB"
  {
    CaseTebibyteDecimal();
    CaseTebibyteBinary();
  }

  lemma CaseTebibyteDecimal()
    ensures SizeString(1099511627776) == "1.10TB"
  {
    UnitSizeValues();
    assert DigitChar(1) == '1' && DigitChar(0) == '0';
    assert 110 / 100 == 1 && 110 % 100 / 10 == 1 && 110 % 10 == 0;
    assert FixedTwo(110) == "1.10";
    PrintsScaled(Decimal, 1099511627776, Tera, 110, "1.10TB");
  }

  lemma CaseTebibyteBinary()
    ensures BinarySizeString(1099511627776) == "1.00TiB"
  {
    UnitSizeValues();
    assert DigitChar(0) == '0';
    assert 100 / 100 == 1 && 100 % 100 / 10 == 0 && 100 % 10 == 0;
    assert FixedTwo(100) == "1.00";
    PrintsScaled(Binary, 1099511627776, Tera, 100, "1.00TiB");
  }

  lemma CasePetabyte()
    ensures 1 * Petabyte == 1000000000000000
    ensures SizeString(1000000000000000) == "1.00PB" && BinarySizeString(1000000000000000) == "909.49TiB"
  {
    CasePetabyteDecimal();
    CasePetabyteBinary();
  }

  lemma CasePetabyteDecimal()
    ensures SizeString(1000000000000000) == "1.00PB"
  {
    UnitSizeValues();
    assert DigitChar(0) == '0';
    assert 100 / 100 == 1 && 100 % 100 / 10 == 0 && 100 % 10 == 0;
    assert FixedTwo(100) == "1.00";
    PrintsScaled(Decimal, 1000000000000000, Peta, 100, "1.00PB");
  }

  lemma CasePetabyteBinary()
    ensures BinarySizeString(1000000000000000) == "909.49TiB"
  {
    UnitSizeValues();
    assert NatToDigits(9) == "9";
    assert NatToDigits(90) == "90";
    assert NatToDigits(9) == "9";
    assert NatToDigits(90) == "90";
    assert NatToDigits(909) == "909";
    assert DigitChar(4) == '4' && DigitChar(9) == '9';
    assert 90949 / 100 == 909 && 90949 % 100 / 10 == 4 && 90949 % 10 == 9;
    assert FixedTwo(90949) == "909.49";
    PrintsScaled(Binary, 1000000000000000, Tera, 90949, "909.49TiB");
  }

  lemma CasePebibyte()
    ensures 1 * Pebibyte == 1125899906842624
    ensures SizeString(1125899906842624) == "1.13PB" && BinarySizeString(1125899906842624) == "1.00PiB"
  {
    CasePebibyteDecimal();
    CasePebibyteBinary();
  }

  lemma CasePebibyteDecimal()
    ensures SizeString(1125899906842624) == "1.13PB"
  {
    UnitSizeValues();
    assert DigitChar(1) == '1' && DigitChar(3) == '3';
    assert 113 / 100 == 1 && 113 % 100 / 10 == 1 && 113 % 10 == 3;
    assert FixedTwo(113) == "1.13";
    PrintsScaled(Decimal, 1125899906842624, Peta, 113, "1.13PB");
  }

  lemma CasePebibyteBinary()
    ensures BinarySizeString(1125899906842624) == "1.00PiB"
  {
    UnitSizeValues();
    assert DigitChar(0) == '0';
    assert 100 / 100 == 1 && 100 % 100 / 10 == 0 && 100 % 10 == 0;
    assert FixedTwo(100) == "1.00";
    PrintsScaled(Binary, 1125899906842624, Peta, 100, "1.00PiB");
  }

  lemma CaseExabyte()
    ensures 1 * Exabyte == 1000000000000000000
    ensures SizeString(1000000000000000000) == "1.00EB" && BinarySizeString(1000000000000000000) == "888.18PiB"
  {
    CaseExabyteDecimal();
    CaseExabyteBinary();
  }

  lemma CaseExabyteDecimal()
    ensures SizeString(1000000000000000000) == "1.00EB"
  {
    UnitSizeValues();
    assert DigitChar(0) == '0';
    assert 100 / 100 == 1 && 100 % 100 / 10 == 0 && 100 % 10 == 0;
    assert FixedTwo(100) == "1.00";
    PrintsScaled(Decimal, 1000000000000000000, Exa, 100, "1.00EB");
  }

  lemma CaseExabyteBinary()
    ensures BinarySizeString(1000000000000000000) == "888.18PiB"
  {
    UnitSizeValues();
    assert NatToDigits(8) == "8";
    assert NatToDigits(88) == "88";
    assert NatToDigits(8) == "8";
    assert NatToDigits(88) == "88";
    assert NatToDigits(888) == "888";
    assert DigitChar(1) == '1' && DigitChar(8) == '8';
    assert 88818 / 100 == 888 && 88818 % 100 / 10 == 1 && 88818 % 10 == 8;
    assert FixedTwo(88818) == "888.18";
    PrintsScaled(Binary, 1000000000000000000, Peta, 88818, "888.18PiB");
  }

  lemma CaseExbibyte()
    ensures 1 * Exbibyte == 1152921504606846976
    ensures SizeString(1152921504606846976) == "1.15EB" && BinarySizeString(1152921504606846976) == "1.00EiB"
  {
    CaseExbibyteDecimal();
    CaseExbibyteBinary();
  }

  lemma CaseExbibyteDecimal()
    ensures SizeString(1152921504606846976) == "1.15EB"
  {
    UnitSizeValues();
    assert DigitChar(1) == '1' && DigitChar(5) == '5';
    assert 115 / 100 == 1 && 115 % 100 / 10 == 1 && 115 % 10 == 5;
    assert FixedTwo(115) == "1.15";
    PrintsScaled(Decimal, 1152921504606846976, Exa, 115, "1.15EB");
  }

  lemma CaseExbibyteBinary()
    ensures BinarySizeString(1152921504606846976) == "1.00EiB"
  {
    UnitSizeValues();
    assert DigitChar(0) == '0';
    assert 100 / 100 == 1 && 100 % 100 / 10 == 0 && 100 % 10 == 0;
    assert FixedTwo(100) == "1.00";
    PrintsScaled(Binary, 1152921504606846976, Exa, 100, "1.00EiB");
  }

  lemma CaseMaxInt64()
    ensures 7 * Exbibyte + (1 * Exbibyte - 1 * Byte) == MaxInt64
    ensures SizeString(MaxInt64) == "9.22EB" && BinarySizeString(MaxInt64) == "8.00EiB"
  {
    CaseMaxInt64Decimal();
    CaseMaxInt64Binary();
  }

  lemma CaseMaxInt64Decimal()
    ensures SizeString(MaxInt64) == "9.22EB"
  {
    UnitSizeValues();
    assert DigitChar(2) == '2';
    assert 922 / 100 == 9 && 922 % 100 / 10 == 2 && 922 % 10 == 2;
    assert FixedTwo(922) == "9.22";
    PrintsScaled(Decimal, MaxInt64, Exa, 922, "9.22EB");
  }

  lemma CaseMaxInt64Binary()
    ensures BinarySizeString(MaxInt64) == "8.00EiB"
  {
    UnitSizeValues();
    assert DigitChar(0) == '0';
    assert 800 / 100 == 8 && 800 % 100 / 10 == 0 && 800 % 10 == 0;
    assert FixedTwo(800) == "8.00";
    PrintsScaled(Binary, MaxInt64, Exa, 800, "8.00EiB");
  }

  /** An example of the accessors' exact quotient N/C at one and a quarter
      Exbibytes. Go's `float64` result for Kilobytes is the nearest double,
      1441151880758558.75, rather than the exact value stated here. */
  lemma QuarterPastExbibyte()
    ensures Exbibytes(1441151880758558720) == 1.25
    ensures Kilobytes(1441151880758558720) == 1441151880758558.72
  {
    BinaryConstantValues();
  }
}
