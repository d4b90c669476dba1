/** A count of bytes (Go's `Size`, a signed 64-bit integer restricted here to
    its non-negative range), its thirteen unit constants, its exact per-unit
    conversions, and its two renderers: decimal units (`Size.String`) and IEC
    binary units (`BinarySize.String`). */
module ByteSize {
  import opened Arith
  import opened Digits

  /** The largest value of Go's int64 (math.MaxInt64), 2^63 - 1. */
  const MaxInt64: int := 0x7fff_ffff_ffff_ffff

  /** A meaningful byte count: Go's int64 without its negative half. */
  type Size = n: int | 0 <= n <= MaxInt64

  // Binary units: `1 << (10 * iota)` for iota = 0 .. 6.
  const Byte: nat := ShiftLeft(1, 10 * 0)
  const Kibibyte: nat := ShiftLeft(1, 10 * 1)
  const Mebibyte: nat := ShiftLeft(1, 10 * 2)
  const Gibibyte: nat := ShiftLeft(1, 10 * 3)
  const Tebibyte: nat := ShiftLeft(1, 10 * 4)
  const Pebibyte: nat := ShiftLeft(1, 10 * 5)
  const Exbibyte: nat := ShiftLeft(1, 10 * 6)

  // Decimal units: each a thousand of the one before, starting from Byte.
  const Kilobyte: nat := 1000 * Byte
  const Megabyte: nat := 1000 * Kilobyte
  const Gigabyte: nat := 1000 * Megabyte
  const Terabyte: nat := 1000 * Gigabyte
  const Petabyte: nat := 1000 * Terabyte
  const Exabyte: nat := 1000 * Petabyte

  lemma BinaryConstantsArePowers()
    ensures Byte == Pow(1024, 0) && Kibibyte == Pow(1024, 1)
    ensures Mebibyte == Pow(1024, 2) && Gibibyte == Pow(1024, 3)
    ensures Tebibyte == Pow(1024, 4) && Pebibyte == Pow(1024, 5)
    ensures Exbibyte == Pow(1024, 6)
  {
    ShiftIsPowerOf1024(0);
    ShiftIsPowerOf1024(1);
    ShiftIsPowerOf1024(2);
    ShiftIsPowerOf1024(3);
    ShiftIsPowerOf1024(4);
    ShiftIsPowerOf1024(5);
    ShiftIsPowerOf1024(6);
  }

  lemma BinaryConstantValues()
    ensures Byte == 1 && Kibibyte == 1024 && Mebibyte == 1048576
    ensures Gibibyte == 1073741824 && Tebibyte == 1099511627776
    ensures Pebibyte == 1125899906842624 && Exbibyte == 1152921504606846976
  {
    BinaryConstantsArePowers();
  }

  lemma DecimalConstantsArePowers()
    ensures Kilobyte == Pow(1000, 1) && Megabyte == Pow(1000, 2)
    ensures Gigabyte == Pow(1000, 3) && Terabyte == Pow(1000, 4)
    ensures Petabyte == Pow(1000, 5) && Exabyte == Pow(1000, 6)
  {
  }

  lemma DecimalConstantValues()
    ensures Kilobyte == 1000 && Megabyte == 1000000 && Gigabyte == 1000000000
    ensures Terabyte == 1000000000000 && Petabyte == 1000000000000000
    ensures Exabyte == 1000000000000000000
  {
    DecimalConstantsArePowers();
  }

  /** Which wrapper type renders the count: `Size` prints decimal units,
      `BinarySize` prints IEC binary units. The count itself is the same. */
  datatype Mode = Decimal | Binary

  /** The unit a rendering is expressed in, from plain bytes up to the
      sixth power of the mode's base. */
  datatype Scale = Unscaled | Kilo | Mega | Giga | Tera | Peta | Exa

  function Rank(p: Scale): nat
  {
    match p
    case Unscaled => 0
    case Kilo => 1
    case Mega => 2
    case Giga => 3
    case Tera => 4
    case Peta => 5
    case Exa => 6
  }

  function Base(m: Mode): nat
  {
    match m
    case Decimal => 1000
    case Binary => 1024
  }

  /** The named constant of unit p in mode m. */
  function UnitSize(m: Mode, p: Scale): (c: nat)
    ensures c == Pow(Base(m), Rank(p))
    ensures 1 <= c <= MaxInt64
  {
    BinaryConstantsArePowers();
    BinaryConstantValues();
    PowPositive(Base(m), Rank(p));
    match (m, p)
    case (_, Unscaled) => Byte
    case (Decimal, Kilo) => Kilobyte
    case (Decimal, Mega) => Megabyte
    case (Decimal, Giga) => Gigabyte
    case (Decimal, Tera) => Terabyte
    case (Decimal, Peta) => Petabyte
    case (Decimal, Exa) => Exabyte
    case (Binary, Kilo) => Kibibyte
    case (Binary, Mega) => Mebibyte
    case (Binary, Giga) => Gibibyte
    case (Binary, Tera) => Tebibyte
    case (Binary, Peta) => Pebibyte
    case (Binary, Exa) => Exbibyte
  }

  /** Within a mode the constants strictly increase with the unit, and all of
      them are representable as a Size. */
  lemma UnitSizesOrdered(m: Mode, p: Scale, q: Scale)
    ensures Rank(p) < Rank(q) ==> UnitSize(m, p) < UnitSize(m, q)
    ensures 1 <= UnitSize(m, p) <= MaxInt64
  {
    if Rank(p) < Rank(q) {
      PowStrictlyIncreasing(Base(m), Rank(p), Rank(q));
    }
    if Rank(p) < 6 {
      PowStrictlyIncreasing(Base(m), Rank(p), 6);
    }
    LargestUnitInRange(m);
  }

  lemma LargestUnitInRange(m: Mode)
    ensures UnitSize(m, Exa) <= MaxInt64
  {
    if m == Binary {
      BinaryConstantValues();
    }
  }

  /** The six units of a mode in ascending order, all within range. */
  lemma UnitChain(m: Mode)
    ensures Byte < UnitSize(m, Kilo) < UnitSize(m, Mega) < UnitSize(m, Giga)
    ensures UnitSize(m, Giga) < UnitSize(m, Tera) < UnitSize(m, Peta)
    ensures UnitSize(m, Peta) < UnitSize(m, Exa) <= MaxInt64
  {
    UnitSizesOrdered(m, Unscaled, Kilo);
    UnitSizesOrdered(m, Kilo, Mega);
    UnitSizesOrdered(m, Mega, Giga);
    UnitSizesOrdered(m, Giga, Tera);
    UnitSizesOrdered(m, Tera, Peta);
    UnitSizesOrdered(m, Peta, Exa);
    UnitSizesOrdered(m, Exa, Exa);
  }

  /** The unit suffix printed after the number. */
  function Suffix(m: Mode, p: Scale): string
  {
    match (m, p)
    case (_, Unscaled) => "B"
    case (Decimal, Kilo) => "KB"
    case (Decimal, Mega) => "MB"
    case (Decimal, Giga) => "GB"
    case (Decimal, Tera) => "TB"
    case (Decimal, Peta) => "PB"
    case (Decimal, Exa) => "EB"
    case (Binary, Kilo) => "KiB"
    case (Binary, Mega) => "MiB"
    case (Binary, Giga) => "GiB"
    case (Binary, Tera) => "TiB"
    case (Binary, Peta) => "PiB"
    case (Binary, Exa) => "EiB"
  }

  /** The renderers' switch: the first unit, from the largest down, whose
      constant does not exceed n; plain bytes when none does. */
  function Select(m: Mode, n: Size): (p: Scale)
    ensures p == Unscaled <==> n < UnitSize(m, Kilo)
    ensures UnitSize(m, p) <= n || p == Unscaled
    ensures forall q :: UnitSize(m, q) <= n ==> Rank(q) <= Rank(p) || q == Unscaled
  {
    UnitChain(m);
    if n >= UnitSize(m, Exa) then Exa
    else if n >= UnitSize(m, Peta) then Peta
    else if n >= UnitSize(m, Tera) then Tera
    else if n >= UnitSize(m, Giga) then Giga
    else if n >= UnitSize(m, Mega) then Mega
    else if n >= UnitSize(m, Kilo) then Kilo
    else Unscaled
  }

  /** The next larger unit, the largest being its own successor. */
  function Next(p: Scale): (q: Scale)
    ensures p != Exa ==> Rank(q) == Rank(p) + 1
  {
    match p
    case Unscaled => Kilo
    case Kilo => Mega
    case Mega => Giga
    case Giga => Tera
    case Tera => Peta
    case _ => Exa
  }

  /** The unscaled quotient of a selected unit lies in [1, base), except for
      the largest unit, which only has the lower bound. */
  lemma SelectedQuotientRange(m: Mode, n: Size)
    requires Select(m, n) != Unscaled
    ensures 1 <= n / UnitSize(m, Select(m, n))
    ensures Select(m, n) != Exa ==> n / UnitSize(m, Select(m, n)) < Base(m)
  {
    var p := Select(m, n);
    var c := UnitSize(m, p);
    QuotientBounds(n, c, Base(m));
    if p != Exa {
      assert n < UnitSize(m, Next(p)) by {
        UnitChain(m);
      }
      assert UnitSize(m, Next(p)) == Base(m) * c;
    }
  }

  /** A unit is selected exactly when its constant is at most n and the
      next larger unit's constant is above n. */
  lemma SelectIff(m: Mode, n: Size, p: Scale)
    requires p != Unscaled
    ensures Select(m, n) == p <==> UnitSize(m, p) <= n && (p == Exa || n < UnitSize(m, Next(p)))
  {
    UnitChain(m);
  }

  lemma QuotientBounds(n: nat, c: nat, k: nat)
    requires 0 < c <= n
    ensures 1 <= n / c
    ensures n < k * c ==> n / c < k
  {
    var q, r := n / c, n % c;
    assert n == q * c + r;
  }

  /** A larger count never selects a smaller unit. */
  lemma SelectMonotone(m: Mode, n1: Size, n2: Size)
    requires n1 <= n2
    ensures Rank(Select(m, n1)) <= Rank(Select(m, n2))
  {
  }

  function Abs(x: int): nat
  {
    if x < 0 then -x else x
  }

  /** `%.2f` of n/c evaluated exactly: the number of hundredths nearest to
      n/c, ties going to the even neighbour. */
  function RoundedCenti(n: nat, c: nat): (r: nat)
    requires c > 0
    ensures 2 * Abs(r * c - 100 * n) <= c
    ensures 2 * Abs(r * c - 100 * n) == c ==> r % 2 == 0
  {
    var t := 100 * n;
    var q, rem := t / c, t % c;
    assert q * c - t == -rem;
    assert (q + 1) * c - t == c - rem;
    if 2 * rem < c then q
    else if 2 * rem > c then q + 1
    else if q % 2 == 0 then q
    else q + 1
  }

  /** No other count of hundredths is as near and breaks ties the same way. */
  lemma RoundedCentiUnique(n: nat, c: nat, r: nat)
    requires c > 0
    requires 2 * Abs(r * c - 100 * n) <= c
    requires 2 * Abs(r * c - 100 * n) == c ==> r % 2 == 0
    ensures r == RoundedCenti(n, c)
  {
    var t := 100 * n;
    var q, rem := t / c, t % c;
    var d := r - q;
    assert r * c - t == d * c - rem by {
      assert t == q * c + rem;
      assert r * c == q * c + d * c;
    }
    MulBounds(d, c);
    assert d == 0 || d == 1;
  }

  lemma MulBounds(d: int, c: int)
    requires c > 0
    ensures d < 0 ==> d * c + c <= 0
    ensures d > 1 ==> d * c >= 2 * c
  {
    assert (d + 1) * c == d * c + c;
    assert (d - 2) * c == d * c - 2 * c;
    if d < 0 {
      assert (d + 1) * c <= 0;
    } else if d > 1 {
      assert (d - 2) * c >= 0;
    }
  }

  /** The printed amount of a selected unit is at least 1.00 and, below the
      largest unit, at most the base: rounding can reach "1000.00KB" or
      "1024.00KiB" but never beyond. */
  lemma DisplayedRange(m: Mode, n: Size)
    requires Select(m, n) != Unscaled
    ensures var c := UnitSize(m, Select(m, n));
            100 <= RoundedCenti(n, c)
            && (Select(m, n) != Exa ==> RoundedCenti(n, c) <= 100 * Base(m))
  {
    var p := Select(m, n);
    var c := UnitSize(m, p);
    var r := RoundedCenti(n, c);
    assert c <= n;
    CentiAtLeast(n, c, r);
    if p != Exa {
      SelectIff(m, n, p);
      assert UnitSize(m, Next(p)) == Base(m) * c;
      CentiAtMost(n, c, r, Base(m));
    }
  }

  lemma CentiAtLeast(n: nat, c: nat, r: nat)
    requires 0 < c <= n && 2 * Abs(r * c - 100 * n) <= c
    ensures 100 <= r
  {
    if r < 100 {
      MulBounds(r - 100, c);
    }
  }

  lemma CentiAtMost(n: nat, c: nat, r: nat, k: nat)
    requires 0 < c && n < k * c && 2 * Abs(r * c - 100 * n) <= c
    ensures r <= 100 * k
  {
    if r > 100 * k {
      var d := r - 100 * k;
      assert r * c == d * c + 100 * (k * c);
      MulBounds(d - 1, c);
    }
  }

  /** The text a renderer prints for n: the byte count and "B" below the
      smallest unit, otherwise the value in the selected unit to two decimals
      followed by that unit's suffix. */
  function Render(m: Mode, n: Size): (s: string)
    ensures EndsWith(s, Suffix(m, Select(m, n)))
  {
    var p := Select(m, n);
    if p == Unscaled then NatToDigits(n) + Suffix(m, p)
    else FixedTwo(RoundedCenti(n, UnitSize(m, p))) + Suffix(m, p)
  }

  /** Go's `Size.String`: decimal units, plain bytes below one Kilobyte. */
  function SizeString(s: Size): (r: string)
    ensures EndsWith(r, "B")
    ensures '.' in r <==> s >= Kilobyte
  {
    RenderShape(Decimal, s);
    SuffixShape(Decimal, Select(Decimal, s));
    Render(Decimal, s)
  }

  /** Go's `BinarySize.String`: binary units, plain bytes below one Kibibyte. */
  function BinarySizeString(b: Size): (r: string)
    ensures EndsWith(r, "B")
    ensures '.' in r <==> b >= Kibibyte
  {
    RenderShape(Binary, b);
    SuffixShape(Binary, Select(Binary, b));
    Render(Binary, b)
  }

  predicate EndsWith(s: string, t: string)
  {
    |t| <= |s| && s[|s| - |t|..] == t
  }

  /** What a rendered text says: its unit, and the amount in that unit, in
      bytes for plain bytes and in hundredths otherwise. */
  datatype Reading = Reading(scale: Scale, amount: nat)

  /** The unit whose suffix ends the text, the longer suffixes tried first. */
  function ScaleOf(m: Mode, s: string): Option<Scale>
  {
    if EndsWith(s, Suffix(m, Exa)) then Some(Exa)
    else if EndsWith(s, Suffix(m, Peta)) then Some(Peta)
    else if EndsWith(s, Suffix(m, Tera)) then Some(Tera)
    else if EndsWith(s, Suffix(m, Giga)) then Some(Giga)
    else if EndsWith(s, Suffix(m, Mega)) then Some(Mega)
    else if EndsWith(s, Suffix(m, Kilo)) then Some(Kilo)
    else if EndsWith(s, Suffix(m, Unscaled)) then Some(Unscaled)
    else None
  }

  /** Reads a rendered text back; None when it is not of a renderer's shape. */
  function ParseRendered(m: Mode, s: string): Option<Reading>
  {
    match ScaleOf(m, s)
    case None => None
    case Some(p) =>
      var body := s[..|s| - |Suffix(m, p)|];
      if p == Unscaled then
        if |body| > 0 && AllDigits(body) then Some(Reading(p, DigitsToNat(body))) else None
      else
        match ParseFixedTwo(body)
        case None => None
        case Some(centi) => Some(Reading(p, centi))
  }

  /** The next-to-last character of every unit suffix is a letter, never a
      digit, and within a mode all scaled suffixes have the same length. */
  lemma SuffixShape(m: Mode, p: Scale)
    ensures |Suffix(m, p)| >= 1 && Suffix(m, p)[|Suffix(m, p)| - 1] == 'B'
    ensures p != Unscaled ==> |Suffix(m, p)| == (if m == Decimal then 2 else 3)
    ensures p != Unscaled ==> !IsDigit(Suffix(m, p)[|Suffix(m, p)| - 2])
    ensures p != Unscaled ==> '.' !in Suffix(m, p)
  {
  }

  /** A suffix after a number identifies its unit: no scaled suffix ends a
      text whose number part is plain digits, and two distinct scaled
      suffixes never end the same text. */
  lemma ScaleOfSuffixed(m: Mode, body: string, p: Scale)
    requires p == Unscaled ==> |body| >= 1 && AllDigits(body)
    ensures ScaleOf(m, body + Suffix(m, p)) == Some(p)
  {
    var s := body + Suffix(m, p);
    forall q | q != Unscaled && q != p
      ensures !EndsWith(s, Suffix(m, q))
    {
      NotEndsWithOtherSuffix(m, body, p, q);
    }
    assert s[|s| - |Suffix(m, p)|..] == Suffix(m, p);
  }

  lemma NotEndsWithOtherSuffix(m: Mode, body: string, p: Scale, q: Scale)
    requires p == Unscaled ==> |body| >= 1 && AllDigits(body)
    requires q != Unscaled && q != p
    ensures !EndsWith(body + Suffix(m, p), Suffix(m, q))
  {
    var s := body + Suffix(m, p);
    var t := Suffix(m, q);
    SuffixShape(m, p);
    SuffixShape(m, q);
    if p != Unscaled {
      SuffixesDistinct(m, p, q);
    }
  }

  lemma SuffixesDistinct(m: Mode, p: Scale, q: Scale)
    requires p != q
    ensures Suffix(m, p) != Suffix(m, q)
  {
  }

  /** The suffix of a rendered text identifies the unit it was rendered in. */
  lemma ScaleOfRender(m: Mode, n: Size)
    ensures ScaleOf(m, Render(m, n)) == Some(Select(m, n))
  {
    var p := Select(m, n);
    if p == Unscaled {
      ScaleOfSuffixed(m, NatToDigits(n), p);
    } else {
      ScaleOfSuffixed(m, FixedTwo(RoundedCenti(n, UnitSize(m, p))), p);
    }
  }

  /** Reading a rendered text back recovers the unit the renderer chose and
      the amount it printed: the exact byte count below the smallest unit,
      otherwise the count of hundredths nearest to n over that unit. */
  lemma RenderRoundTrip(m: Mode, n: Size)
    ensures var p := Select(m, n);
            ParseRendered(m, Render(m, n))
            == Some(Reading(p, if p == Unscaled then n else RoundedCenti(n, UnitSize(m, p))))
  {
    var p := Select(m, n);
    var s := Render(m, n);
    var suffix := Suffix(m, p);
    ScaleOfRender(m, n);
    if p == Unscaled {
      var body := NatToDigits(n);
      assert s == body + suffix;
      assert s[..|s| - |suffix|] == body;
      DigitsRoundTrip(n);
    } else {
      var centi := RoundedCenti(n, UnitSize(m, p));
      var body := FixedTwo(centi);
      assert s == body + suffix;
      assert s[..|s| - |suffix|] == body;
      FixedTwoRoundTrip(centi);
    }
  }

  /** The fallback is exactly the case without a decimal point: it happens
      just below 1000 bytes in decimal mode and below 1024 in binary mode;
      every other text has two digits between the point and the suffix. */
  lemma RenderShape(m: Mode, n: Size)
    ensures '.' in Render(m, n) <==> n >= Base(m)
    ensures var s, k := Render(m, n), |Suffix(m, Select(m, n))|;
            n >= Base(m) ==> k + 3 <= |s| && s[|s| - k - 3] == '.'
                             && IsDigit(s[|s| - k - 2]) && IsDigit(s[|s| - k - 1])
  {
    var p := Select(m, n);
    var s := Render(m, n);
    var suffix := Suffix(m, p);
    var body := s[..|s| - |suffix|];
    assert s == body + suffix;
    SuffixShape(m, p);
    if p == Unscaled {
      assert body == NatToDigits(n);
      assert '.' !in body by {
        assert AllDigits(body);
      }
      assert '.' !in suffix;
    } else {
      assert body == FixedTwo(RoundedCenti(n, UnitSize(m, p)));
      assert s[|body| - 3] == '.';
    }
  }

  /** Go's `Bytes`: the count as an integer, unchanged. */
  function Bytes(s: Size): (r: int)
    ensures r == s
  {
    s
  }

  /** The accessors' shared computation `float64(whole) + float64(part)/divisor`
      with `whole, part := s / unit, s % unit` in Go's truncating division,
      evaluated exactly: the result is the exact quotient s / unit. */
  function WholePlusPart(s: Size, unit: nat, divisor: real): (r: real)
    requires unit > 0 && divisor == unit as real
    ensures r == s as real / unit as real
  {
    var (whole, part) := TruncDivMod(s, unit);
    SplitIsExact(s, whole, part, unit);
    whole as real + part as real / divisor
  }

  lemma SplitIsExact(s: int, whole: int, part: int, unit: nat)
    requires unit > 0 && whole * unit + part == s
    ensures whole as real + part as real / unit as real == s as real / unit as real
  {
    var u := unit as real;
    assert s as real == whole as real * u + part as real;
    assert (whole as real * u) / u == whole as real;
  }

  function Kibibytes(s: Size): (r: real)
    ensures r == s as real / Kibibyte as real
  {
    WholePlusPart(s, Kibibyte, ShiftLeft(1, 10) as real)
  }

  function Kilobytes(s: Size): (r: real)
    ensures r == s as real / Kilobyte as real
  {
    WholePlusPart(s, Kilobyte, 1000.0)
  }

  function Mebibytes(s: Size): (r: real)
    ensures r == s as real / Mebibyte as real
  {
    WholePlusPart(s, Mebibyte, ShiftLeft(1, 10 * 2) as real)
  }

  function Megabytes(s: Size): (r: real)
    ensures r == s as real / Megabyte as real
  {
    WholePlusPart(s, Megabyte, 1000000.0)
  }

  function Gibibytes(s: Size): (r: real)
    ensures r == s as real / Gibibyte as real
  {
    WholePlusPart(s, Gibibyte, ShiftLeft(1, 10 * 3) as real)
  }

  function Gigabytes(s: Size): (r: real)
    ensures r == s as real / Gigabyte as real
  {
    WholePlusPart(s, Gigabyte, 1000000000.0)
  }

  function Tebibytes(s: Size): (r: real)
    ensures r == s as real / Tebibyte as real
  {
    WholePlusPart(s, Tebibyte, ShiftLeft(1, 10 * 4) as real)
  }

  function Terabytes(s: Size): (r: real)
    ensures r == s as real / Terabyte as real
  {
    WholePlusPart(s, Terabyte, 1000000000000.0)
  }

  function Pebibytes(s: Size): (r: real)
    ensures r == s as real / Pebibyte as real
  {
    WholePlusPart(s, Pebibyte, ShiftLeft(1, 10 * 5) as real)
  }

  function Petabytes(s: Size): (r: real)
    ensures r == s as real / Petabyte as real
  {
    WholePlusPart(s, Petabyte, 1000000000000000.0)
  }

  function Exbibytes(s: Size): (r: real)
    ensures r == s as real / Exbibyte as real
  {
    WholePlusPart(s, Exbibyte, ShiftLeft(1, 10 * 6) as real)
  }

  function Exabytes(s: Size): (r: real)
    ensures r == s as real / Exabyte as real
  {
    WholePlusPart(s, Exabyte, 1000000000000000000.0)
  }

  /** The accessor of unit p in mode m (Kibibytes .. Exbibytes in binary
      mode, Kilobytes .. Exabytes in decimal mode). */
  function InUnit(m: Mode, p: Scale, s: Size): real
    requires p != Unscaled
  {
    match (m, p)
    case (Decimal, Kilo) => Kilobytes(s)
    case (Decimal, Mega) => Megabytes(s)
    case (Decimal, Giga) => Gigabytes(s)
    case (Decimal, Tera) => Terabytes(s)
    case (Decimal, Peta) => Petabytes(s)
    case (Decimal, Exa) => Exabytes(s)
    case (Binary, Kilo) => Kibibytes(s)
    case (Binary, Mega) => Mebibytes(s)
    case (Binary, Giga) => Gibibytes(s)
    case (Binary, Tera) => Tebibytes(s)
    case (Binary, Peta) => Pebibytes(s)
    case (Binary, Exa) => Exbibytes(s)
  }

  /** Each accessor is the exact quotient by its own unit's constant. */
  lemma InUnitIsQuotient(m: Mode, p: Scale, s: Size)
    requires p != Unscaled
    ensures InUnit(m, p, s) == s as real / UnitSize(m, p) as real
  {
  }

  /** Every accessor reports zero for no bytes, exactly one at its own unit,
      and grows with the count. */
  lemma AccessorEdges(m: Mode, p: Scale, s1: Size, s2: Size)
    requires p != Unscaled
    ensures InUnit(m, p, 0) == 0.0
    ensures InUnit(m, p, UnitSize(m, p) as Size) == 1.0
    ensures s1 <= s2 ==> InUnit(m, p, s1) <= InUnit(m, p, s2)
  {
    var c := UnitSize(m, p);
    InUnitIsQuotient(m, p, 0);
    InUnitIsQuotient(m, p, c);
    InUnitIsQuotient(m, p, s1);
    InUnitIsQuotient(m, p, s2);
    QuotientFacts(c, s1, s2);
  }

  lemma QuotientFacts(c: nat, a: nat, b: nat)
    requires c > 0
    ensures 0 as real / c as real == 0.0 && c as real / c as real == 1.0
    ensures a <= b ==> a as real / c as real <= b as real / c as real
  {
  }
}
