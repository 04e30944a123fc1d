/** Decoders for the packed 64-bit network identifiers: the NE number (PLMN and
    ECI), the eNodeB/sector split of an ECI and the GUMMEI fields. The
    identifier arrives as a decimal-digit string; `Long.fromString(val, true, 10)`
    reads it as an unsigned 64-bit value, here a `nat` below 2^64. */
module Decoders {
  import opened Bits
  import opened Text

  // The masks and shifts of the packed identifiers, as the protocol fixes them.
  /** The 28-bit E-UTRAN cell identity. */
  const ECI_MASK: nat := 0xfffffff
  /** The eNodeB part of an ECI (0 to 1048575 once shifted). */
  const NODEB_MASK: nat := 0xfffff00
  const NODEB_MASK_POS: nat := 8
  /** The sector part of an ECI (0 to 255). */
  const SECTOR_MASK: nat := 0xff
  /** The PLMN sits above the ECI, 20 bits wide. */
  const PLMN_SHIFT: nat := 28
  const PLMN_MASK: nat := 0xfffff
  /** The NE number puts the PLMN in front of nine decimal digits of ECI. */
  const ECI_DIVISOR: nat := 1_000_000_000
  /** Identifiers are unsigned 64-bit values. */
  const UINT64_BOUND: nat := 0x1_0000_0000_0000_0000

  /** All characters of s are digits of the radix. */
  predicate AllDigits(s: string, radix: nat)
  {
    forall i :: 0 <= i < |s| ==> IsDigit(s[i], radix)
  }

  /** A decimal-digit string that `Long.fromString(val, true, 10)` reads as an
      unsigned 64-bit value without overflow. */
  predicate IsUint64Text(s: string)
  {
    s != [] && AllDigits(s, 10) && ParseRadix(s, 10) < UINT64_BOUND
  }

  /** A character that is not a digit of the radix does not occur in a string
      of such digits. */
  lemma NotADigit(s: string, radix: nat, c: char)
    requires AllDigits(s, radix) && !IsDigit(c, radix)
    ensures c !in s
  {
    forall i | 0 <= i < |s|
      ensures s[i] != c
    {
      assert IsDigit(s[i], radix);
    }
  }

  // ---------------------------------------------------------------------------
  // NE: PLMN * 10^9 + ECI

  /** The PLMN and ECI fields of the NE handler, read through the masks. */
  lemma NeFields(v: nat)
    ensures BitAnd(ShiftRight(v, PLMN_SHIFT), PLMN_MASK) == (v / 0x1000_0000) % 0x10_0000
    ensures BitAnd(v, ECI_MASK) == v % 0x1000_0000
  {
    PowersOfTwo();
    ShiftRightDiv(v, 28);
    AndLowOnes(v / 0x1000_0000, 20);
    AndLowOnes(v, 28);
  }

  /** The number the NE handler prints: the 20-bit PLMN above bit 28 times
      10^9 plus the 28-bit ECI. Because the ECI is below 2^28 < 10^9, the
      quotient by 10^9 is the PLMN and the remainder is the ECI. */
  function NeNumber(v: nat): (n: nat)
    ensures n / ECI_DIVISOR == (v / 0x1000_0000) % 0x10_0000
    ensures n % ECI_DIVISOR == v % 0x1000_0000
  {
    var plmn := BitAnd(ShiftRight(v, PLMN_SHIFT), PLMN_MASK);
    var eci := BitAnd(v, ECI_MASK);
    NeFields(v);
    DivModUnique(plmn * ECI_DIVISOR + eci, ECI_DIVISOR, plmn, eci);
    plmn * ECI_DIVISOR + eci
  }

  /** The decimal text of the NE number reads back as PLMN and ECI. */
  lemma NeTextRoundTrip(v: nat)
    ensures CanonicalDecimal(ToRadix(NeNumber(v), 10))
    ensures ParseRadix(ToRadix(NeNumber(v), 10), 10) / ECI_DIVISOR == (v / 0x1000_0000) % 0x10_0000
    ensures ParseRadix(ToRadix(NeNumber(v), 10), 10) % ECI_DIVISOR == v % 0x1000_0000
  {
    ToRadixCanonical(NeNumber(v));
    ParseToRadix(NeNumber(v), 10);
  }

  /** Those facts pin the text: a canonical decimal text whose quotient and
      remainder by 10^9 are the PLMN and the ECI is the NE number's text. */
  lemma NeTextUnique(v: nat, t: string)
    requires CanonicalDecimal(t)
    requires ParseRadix(t, 10) / ECI_DIVISOR == (v / 0x1000_0000) % 0x10_0000
    requires ParseRadix(t, 10) % ECI_DIVISOR == v % 0x1000_0000
    ensures t == ToRadix(NeNumber(v), 10)
  {
    SameDivMod(ParseRadix(t, 10), NeNumber(v), ECI_DIVISOR);
    CanonicalDecimalUnique(t);
  }

  /** Only bits 0..47 of the identifier affect the NE number. */
  lemma NeLow48(v: nat)
    ensures NeNumber(v) == NeNumber(v % 0x1_0000_0000_0000)
  {
    var w := v % 0x1_0000_0000_0000;
    ModSplit(v, 0x1000_0000, 0x10_0000);
    var q := v / 0x1000_0000;
    ModIdempotent(q, 0x10_0000);
    assert (w / 0x1000_0000) % 0x10_0000 == q % 0x10_0000;
    SameDivMod(NeNumber(v), NeNumber(w), ECI_DIVISOR);
  }

  /** Taking a remainder twice is taking it once. */
  lemma ModIdempotent(x: nat, m: nat)
    requires m > 0
    ensures (x % m) % m == x % m
  {
    DivModUnique(x % m, m, 0, x % m);
  }

  /** Two numbers with the same quotient and remainder are equal. */
  lemma SameDivMod(n: nat, m: nat, d: nat)
    requires d > 0 && n / d == m / d && n % d == m % d
    ensures n == m
  {
    DivRebuild(n, d);
    DivRebuild(m, d);
  }

  // ---------------------------------------------------------------------------
  // LteEnbId: eNodeB and sector of the ECI

  /** The ECI of the eNodeB-id handler: the low 32 bits
      (`getLowBitsUnsigned`) masked with ECI_MASK. */
  function LteEci(v: nat): (eci: nat)
    ensures eci == v % 0x1000_0000
  {
    PowersOfTwo();
    AndLowOnes(v % 0x1_0000_0000, 28);
    ModSplit(v, 0x1000_0000, 0x10);
    BitAnd(v % 0x1_0000_0000, ECI_MASK)
  }

  /** The eNodeB and sector of an identifier: the eNodeB is below 2^20, the
      sector below 256, and together they rebuild the 28-bit ECI. */
  function EnbSector(v: nat): (f: (nat, nat))
    ensures f.0 < 0x10_0000 && f.1 < 0x100
    ensures f.0 * 0x100 + f.1 == v % 0x1000_0000
  {
    var eci := LteEci(v);
    var eNodeB := ShiftRight(BitAnd(eci, NODEB_MASK), NODEB_MASK_POS);
    var sector := BitAnd(eci, SECTOR_MASK);
    EnbSectorFields(eci);
    (eNodeB, sector)
  }

  /** The masks of EnbSector, read as division and remainder. */
  lemma EnbSectorFields(eci: nat)
    requires eci < 0x1000_0000
    ensures ShiftRight(BitAnd(eci, NODEB_MASK), NODEB_MASK_POS) == eci / 0x100
    ensures BitAnd(eci, SECTOR_MASK) == eci % 0x100
    ensures eci / 0x100 < 0x10_0000
  {
    ENodeBField(eci);
    PowersOfTwo();
    AndLowOnes(eci, 8);
  }

  /** The eNodeB mask and shift of an ECI are division by 256. */
  lemma ENodeBField(eci: nat)
    requires eci < 0x1000_0000
    ensures ShiftRight(BitAnd(eci, NODEB_MASK), NODEB_MASK_POS) == eci / 0x100
    ensures eci / 0x100 < 0x10_0000
  {
    var a := eci / 0x100;
    assert Pow(2, 8) == 0x100;
    ShiftRightDiv(eci, 8);
    ShiftRightDiv(NODEB_MASK, 8);
    assert ShiftRight(NODEB_MASK, 8) == PLMN_MASK;
    AndShiftRight(eci, NODEB_MASK, 8);
    assert ShiftRight(BitAnd(eci, NODEB_MASK), 8) == BitAnd(a, PLMN_MASK);
    DivBelow(eci, 0x100, 0x10_0000);
    PowersOfTwo();
    AndLowOnes(a, 20);
    DivModUnique(a, 0x10_0000, 0, a);
  }

  /** The text of the eNodeB-id handler: "eNodeB.sector" in decimal. */
  function EnbSectorText(v: nat): string
  {
    var f := EnbSector(v);
    ToRadix(f.0, 10) + "." + ToRadix(f.1, 10)
  }

  /** Splitting the text at the dot and reading both parts back rebuilds the
      28-bit ECI. */
  lemma EnbSectorTextRoundTrip(v: nat)
    ensures |Split(EnbSectorText(v), '.')| == 2
    ensures CanonicalDecimal(Split(EnbSectorText(v), '.')[0])
    ensures CanonicalDecimal(Split(EnbSectorText(v), '.')[1])
    ensures ParseRadix(Split(EnbSectorText(v), '.')[0], 10) < 0x10_0000
    ensures ParseRadix(Split(EnbSectorText(v), '.')[1], 10) < 0x100
    ensures ParseRadix(Split(EnbSectorText(v), '.')[0], 10) * 0x100
          + ParseRadix(Split(EnbSectorText(v), '.')[1], 10) == v % 0x1000_0000
  {
    var f := EnbSector(v);
    var a, b := ToRadix(f.0, 10), ToRadix(f.1, 10);
    ToRadixCanonical(f.0);
    ToRadixCanonical(f.1);
    NotADigit(a, 10, '.');
    NotADigit(b, 10, '.');
    assert Join([a, b], ".") == EnbSectorText(v);
    SplitJoin([a, b], '.');
    ParseToRadix(f.0, 10);
    ParseToRadix(f.1, 10);
  }

  /** Those facts pin the text: two canonical decimal parts below 2^20 and
      256 that rebuild the 28-bit ECI are the eNodeB-id text's parts. */
  lemma EnbSectorTextUnique(v: nat, t: string)
    requires |Split(t, '.')| == 2
    requires CanonicalDecimal(Split(t, '.')[0]) && CanonicalDecimal(Split(t, '.')[1])
    requires ParseRadix(Split(t, '.')[0], 10) < 0x10_0000 && ParseRadix(Split(t, '.')[1], 10) < 0x100
    requires ParseRadix(Split(t, '.')[0], 10) * 0x100 + ParseRadix(Split(t, '.')[1], 10) == v % 0x1000_0000
    ensures t == EnbSectorText(v)
  {
    var parts := Split(t, '.');
    var a, b := ParseRadix(parts[0], 10), ParseRadix(parts[1], 10);
    var f := EnbSector(v);
    DivModUnique(v % 0x1000_0000, 0x100, a, b);
    DivModUnique(v % 0x1000_0000, 0x100, f.0, f.1);
    CanonicalDecimalUnique(parts[0]);
    CanonicalDecimalUnique(parts[1]);
    JoinSplit(t, '.');
    assert parts[1..] == [parts[1]];
  }

  // ---------------------------------------------------------------------------
  // GUMMEI: mcc.mnc.mmegi.mmec sliced from the hexadecimal text

  /** The MNC with the filler digit 'f' of a two-digit MNC removed. */
  function StripFiller(mnc: string): (r: string)
    ensures |mnc| > 0 && mnc[0] == 'f' ==> r == mnc[1..]
    ensures (|mnc| == 0 || mnc[0] != 'f') ==> r == mnc
  {
    if |mnc| > 0 && mnc[0] == 'f' then mnc[1..] else mnc
  }

  /** The text of the GUMMEI handler, sliced from the lower-case hexadecimal
      text of the identifier as the source does it: everything but the last 9
      digits, the 3 digits after that less a filler 'f', 4 digits read as a
      number, and the last 2 digits read as a number and padded to 3
      characters. */
  function GummeiText(v: nat): string
  {
    GummeiOfHex(ToRadix(v, 16))
  }

  /** The slicing of GummeiText on the hexadecimal text itself. */
  function GummeiOfHex(hex: string): string
  {
    var mcc := Slice(hex, 0, -9);
    var mnc := StripFiller(Slice(hex, -9, -6));
    var mmegi := NumberText(ParseInt(Slice(hex, -6, -2), 16));
    var mmec := PadStart(NumberText(ParseInt(Slice(hex, -2, |hex|), 16)), 3, '0');
    mcc + "." + mnc + "." + mmegi + "." + mmec
  }

  /** Every GUMMEI text, whatever the identifier, has exactly three dots, and
      its last part, the MMEC, has at least 3 characters. */
  lemma GummeiTextParts(v: nat)
    ensures |Split(GummeiText(v), '.')| == 4
    ensures |Split(GummeiText(v), '.')[3]| >= 3
  {
    var hex := ToRadix(v, 16);
    NotADigit(hex, 16, '.');
    GummeiOfHexParts(hex);
  }

  /** The slicing of a text without dots puts exactly three dots in. */
  lemma GummeiOfHexParts(hex: string)
    requires '.' !in hex
    ensures |Split(GummeiOfHex(hex), '.')| == 4
    ensures |Split(GummeiOfHex(hex), '.')[3]| >= 3
  {
    var mcc := Slice(hex, 0, -9);
    var mnc := StripFiller(Slice(hex, -9, -6));
    var mmegi := NumberText(ParseInt(Slice(hex, -6, -2), 16));
    var mmec := PadStart(NumberText(ParseInt(Slice(hex, -2, |hex|), 16)), 3, '0');
    NoDotInSlice(hex, 0, -9);
    NoDotInSlice(hex, -9, -6);
    NoDotInNumberText(ParseInt(Slice(hex, -6, -2), 16));
    NoDotInNumberText(ParseInt(Slice(hex, -2, |hex|), 16));
    NoDotPadded(NumberText(ParseInt(Slice(hex, -2, |hex|), 16)));
    SplitFour(mcc, mnc, mmegi, mmec, '.');
  }

  /** A slice of a text without dots has none. */
  lemma NoDotInSlice(s: string, start: int, end: int)
    requires '.' !in s
    ensures '.' !in Slice(s, start, end)
    ensures '.' !in StripFiller(Slice(s, start, end))
  {
    var r := Slice(s, start, end);
    forall i | 0 <= i < |r|
      ensures r[i] != '.'
    {
      assert r[i] == s[SlicePosition(start, |s|) + i];
    }
  }

  /** A number written into a template has no dot: it is digits or "NaN". */
  lemma NoDotInNumberText(r: Option<nat>)
    ensures '.' !in NumberText(r)
  {
    if r.Some? {
      NotADigit(ToRadix(r.value, 10), 10, '.');
    }
  }

  /** Padding a text without dots with '0' adds none. */
  lemma NoDotPadded(s: string)
    requires '.' !in s
    ensures '.' !in PadStart(s, 3, '0')
  {
    var r := PadStart(s, 3, '0');
    forall i | 0 <= i < |r|
      ensures r[i] != '.'
    {
      if i >= |r| - |s| {
        assert r[i] == r[|r| - |s|..][i - (|r| - |s|)];
      }
    }
  }

  /** Slicing a hexadecimal text of at least 10 digits, cut as m + a + b + c
      with |a| = 3, |b| = 4 and |c| = 2. */
  lemma GummeiOfHexPieces(m: string, a: string, b: string, c: string)
    requires |m| >= 1 && |a| == 3 && |b| == 4 && |c| == 2
    requires AllDigits(b, 16) && AllDigits(c, 16)
    ensures GummeiOfHex(m + a + b + c)
         == Join([m, StripFiller(a), ToRadix(ParseRadix(b, 16), 10),
                  PadStart(ToRadix(ParseRadix(c, 16), 10), 3, '0')], ".")
  {
    var hex := m + a + b + c;
    var k := |m|;
    assert Slice(hex, 0, -9) == hex[0..k] == m;
    assert Slice(hex, -9, -6) == hex[k..k + 3] == a;
    assert Slice(hex, -6, -2) == hex[k + 3..k + 7] == b;
    assert Slice(hex, -2, |hex|) == hex[k + 7..k + 9] == c;
    assert NumberText(ParseInt(b, 16)) == ToRadix(ParseRadix(b, 16), 10);
    assert NumberText(ParseInt(c, 16)) == ToRadix(ParseRadix(c, 16), 10);
    JoinFour(m, StripFiller(a), ToRadix(ParseRadix(b, 16), 10),
             PadStart(ToRadix(ParseRadix(c, 16), 10), 3, '0'), ".");
  }


  /** The four GUMMEI fields as bit fields of the identifier:
      mcc = hex of v >> 36, mnc = 3 hex digits of (v >> 24) & 0xfff less a
      leading filler 'f', mmegi = decimal of (v >> 8) & 0xffff, mmec = decimal
      of v & 0xff padded with zeros to 3 characters. */
  function GummeiFields(v: nat): seq<string>
  {
    [ ToRadix(ShiftRight(v, 36), 16),
      StripFiller(FixedDigits(BitAnd(ShiftRight(v, 24), 0xfff), 16, 3)),
      ToRadix(BitAnd(ShiftRight(v, 8), 0xffff), 10),
      PadStart(ToRadix(BitAnd(v, 0xff), 10), 3, '0') ]
  }

  /** The hexadecimal text of an identifier of at least 10 hex digits, cut
      where the GUMMEI handler slices it. */
  lemma HexLayout(v: nat)
    requires 0x10_0000_0000 <= v
    ensures ToRadix(v, 16) == ToRadix(v / 0x10_0000_0000, 16) + FixedDigits(v / 0x100_0000, 16, 3)
                            + FixedDigits(v / 0x100, 16, 4) + FixedDigits(v, 16, 2)
  {
    PowersOfSixteen();
    var v2 := v / 0x100;
    var v6 := v2 / 0x1_0000;
    ToRadixSplit(v, 16, 2);
    DivBelow(v, 0x100, 0x1000_0000);
    ToRadixSplit(v2, 16, 4);
    ModSplit(v, 0x100, 0x1_0000);
    DivBelow(v, 0x100_0000, 0x1000);
    ToRadixSplit(v6, 16, 3);
    ModSplit(v, 0x100_0000, 0x1000);
  }

  /** The bit fields behind the slices of the hexadecimal text. */
  lemma GummeiBitFields(v: nat)
    ensures ToRadix(ShiftRight(v, 36), 16) == ToRadix(v / 0x10_0000_0000, 16)
    ensures FixedDigits(BitAnd(ShiftRight(v, 24), 0xfff), 16, 3) == FixedDigits(v / 0x100_0000, 16, 3)
    ensures BitAnd(ShiftRight(v, 8), 0xffff) == ParseRadix(FixedDigits(v / 0x100, 16, 4), 16)
    ensures BitAnd(v, 0xff) == ParseRadix(FixedDigits(v, 16, 2), 16)
  {
    PowersOfTwo();
    PowersOfSixteen();
    ShiftRightDiv(v, 36);
    ShiftRightDiv(v, 24);
    AndLowOnes(v / 0x100_0000, 12);
    FixedDigitsMod(v / 0x100_0000, 16, 3);
    ShiftRightDiv(v, 8);
    AndLowOnes(v / 0x100, 16);
    ParseFixedDigits(v / 0x100, 16, 4);
    AndLowOnes(v, 8);
    ParseFixedDigits(v, 16, 2);
  }

  /** For an identifier of at least 10 hex digits the GUMMEI text is the four
      bit fields joined by dots. */
  lemma GummeiJoin(v: nat)
    requires 0x10_0000_0000 <= v
    ensures GummeiText(v) == Join(GummeiFields(v), ".")
  {
    var m := ToRadix(v / 0x10_0000_0000, 16);
    var a := FixedDigits(v / 0x100_0000, 16, 3);
    var b := FixedDigits(v / 0x100, 16, 4);
    var c := FixedDigits(v, 16, 2);
    HexLayout(v);
    GummeiOfHexPieces(m, a, b, c);
    GummeiBitFields(v);
  }

  /** For an identifier of at least 10 hex digits, splitting the GUMMEI text
      at the dots gives back the four bit fields, and the MME code has
      exactly 3 characters. */
  lemma GummeiLayout(v: nat)
    requires 0x10_0000_0000 <= v
    ensures Split(GummeiText(v), '.') == GummeiFields(v)
    ensures |GummeiFields(v)[3]| == 3
  {
    GummeiJoin(v);
    ToRadixLength(BitAnd(v, 0xff), 10, 3);
    FieldsHaveNoDot(v);
    SplitJoin(GummeiFields(v), '.');
  }

  /** No GUMMEI field contains a dot. */
  lemma FieldsHaveNoDot(v: nat)
    ensures forall i :: 0 <= i < |GummeiFields(v)| ==> '.' !in GummeiFields(v)[i]
  {
    var fields := GummeiFields(v);
    NotADigit(fields[0], 16, '.');
    var mnc := FixedDigits(BitAnd(ShiftRight(v, 24), 0xfff), 16, 3);
    NotADigit(mnc, 16, '.');
    assert '.' !in fields[1];
    NotADigit(fields[2], 10, '.');
    var mmec := ToRadix(BitAnd(v, 0xff), 10);
    NotADigit(mmec, 10, '.');
    var padded := fields[3];
    forall i | 0 <= i < |padded|
      ensures padded[i] != '.'
    {
      if i >= |padded| - |mmec| {
        assert padded[i] == padded[|padded| - |mmec|..][i - (|padded| - |mmec|)];
      }
    }
  }
}
