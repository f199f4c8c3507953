/**
 Size arithmetic of the SMBIOS decoder: a number of bytes or kibibytes is split into groups
 of ten bits, and the unit is chosen so that at most two groups are shown.
 */
module Sizes {
  import opened Bytes
  import opened UnitTokens
  import Prefixes

  /** code without its lowest k groups of ten bits. */
  function Shift(code: nat, k: nat): nat {
    if k == 0 then code else Shift(code, k - 1) / 1024
  }

  function Group(code: nat, k: nat): nat {
    Shift(code, k) % 1024
  }

  /** 1024 to the k. */
  function Weight(k: nat): (w: nat)
    ensures w > 0
  {
    if k == 0 then 1 else 1024 * Weight(k - 1)
  }

  /** The highest group from k down that is not zero, or group 0. */
  function Top(code: nat, k: nat): (t: nat)
    ensures t <= k && (t > 0 ==> Group(code, t) != 0)
    ensures forall j :: t < j <= k ==> Group(code, j) == 0
  {
    if k == 0 || Group(code, k) != 0 then k else Top(code, k - 1)
  }

  /** The group that the printed number is expressed in. */
  function Base(code: nat): nat {
    var t := Top(code, 6);
    if t > 0 && Group(code, t - 1) != 0 then t - 1 else t
  }

  /** Splits the code and picks the base: at most the two highest groups make up the number. */
  method MemorySize(code: u64) returns (capacity: nat, base: nat)
    ensures base == Base(code) && base <= 6
    ensures capacity == Shift(code, base)
  {
    var split := new nat[7];
    for k := 0 to 7
      invariant forall j :: 0 <= j < k ==> split[j] == Group(code, j)
    {
      split[k] := Group(code, k);
    }
    var i := 6;
    while i > 0 && split[i] == 0
      invariant 0 <= i <= 6 && Top(code, i) == Top(code, 6)
    {
      i := i - 1;
    }
    TwoGroups(code);
    if i > 0 && split[i - 1] != 0 {
      i := i - 1;
      capacity := split[i] + 1024 * split[i + 1];
    } else {
      capacity := split[i];
    }
    base := i;
  }

  lemma NothingAbove(code: nat)
    requires code < 0x1_0000_0000_0000_0000
    ensures Shift(code, 7) == 0
  {
    var s1 := code / 1024;
    var s2 := s1 / 1024;
    var s3 := s2 / 1024;
    var s4 := s3 / 1024;
    var s5 := s4 / 1024;
    var s6 := s5 / 1024;
    assert Shift(code, 1) == s1;
    assert Shift(code, 2) == s2;
    assert Shift(code, 3) == s3;
    assert Shift(code, 4) == s4;
    assert Shift(code, 5) == s5;
    assert Shift(code, 6) == s6 < 1024;
  }

  lemma {:induction false} ZeroAboveTop(code: nat, k: nat)
    requires code < 0x1_0000_0000_0000_0000 && Top(code, 6) < k <= 7
    ensures Shift(code, k) == 0
    decreases 7 - k
  {
    NothingAbove(code);
    if k < 7 {
      ZeroAboveTop(code, k + 1);
      assert Shift(code, k) == 1024 * Shift(code, k + 1) + Group(code, k);
    }
  }

  /** From the base on, there are at most two groups. */
  lemma TwoGroups(code: nat)
    requires code < 0x1_0000_0000_0000_0000
    ensures var b, t := Base(code), Top(code, 6);
      Shift(code, b) == Group(code, b) + if b < t then 1024 * Group(code, b + 1) else 0
  {
    var t := Top(code, 6);
    ZeroAboveTop(code, t + 1);
    assert Shift(code, t) == 1024 * Shift(code, t + 1) + Group(code, t);
    if t > 0 {
      assert Shift(code, t - 1) == 1024 * Shift(code, t) + Group(code, t - 1);
    }
  }

  /** What is cut off when only the groups from k on are shown. */
  function CutOff(code: nat, k: nat): int {
    code - Shift(code, k) * Weight(k)
  }

  lemma {:induction false} CutOffBounds(code: nat, k: nat)
    ensures 0 <= CutOff(code, k) < Weight(k)
    ensures k > 0 ==> CutOff(code, k) == CutOff(code, k - 1) + Group(code, k - 1) * Weight(k - 1)
    ensures CutOff(code, k) == 0 <==> forall j :: 0 <= j < k ==> Group(code, j) == 0
  {
    if k > 0 {
      CutOffBounds(code, k - 1);
      var h, g, w := Shift(code, k), Group(code, k - 1), Weight(k - 1);
      assert Shift(code, k - 1) == 1024 * h + g && Weight(k) == 1024 * w;
      hide Shift, Weight, Group;
      Distribute(h, g, w);
      DigitWeight(g, w);
      assert CutOff(code, k) == CutOff(code, k - 1) + g * w;
    }
  }

  lemma Distribute(h: nat, g: nat, w: nat)
    ensures (1024 * h + g) * w == h * (1024 * w) + g * w
  {
    assert 1024 * h * w == h * (1024 * w);
  }

  lemma DigitWeight(g: nat, w: nat)
    requires g < 1024 && w > 0
    ensures 0 <= g * w <= 1023 * w
    ensures g * w == 0 <==> g == 0
  {
  }

  /**
   The printed number is the size in the chosen unit, rounded down: it is below 2 to the 20,
   what is cut off is less than a 1024th of a non-zero size, and nothing is cut off exactly
   when no lower group is set.
   */
  lemma CapacityExact(code: u64)
    ensures var b := Base(code);
      var capacity := Shift(code, b);
      && capacity < 0x10_0000
      && b <= 6 && Weight(b) == UnitBytes(BinaryUnit(b))
      && capacity * Weight(b) <= code < (capacity + 1) * Weight(b)
      && (code > 0 ==> (code - capacity * Weight(b)) * 1024 < code)
      && (code == capacity * Weight(b) <==> forall j :: 0 <= j < b ==> Group(code, j) == 0)
  {
    var b, t := Base(code), Top(code, 6);
    var capacity, w := Shift(code, b), Weight(b);
    TwoGroups(code);
    CutOffBounds(code, b);
    assert code == capacity * w + CutOff(code, b);
    OneMore(capacity, w);
    DenotesAmount(Size(1, b));
    if code > 0 {
      CutOffSmall(code);
    }
  }

  lemma OneMore(a: nat, w: nat)
    ensures (a + 1) * w == a * w + w
  {
  }

  /** What the chosen base cuts off is less than a 1024th of the size. */
  lemma CutOffSmall(code: u64)
    requires code > 0
    ensures CutOff(code, Base(code)) * 1024 < code
  {
    var b := Base(code);
    hide Shift, Group, Base, Top;
    CapacityLarge(code);
    CutOffBounds(code, b);
    if 0 < b == Top(code, 6) {
      CutOffBounds(code, b - 1);
      assert Weight(b) == 1024 * Weight(b - 1);
    }
    assert b == 0 ==> Weight(b) == 1;
    assert code == Shift(code, b) * Weight(b) + CutOff(code, b);
    hide *;
    RestSmall(Shift(code, b), if b < Top(code, 6) then 1024 else 1, Weight(b), CutOff(code, b));
  }

  lemma RestSmall(capacity: nat, least: nat, w: nat, rest: nat)
    requires capacity >= least && rest * 1024 < least * w
    ensures rest * 1024 < capacity * w + rest
  {
    AtLeast(capacity, least, w);
  }

  /** A capacity of two groups is large, and below a single one the next group is not set. */
  lemma CapacityLarge(code: u64)
    requires code > 0
    ensures var b, t := Base(code), Top(code, 6);
      && Shift(code, b) >= (if b < t then 1024 else 1)
      && (0 < b == t ==> Group(code, b - 1) == 0)
  {
    TwoGroups(code);
  }

  lemma AtLeast(a: nat, b: nat, w: nat)
    requires a >= b
    ensures a * w >= b * w
  {
  }

  // ----- The texts that carry sizes

  /** Decimal digits of n. */
  function Decimal(n: nat): (s: string)
    ensures s != "" && '@' !in s
  {
    var digit := ['0', '1', '2', '3', '4', '5', '6', '7', '8', '9'][n % 10];
    if n < 10 then [digit] else Decimal(n / 10) + [digit]
  }

  function PowerOfTen(k: nat): nat {
    if k == 0 then 1 else 10 * PowerOfTen(k - 1)
  }

  lemma {:induction false} DecimalLength(n: nat, k: nat)
    requires k > 0 && n < PowerOfTen(k)
    ensures |Decimal(n)| <= k
    decreases k
  {
    if n >= 10 {
      DecimalLength(n / 10, k - 1);
    }
  }

  /** The value that a decimal text denotes. */
  function Value(s: string): nat {
    if s == "" then 0
    else 10 * Value(s[..|s| - 1]) + (if '0' <= s[|s| - 1] <= '9' then s[|s| - 1] as nat - '0' as nat else 0)
  }

  lemma {:induction false} DecimalValue(n: nat)
    ensures Value(Decimal(n)) == n
  {
    var digit := ['0', '1', '2', '3', '4', '5', '6', '7', '8', '9'][n % 10];
    assert digit as nat - '0' as nat == n % 10;
    if n >= 10 {
      DecimalValue(n / 10);
      assert Decimal(n)[..|Decimal(n)| - 1] == Decimal(n / 10);
    } else {
      assert [digit][..0] == "";
    }
  }

  function BinaryUnit(rank: nat): Unit
    requires rank <= 6
  {
    [UnitTokens.Unit.Bytes, KIB, MIB, GIB, TIB, PIB, EIB][rank]
  }

  /** A number, a blank and a unit: the number counts units of weight 1024 to the rank. */
  datatype Size = Size(number: nat, rank: nat)

  function Pieces(s: Size): seq<Piece>
    requires s.rank <= 6
  {
    [Plain(Decimal(s.number) + " "), Tok(BinaryUnit(s.rank))]
  }

  /** How many units of weight 1024 to the rank at a time. */
  function Amount(s: Size): nat {
    s.number * Weight(s.rank)
  }

  /** How many bytes a unit stands for. */
  function UnitBytes(u: Unit): nat {
    match u
    case Bytes => 1
    case KB => 1_000
    case MB => 1_000_000
    case GB => 1_000_000_000
    case TB => 1_000_000_000_000
    case PB => 1_000_000_000_000_000
    case EB => 1_000_000_000_000_000_000
    case KIB => 0x400
    case MIB => 0x10_0000
    case GIB => 0x4000_0000
    case TIB => 0x100_0000_0000
    case PIB => 0x4_0000_0000_0000
    case EIB => 0x1000_0000_0000_0000
  }

  /** The units weigh what the prefix tables say. */
  lemma UnitsOfPrefixes(rank: nat)
    requires 1 <= rank <= 6
    ensures UnitBytes([KB, MB, GB, TB, PB, EB][rank - 1]) == Prefixes.Divisor(true, rank)
    ensures UnitBytes([KIB, MIB, GIB, TIB, PIB, EIB][rank - 1]) == Prefixes.Divisor(false, rank)
  {
    Prefixes.DivisorTable();
  }

  /** The number of bytes that a reader takes from a number and the unit behind it. */
  function Denotes(s: Size): nat
    requires s.rank <= 6
  {
    s.number * UnitBytes(BinaryUnit(s.rank))
  }

  lemma Weights()
    ensures Weight(0) == 1 && Weight(1) == 0x400 && Weight(2) == 0x10_0000 && Weight(3) == 0x4000_0000
    ensures Weight(4) == 0x100_0000_0000 && Weight(5) == 0x4_0000_0000_0000 && Weight(6) == 0x1000_0000_0000_0000
  {
    assert Weight(1) == 0x400;
    assert Weight(2) == 0x10_0000;
    assert Weight(3) == 0x4000_0000;
    assert Weight(4) == 0x100_0000_0000;
    assert Weight(5) == 0x4_0000_0000_0000;
  }

  /** The unit that is printed has the weight of the group that the number is expressed in. */
  lemma DenotesAmount(s: Size)
    requires s.rank <= 6
    ensures Denotes(s) == Amount(s)
  {
    Weights();
    hide Weight;
  }

  /** shift is 0 for a code in bytes and 1 for a code in kibibytes. */
  function MemorySizeOf(code: u64, shift: nat): Size {
    Size(Shift(code, Base(code)), Base(code) + shift)
  }

  function RuntimeSize(code: u32): Size {
    if code % 1024 != 0 then Size(code, 0) else Size(code / 1024, 1)
  }

  /** Size of a memory device in mebibytes, given in an extended field of 31 bits. */
  function ExtendedSize(code: u32): Size {
    var c := code % 0x8000_0000;
    if c % 1024 != 0 then Size(c, 2)
    else if c / 1024 % 1024 != 0 then Size(c / 1024, 3)
    else Size(c / 0x10_0000, 4)
  }

  /** The size of a memory device in kibibytes that its 16-bit field stands for. */
  function DeviceKibibytes(code: u16): u64 {
    if code < 0x8000 then code * 1024 else code % 0x8000
  }

  predicate DeviceHasSize(code: u16) {
    code != 0 && code != 0xFFFF
  }

  function DeviceSize(code: u16): Size {
    MemorySizeOf(DeviceKibibytes(code), 1)
  }

  /** The piece list of a ROM size; two of the units of its extended form are not defined. */
  function RomPieces(code1: u8, code2: u16): (ps: seq<Piece>) {
    if code1 != 0xFF then
      FitsUnit((code1 + 1) * 64);
      Pieces(MemorySizeOf((code1 + 1) * 64, 1))
    else if code2 / 0x4000 == 0 then Pieces(Size(code2 % 0x4000, 2))
    else if code2 / 0x4000 == 1 then Pieces(Size(code2 % 0x4000, 3))
    else [Plain(Decimal(code2 % 0x4000) + " ?B")]
  }

  /** Codes below 2 to the 30 have a unit even when they count kibibytes. */
  lemma FitsUnit(code: u64)
    requires code < 0x4000_0000
    ensures Base(code) <= 2 && MemorySizeOf(code, 1).rank <= 3
  {
    assert Shift(code, 1) == code / 1024;
    assert Shift(code, 2) == code / 1024 / 1024 < 1024;
    assert Shift(code, 3) == Shift(code, 2) / 1024 == 0;
    assert Shift(code, 4) == 0;
    assert Shift(code, 5) == 0;
    assert Shift(code, 6) == 0;
  }

  /** Two groups at most means no rounding. */
  lemma SmallSizeExact(code: u64)
    requires code < 0x10_0000
    ensures Amount(MemorySizeOf(code, 1)) == code * 1024
  {
    FitsUnit(code);
    CapacityExact(code);
    assert Shift(code, 1) == code / 1024 < 1024;
    assert Shift(code, 2) == 0;
    var b := Base(code);
    assert b <= 1 && (b == 1 ==> Group(code, 0) == 0);
    hide Base, Shift, Group;
    var n := Shift(code, b);
    assert Weight(b + 1) == 1024 * Weight(b);
    assert n * (1024 * Weight(b)) == n * Weight(b) * 1024;
  }

  /** The size in bytes that the two ROM size fields stand for; two forms of the extended field have no meaning. */
  function RomBytes(code1: u8, code2: u16): Option<nat> {
    if code1 != 0xFF then Some((code1 as nat + 1) * 0x1_0000)
    else if code2 < 0x4000 then Some(code2 as nat * 0x10_0000)
    else if code2 < 0x8000 then Some((code2 as nat - 0x4000) * 0x4000_0000)
    else None
  }

  /** ROM sizes are shown without rounding; a size without meaning is shown as a number without a proper unit. */
  lemma RomSizeExact(code1: u8, code2: u16) returns (s: Size)
    ensures RomBytes(code1, code2).Some? ==>
      s.rank <= 6 && RomPieces(code1, code2) == Pieces(s) && Denotes(s) == RomBytes(code1, code2).value
    ensures RomBytes(code1, code2) == None ==>
      s.number == code2 % 0x4000 && RomPieces(code1, code2) == [Plain(Decimal(s.number) + " ?B")]
  {
    if code1 != 0xFF {
      s := MemorySizeOf((code1 + 1) * 64, 1);
      FitsUnit((code1 + 1) * 64);
      SmallSizeExact((code1 + 1) * 64);
      DenotesAmount(s);
    } else {
      s := Size(code2 % 0x4000, if code2 < 0x4000 then 2 else 3);
    }
  }

  /** The size in bytes that the 16-bit field of a memory device stands for: mebibytes, or kibibytes with the top bit set. */
  function DeviceBytes(code: u16): nat {
    if code < 0x8000 then code as nat * 0x10_0000 else (code as nat - 0x8000) * 0x400
  }

  /** Memory device sizes are shown without rounding. */
  lemma DeviceSizeExact(code: u16)
    ensures DeviceSize(code).rank <= 3
    ensures Denotes(DeviceSize(code)) == DeviceBytes(code)
  {
    hide *;
    DeviceAmount(code);
    DenotesAmount(DeviceSize(code));
    KibibytesOfDevice(code);
  }

  lemma KibibytesOfDevice(code: u16)
    ensures DeviceKibibytes(code) * 1024 == DeviceBytes(code)
  {
    if code >= 0x8000 {
      assert code % 0x8000 == code - 0x8000;
    }
  }

  lemma DeviceAmount(code: u16)
    ensures DeviceSize(code).rank <= 3
    ensures Amount(DeviceSize(code)) == DeviceKibibytes(code) * 1024
  {
    var k := DeviceKibibytes(code);
    var b := Base(k);
    FitsUnit(k);
    CapacityExact(k);
    DeviceLowerGroups(code);
    hide Base, Shift, Group, DeviceKibibytes, UnitBytes, BinaryUnit;
    var n := Shift(k, b);
    assert Weight(b + 1) == 1024 * Weight(b);
    assert n * (1024 * Weight(b)) == n * Weight(b) * 1024;
  }

  lemma DeviceLowerGroups(code: u16)
    ensures var k := DeviceKibibytes(code);
      forall j :: 0 <= j < Base(k) ==> Group(k, j) == 0
  {
    var k := DeviceKibibytes(code);
    assert Shift(k, 1) == k / 1024;
    assert Shift(k, 2) == k / 1024 / 1024;
    assert Shift(k, 3) == k / 1024 / 1024 / 1024;
    FitsUnit(k);
    if code < 0x8000 {
      assert Shift(k, 1) == code && Group(k, 0) == 0;
      assert Shift(k, 3) == 0;
    } else {
      assert Shift(k, 2) == 0;
    }
  }

  /**
   Extended sizes, in mebibytes, use the greatest of three units that shows them without rounding;
   the top bit of the field is ignored.
   */
  lemma ExtendedSizeExact(code: u32)
    ensures var c, s: Size := if code < 0x8000_0000 then code else code - 0x8000_0000, ExtendedSize(code);
      && 2 <= s.rank <= 4 && Denotes(s) == c * 0x10_0000
      && (BinaryUnit(s.rank) == MIB <==> c % 0x400 != 0)
      && (BinaryUnit(s.rank) == TIB <==> c % 0x10_0000 == 0)
  {
    var c: u32 := if code < 0x8000_0000 then code else code - 0x8000_0000;
    assert code % 0x8000_0000 == c;
    WholeUnits(c);
  }

  lemma WholeUnits(c: nat)
    ensures c % 0x400 == 0 ==> c / 0x400 * 0x4000_0000 == c * 0x10_0000
    ensures c % 0x10_0000 == 0 ==> c / 0x10_0000 * 0x100_0000_0000 == c * 0x10_0000
    ensures c % 0x400 == 0 && c / 0x400 % 0x400 == 0 <==> c % 0x10_0000 == 0
  {
    var q, r := c / 0x400, c % 0x400;
    var high, low := q / 0x400, q % 0x400;
    assert c == 0x10_0000 * high + (0x400 * low + r);
    assert 0 <= 0x400 * low + r < 0x10_0000;
    assert c / 0x10_0000 == high && c % 0x10_0000 == 0x400 * low + r;
  }

  /** Runtime sizes are shown in kibibytes exactly when these are whole. */
  lemma RuntimeSizeExact(code: u32)
    ensures var s := RuntimeSize(code);
      && s.rank <= 1 && Denotes(s) == code
      && (BinaryUnit(s.rank) == KIB <==> code % 0x400 == 0)
  {
  }

  const BUFFER_SIZE := 24

  /** A size below 2 to the 32 fits the buffer it is formatted in, so its text is never cut. */
  lemma TextFits(s: Size)
    requires s.number < 0x1_0000_0000 && s.rank <= 6
    ensures |Render(Pieces(s))| < BUFFER_SIZE
  {
    assert PowerOfTen(5) == 10_0000 by {
      assert PowerOfTen(2) == 100;
      assert PowerOfTen(4) == 1_0000;
    }
    assert PowerOfTen(7) == 1000_0000;
    assert PowerOfTen(9) == 10_0000_0000;
    DecimalLength(s.number, 10);
    RenderSize(s);
  }

  lemma RenderSize(s: Size)
    requires s.rank <= 6
    ensures Render(Pieces(s)) == Decimal(s.number) + " " + Token(BinaryUnit(s.rank))
  {
    var ps := Pieces(s);
    assert ps[1..] == [Tok(BinaryUnit(s.rank))];
    assert ps[1..][1..] == [];
    assert Render(ps[1..]) == Token(BinaryUnit(s.rank));
  }

  /** What the client shows for a size: the number, a blank and the unit's name, with no sign left. */
  lemma Shown(s: Size, names: Names)
    requires s.rank <= 6
    ensures Closes(Render(Pieces(s)), 0)
    ensures Translate(Render(Pieces(s)), 0, names) == Decimal(s.number) + " " + names(BinaryUnit(s.rank))
  {
    var ps := Pieces(s);
    assert PlainOk(ps);
    TranslateRendered(ps, names);
    assert ps[1..] == [Tok(BinaryUnit(s.rank))];
    assert ps[1..][1..] == [];
    assert Expand(ps[1..], names) == names(BinaryUnit(s.rank));
  }

  /** The BIOS field joins two sizes; each of them is translated in its place. */
  lemma RomFieldShown(runtime: u32, code1: u8, code2: u16, names: Names)
    ensures var a, r := Pieces(RuntimeSize(runtime)), RomPieces(code1, code2);
      var field := Render(a) + " / " + Render(r);
      && Closes(field, 0)
      && Translate(field, 0, names) == Expand(a, names) + " / " + Expand(r, names)
  {
    var a, r := Pieces(RuntimeSize(runtime)), RomPieces(code1, code2);
    RomPiecesPlain(code1, code2);
    assert PlainOk(a);
    hide Pieces, RomPieces;
    JoinedShown(a, r, names);
  }

  lemma JoinedShown(a: seq<Piece>, r: seq<Piece>, names: Names)
    requires PlainOk(a) && PlainOk(r)
    ensures var field := Render(a) + " / " + Render(r);
      Closes(field, 0) && Translate(field, 0, names) == Expand(a, names) + " / " + Expand(r, names)
  {
    hide *;
    var br := [Plain(" / ")] + r;
    BarPieces(r, names);
    JoinedPieces(a, br, names);
    JoinedPlain(a, br);
    TranslateRendered(a + br, names);
    assert Render(a) + (" / " + Render(r)) == Render(a) + " / " + Render(r);
    assert Expand(a, names) + (" / " + Expand(r, names)) == Expand(a, names) + " / " + Expand(r, names);
  }

  lemma BarPieces(r: seq<Piece>, names: Names)
    requires PlainOk(r)
    ensures var br := [Plain(" / ")] + r;
      && Render(br) == " / " + Render(r) && Expand(br, names) == " / " + Expand(r, names)
      && PlainOk(br)
  {
    assert ([Plain(" / ")] + r)[1..] == r;
  }

  lemma JoinedPlain(a: seq<Piece>, b: seq<Piece>)
    requires PlainOk(a) && PlainOk(b)
    ensures PlainOk(a + b)
  {
  }

  lemma RomPiecesPlain(code1: u8, code2: u16)
    ensures PlainOk(RomPieces(code1, code2))
  {
  }

  lemma {:induction false} JoinedPieces(a: seq<Piece>, b: seq<Piece>, names: Names)
    ensures Render(a + b) == Render(a) + Render(b)
    ensures Expand(a + b, names) == Expand(a, names) + Expand(b, names)
    decreases |a|
  {
    hide Token;
    if a == [] {
      assert a + b == b;
    } else {
      JoinedPieces(a[1..], b, names);
      assert (a + b)[1..] == a[1..] + b && (a + b)[0] == a[0];
      hide Token;
      var sent := if a[0].Plain? then a[0].text else Token(a[0].unit);
      var shown := if a[0].Plain? then a[0].text else names(a[0].unit);
      assert sent + (Render(a[1..]) + Render(b)) == sent + Render(a[1..]) + Render(b);
      assert shown + (Expand(a[1..], names) + Expand(b, names)) == shown + Expand(a[1..], names) + Expand(b, names);
    }
  }

  // ----- The static buffer of device sizes

  /** What a request for a device size returns, given what the buffer held before. */
  function DeviceSizeText(before: string, code: u16): string {
    if !DeviceHasSize(code) then before
    else
      DeviceSizeExact(code);
      Render(Pieces(DeviceSize(code)))
  }

  class DeviceSizeBuffer {
    var size: string

    constructor ()
      ensures size == ""
    {
      size := "";
    }

    /** Formats a device size; without a size the buffer is returned as it is. */
    method SizeText(code: u16) returns (text: string)
      modifies this
      ensures text == DeviceSizeText(old(size), code) && size == text
      ensures code == 0 || code == 0xFFFF ==> text == old(size)
      ensures code != 0 && code != 0xFFFF ==>
        var s := DeviceSize(code);
        && s.rank <= 6 && Denotes(s) == DeviceBytes(code)
        && text == Decimal(s.number) + " " + Token(BinaryUnit(s.rank))
    {
      if code == 0 || code == 0xFFFF {
        return size;
      }
      var capacity, base := MemorySize(DeviceKibibytes(code));
      DeviceSizeExact(code);
      RenderSize(DeviceSize(code));
      size := Decimal(capacity) + " " + Token(BinaryUnit(base + 1));
      return size;
    }
  }

  /** The text is determined by the code exactly when the code stands for a size. */
  lemma TextDeterminedIff(code: u16)
    ensures (forall p, q :: DeviceSizeText(p, code) == DeviceSizeText(q, code)) <==> code != 0 && code != 0xFFFF
  {
    if !DeviceHasSize(code) {
      assert DeviceSizeText("a", code) != DeviceSizeText("b", code);
    }
  }
}
