/**
 SMBIOS entry points (section 5.2 of DSP0134): validation by anchor and checksum, and the
 binary dump, which stores a crafted entry point whose table address has been overwritten.
 */
module EntryPoint {
  import opened Bytes

  // ----- Checksums

  function Sum(b: seq<u8>): nat {
    if b == [] then 0 else Sum(b[..|b| - 1]) + b[|b| - 1]
  }

  predicate ChecksumOk(b: seq<u8>) {
    Sum(b) % 0x100 == 0
  }

  /** Adds up len bytes in an eight-bit accumulator. */
  method Checksum(buf: array<u8>, at: nat, len: nat) returns (ok: bool)
    requires at + len <= buf.Length
    ensures ok == ChecksumOk(buf[at..at + len])
  {
    var sum: u8 := 0;
    var a := 0;
    while a < len
      invariant 0 <= a <= len
      invariant sum == Sum(buf[at..at + a]) % 0x100
    {
      assert buf[at..at + a + 1][..a] == buf[at..at + a];
      sum := (sum as int + buf[at + a] as int) % 0x100;
      a := a + 1;
    }
    ok := sum == 0;
  }

  lemma {:induction false} SumUpdate(b: seq<u8>, i: nat, v: u8)
    requires i < |b|
    ensures Sum(b[i := v]) == Sum(b) - b[i] + v
    decreases |b|
  {
    var n := |b| - 1;
    if i == n {
      assert b[i := v][..n] == b[..n];
    } else {
      SumUpdate(b[..n], i, v);
      assert b[i := v][..n] == b[..n][i := v];
    }
  }

  /** How an update inside or outside a slice changes the sum of that slice. */
  lemma SliceSumUpdate(b: seq<u8>, lo: nat, hi: nat, i: nat, v: u8)
    requires lo <= hi <= |b| && i < |b|
    ensures Sum(b[i := v][lo..hi]) == Sum(b[lo..hi]) + if lo <= i < hi then v - b[i] else 0
  {
    if lo <= i < hi {
      assert b[i := v][lo..hi] == b[lo..hi][i - lo := v];
      SumUpdate(b[lo..hi], i - lo, v);
    } else {
      assert b[i := v][lo..hi] == b[lo..hi];
    }
  }

  // ----- Validation

  const SM3: seq<u8> := [0x5F, 0x53, 0x4D, 0x33, 0x5F]
  const SM: seq<u8> := [0x5F, 0x53, 0x4D, 0x5F]
  const DMI: seq<u8> := [0x5F, 0x44, 0x4D, 0x49, 0x5F]
  const ENTRY_SIZE := 32

  datatype Kind = Smbios3 | Smbios | Legacy

  /** An accepted entry point: its own length, where the table is, and what is announced about it. */
  datatype Entry = Entry(kind: Kind, length: nat, base: u64, maxLen: u32, num: u16, ver: nat)

  type Buffer = b: seq<u8> | |b| == ENTRY_SIZE witness seq(ENTRY_SIZE, _ => 0)

  function Smbios3Decode(b: Buffer, bufLen: nat): Option<Entry>
    requires bufLen <= ENTRY_SIZE
  {
    if b[6] > bufLen || b[6] < 0x18 || !ChecksumOk(b[..b[6]]) then None
    else Some(Entry(Smbios3, b[6], QWord(b, 0x10), DWord(b, 0x0C), 0,
                    0x1_0000 * b[7] as nat + 0x100 * b[8] as nat + b[9] as nat))
  }

  /** Some firmware reports odd versions. */
  function FixVersion(ver: nat): nat {
    if ver == 0x021F || ver == 0x0221 then 0x0203 else if ver == 0x0233 then 0x0206 else ver
  }

  function SmbiosDecode(b: Buffer, bufLen: nat, noQuirks: bool): Option<Entry>
    requires bufLen <= ENTRY_SIZE
  {
    if b[5] > bufLen || b[5] < 0x1E || !ChecksumOk(b[..b[5]]) || b[0x10..0x15] != DMI || !ChecksumOk(b[0x10..0x1F])
    then None
    else
      var ver := 0x100 * b[6] as nat + b[7] as nat;
      Some(Entry(Smbios, b[5], DWord(b, 0x18), Word(b, 0x16), Word(b, 0x1C),
                 if noQuirks then ver else FixVersion(ver)))
  }

  function LegacyDecode(b: Buffer): Option<Entry> {
    if !ChecksumOk(b[..0x0F]) then None
    else Some(Entry(Legacy, 0x0F, DWord(b, 8), Word(b, 6), Word(b, 0x0C),
                    0x100 * (b[0x0E] as nat / 0x10) + b[0x0E] as nat % 0x10))
  }

  /** The anchor decides which kind of entry point this is. */
  function Probe(b: Buffer, bufLen: nat, noQuirks: bool): Option<Entry>
    requires bufLen <= ENTRY_SIZE
  {
    if b[..5] == SM3 then Smbios3Decode(b, bufLen)
    else if b[..4] == SM then SmbiosDecode(b, bufLen, noQuirks)
    else if b[..5] == DMI then LegacyDecode(b)
    else None
  }

  // ----- Acceptance

  /** The text stands at offset at, one character a byte. */
  predicate Spells(b: seq<u8>, at: nat, text: string) {
    at + |text| <= |b| && forall k :: 0 <= k < |text| ==> b[at + k] as char == text[k]
  }

  lemma SpellsAnchor(b: seq<u8>, at: nat, text: string, anchor: seq<u8>)
    requires at + |text| <= |b| && |anchor| == |text| && Spells(anchor, 0, text)
    ensures b[at..at + |text|] == anchor <==> Spells(b, at, text)
  {
    if Spells(b, at, text) {
      forall k | 0 <= k < |text|
        ensures b[at..at + |text|][k] == anchor[k]
      {
        assert b[at + k] as char == text[k] == anchor[0 + k] as char;
      }
    } else {
      var k :| 0 <= k < |text| && b[at + k] as char != text[k];
      assert b[at..at + |text|][k] != anchor[0 + k];
    }
  }

  lemma Anchors(b: Buffer)
    ensures b[..5] == SM3 <==> Spells(b, 0, "_SM3_")
    ensures b[..4] == SM <==> Spells(b, 0, "_SM_")
    ensures b[..5] == DMI <==> Spells(b, 0, "_DMI_")
    ensures b[0x10..0x15] == DMI <==> Spells(b, 0x10, "_DMI_")
    ensures Spells(b, 0, "_SM_") ==> !Spells(b, 0, "_SM3_") && !Spells(b, 0, "_DMI_")
    ensures Spells(b, 0, "_SM3_") ==> !Spells(b, 0, "_DMI_")
  {
    assert b[0..5] == b[..5] && b[0..4] == b[..4];
    SpellsAnchor(b, 0, "_SM3_", SM3);
    SpellsAnchor(b, 0, "_SM_", SM);
    SpellsAnchor(b, 0, "_DMI_", DMI);
    SpellsAnchor(b, 0x10, "_DMI_", DMI);
    assert Spells(b, 0, "_SM_") ==> b[0 + 1] as char == 'S' && b[0 + 3] as char == '_';
    assert Spells(b, 0, "_SM3_") ==> b[0 + 1] as char == 'S' && b[0 + 3] as char == '3';
    assert Spells(b, 0, "_DMI_") ==> b[0 + 1] as char == 'D';
  }

  predicate Adds(b: seq<u8>, lo: nat, hi: nat) {
    lo <= hi <= |b| && Sum(b[lo..hi]) % 0x100 == 0
  }

  /**
   Sections 5.2.1 and 5.2.2 of DSP0134: the anchor, a length that covers the fields and fits
   what was read, and bytes that add up to zero; the 32-bit form has a second anchor and a second sum.
   */
  predicate Sound(b: Buffer, bufLen: nat) {
    || (Spells(b, 0, "_SM3_") && 24 <= b[6] <= bufLen && Adds(b, 0, b[6]))
    || (Spells(b, 0, "_SM_") && 30 <= b[5] <= bufLen && Adds(b, 0, b[5]) && Spells(b, 16, "_DMI_") && Adds(b, 16, 31))
    || (Spells(b, 0, "_DMI_") && Adds(b, 0, 15))
  }

  /** An entry point of any kind is accepted exactly when it is sound. */
  lemma AcceptedIff(b: Buffer, bufLen: nat, noQuirks: bool)
    requires bufLen <= ENTRY_SIZE
    ensures Probe(b, bufLen, noQuirks).Some? <==> Sound(b, bufLen)
  {
    Anchors(b);
    hide Spells, Sum;
    assert b[0..15] == b[..0x0F];
    assert b[6] <= ENTRY_SIZE ==> b[0..b[6]] == b[..b[6]];
    assert b[5] <= ENTRY_SIZE ==> b[0..b[5]] == b[..b[5]];
  }

  /** How many bytes from the start are covered by some checksum. */
  function Covered(b: Buffer): nat {
    if Spells(b, 0, "_SM3_") then b[6]
    else if Spells(b, 0, "_SM_") then if b[5] < 31 then 31 else b[5]
    else 15
  }

  /** The byte that announces the length, when there is one. */
  function LengthByte(b: Buffer): Option<nat> {
    if Spells(b, 0, "_SM3_") then Some(6) else if Spells(b, 0, "_SM_") then Some(5) else None
  }

  lemma OneByteOff(b: seq<u8>, lo: nat, hi: nat, i: nat, v: u8)
    requires Adds(b, lo, hi) && lo <= i < hi && v != b[i]
    ensures !Adds(b[i := v], lo, hi)
  {
    SliceSumUpdate(b, lo, hi, i, v);
    var sum: int, old_: int, new_: int := Sum(b[lo..hi]), b[i], v;
    hide Sum;
    assert Sum(b[i := v][lo..hi]) == sum - old_ + new_;
    NoMultiple(sum, new_ - old_);
  }

  lemma NoMultiple(sum: int, d: int)
    requires sum % 0x100 == 0 && -0x100 < d < 0x100 && d != 0
    ensures (sum + d) % 0x100 != 0
  {
  }

  lemma SpellsKept(b: seq<u8>, at: nat, text: string, i: nat, v: u8)
    requires i < |b| && !(at <= i < at + |text|)
    ensures Spells(b[i := v], at, text) <==> Spells(b, at, text)
  {
  }

  /**
   Changing any one covered byte of an accepted entry point, other than its anchor and its
   length, makes it refused.
   */
  lemma DamageRefused(b: Buffer, bufLen: nat, noQuirks: bool, i: nat, v: u8)
    requires bufLen <= ENTRY_SIZE && Probe(b, bufLen, noQuirks).Some?
    requires 5 <= i < ENTRY_SIZE && i < Covered(b) && LengthByte(b) != Some(i) && v != b[i]
    ensures Probe(b[i := v], bufLen, noQuirks) == None
  {
    var c: Buffer := b[i := v];
    AcceptedIff(b, bufLen, noQuirks);
    AcceptedIff(c, bufLen, noQuirks);
    Anchors(b);
    SpellsKept(b, 0, "_SM3_", i, v);
    SpellsKept(b, 0, "_SM_", i, v);
    SpellsKept(b, 0, "_DMI_", i, v);
    hide Probe, Spells, Adds;
    if Spells(b, 0, "_SM3_") {
      OneByteOff(b, 0, b[6], i, v);
    } else if Spells(b, 0, "_SM_") {
      if i < b[5] {
        OneByteOff(b, 0, b[5], i, v);
      } else {
        OneByteOff(b, 16, 31, i, v);
      }
    } else {
      OneByteOff(b, 0, 15, i, v);
    }
  }

  // ----- Crafting

  /** A byte sum reduced to eight bits, negative values wrapping around. */
  function Wrap(x: int): u8 {
    x % 0x100
  }

  /** The DMI part of an entry point at offset at, with the table address replaced by 32. */
  function OverwriteDmi(b: seq<u8>, at: nat): (c: seq<u8>)
    requires at + 0x0C <= |b|
    ensures |c| == |b|
  {
    b[at + 5 := Wrap(b[at + 5] as int + b[at + 8] as int + b[at + 9] as int + b[at + 10] as int
                     + b[at + 11] as int - 32)]
     [at + 8 := 32][at + 9 := 0][at + 10 := 0][at + 11 := 0]
  }

  function OverwriteSmbios3(b: seq<u8>): (c: seq<u8>)
    requires 0x18 <= |b|
    ensures |c| == |b|
  {
    b[5 := Wrap(b[5] as int + b[0x10] as int + b[0x11] as int + b[0x12] as int + b[0x13] as int
                + b[0x14] as int + b[0x15] as int + b[0x16] as int + b[0x17] as int - 32)]
     [0x10 := 32][0x11 := 0][0x12 := 0][0x13 := 0][0x14 := 0][0x15 := 0][0x16 := 0][0x17 := 0]
  }

  /** The overwritten address field keeps every checksum that covers the checksum byte and the address. */
  lemma OverwriteDmiSum(b: seq<u8>, at: nat, lo: nat, hi: nat)
    requires lo <= at + 5 && at + 0x0C <= hi <= |b|
    ensures ChecksumOk(OverwriteDmi(b, at)[lo..hi]) == ChecksumOk(b[lo..hi])
  {
    hide Sum, OverwriteDmi, Wrap;
    CraftedDmiSum(b, at, lo, hi);
    Compensated(Sum(b[lo..hi]), b[at + 5],
                b[at + 8] as int + b[at + 9] as int + b[at + 10] as int + b[at + 11] as int);
  }

  lemma CraftedDmiSum(b: seq<u8>, at: nat, lo: nat, hi: nat)
    requires lo <= at + 5 && at + 0x0C <= hi <= |b|
    ensures var replaced := b[at + 8] as int + b[at + 9] as int + b[at + 10] as int + b[at + 11] as int;
      Sum(OverwriteDmi(b, at)[lo..hi]) ==
      Sum(b[lo..hi]) - b[at + 5] as int + Wrap(b[at + 5] as int + replaced - 32) - replaced + 32
  {
    var w := Wrap(b[at + 5] as int + b[at + 8] as int + b[at + 9] as int + b[at + 10] as int + b[at + 11] as int - 32);
    hide *;
    OverwriteDmiClears(b, at);
    var b1 := b[at + 5 := w][at + 8 := 32];
    SliceSumUpdate(b, lo, hi, at + 5, w);
    SliceSumUpdate(b[at + 5 := w], lo, hi, at + 8, 32);
    ClearSum(b1, at + 9, 3, lo, hi);
    SumOfThree(b[at + 9..at + 12]);
  }

  /** The checksum byte makes up for the bytes that give way to 32 and zeros. */
  lemma Compensated(sum: int, byte: int, replaced: int)
    ensures (sum - byte + Wrap(byte + replaced - 32) - replaced + 32) % 0x100 == sum % 0x100
  {
  }

  lemma OverwriteDmiClears(b: seq<u8>, at: nat)
    requires at + 0x0C <= |b|
    ensures var w := Wrap(b[at + 5] as int + b[at + 8] as int + b[at + 9] as int + b[at + 10] as int
                          + b[at + 11] as int - 32);
      var b1 := b[at + 5 := w][at + 8 := 32];
      OverwriteDmi(b, at) == Clear(b1, at + 9, 3) && b1[at + 9..at + 12] == b[at + 9..at + 12]
  {
    hide Clear;
  }

  lemma OverwriteSmbios3Sum(b: seq<u8>, hi: nat)
    requires 0x18 <= hi <= |b|
    ensures ChecksumOk(OverwriteSmbios3(b)[..hi]) == ChecksumOk(b[..hi])
  {
    hide Sum, OverwriteSmbios3, Wrap;
    CraftedSmbios3Sum(b, hi);
    Compensated(Sum(b[..hi]), b[5],
                b[0x10] as int + b[0x11] as int + b[0x12] as int + b[0x13] as int
                + b[0x14] as int + b[0x15] as int + b[0x16] as int + b[0x17] as int);
  }

  lemma CraftedSmbios3Sum(b: seq<u8>, hi: nat)
    requires 0x18 <= hi <= |b|
    ensures var replaced := b[0x10] as int + b[0x11] as int + b[0x12] as int + b[0x13] as int
                            + b[0x14] as int + b[0x15] as int + b[0x16] as int + b[0x17] as int;
      Sum(OverwriteSmbios3(b)[..hi]) == Sum(b[..hi]) - b[5] as int + Wrap(b[5] as int + replaced - 32) - replaced + 32
  {
    var w := Wrap(b[5] as int + b[0x10] as int + b[0x11] as int + b[0x12] as int + b[0x13] as int
                  + b[0x14] as int + b[0x15] as int + b[0x16] as int + b[0x17] as int - 32);
    hide *;
    OverwriteSmbios3Clears(b);
    var b0 := b[5 := w][0x10 := 32];
    SliceSumUpdate(b, 0, hi, 5, w);
    SliceSumUpdate(b[5 := w], 0, hi, 0x10, 32);
    ClearSum(b0, 0x11, 7, 0, hi);
    SumOfSeven(b[0x11..0x18]);
    assert b[..hi] == b[0..hi] && OverwriteSmbios3(b)[..hi] == OverwriteSmbios3(b)[0..hi];
  }

  lemma OverwriteSmbios3Clears(b: seq<u8>)
    requires 0x18 <= |b|
    ensures var w := Wrap(b[5] as int + b[0x10] as int + b[0x11] as int + b[0x12] as int + b[0x13] as int
                          + b[0x14] as int + b[0x15] as int + b[0x16] as int + b[0x17] as int - 32);
      var b0 := b[5 := w][0x10 := 32];
      OverwriteSmbios3(b) == Clear(b0, 0x11, 7) && b0[0x11..0x18] == b[0x11..0x18]
  {
    hide Clear;
  }

  /** n bytes from offset at on set to zero. */
  function Clear(b: seq<u8>, at: nat, n: nat): (c: seq<u8>)
    requires at + n <= |b|
    ensures |c| == |b|
    ensures forall k :: 0 <= k < |b| ==> c[k] == if at <= k < at + n then 0 else b[k]
  {
    if n == 0 then b else Clear(b, at, n - 1)[at + n - 1 := 0]
  }

  lemma ClearLast(b: seq<u8>, at: nat, n: nat)
    requires at + n <= |b|
    ensures Clear(b, at, n) == if n == 0 then b else Clear(b, at, n - 1)[at + n - 1 := 0]
    ensures n > 0 ==> Clear(b, at, n - 1)[at + n - 1] == b[at + n - 1]
  {
  }

  lemma {:induction false} ClearSum(b: seq<u8>, at: nat, n: nat, lo: nat, hi: nat)
    requires lo <= at && at + n <= hi <= |b|
    ensures Sum(Clear(b, at, n)[lo..hi]) == Sum(b[lo..hi]) - Sum(b[at..at + n])
  {
    hide Sum, Clear;
    SumLast(b, at, n);
    ClearLast(b, at, n);
    if n != 0 {
      ClearSum(b, at, n - 1, lo, hi);
      SliceSumUpdate(Clear(b, at, n - 1), lo, hi, at + n - 1, 0);
    }
  }

  lemma SumLast(b: seq<u8>, at: nat, n: nat)
    requires at + n <= |b|
    ensures Sum(b[at..at + n]) == if n == 0 then 0 else Sum(b[at..at + n - 1]) + b[at + n - 1]
  {
    if n != 0 {
      assert b[at..at + n][..n - 1] == b[at..at + n - 1];
    }
  }

  lemma SumOfThree(s: seq<u8>)
    requires |s| == 3
    ensures Sum(s) == s[0] as int + s[1] as int + s[2] as int
  {
    assert s[..2][..1] == s[..1] && s[..1][..0] == [];
    assert Sum(s[..1]) == s[0] as int;
    assert Sum(s[..2]) == Sum(s[..1]) + s[1] as int;
  }

  lemma SumOfSeven(s: seq<u8>)
    requires |s| == 7
    ensures Sum(s) == s[0] as int + s[1] as int + s[2] as int + s[3] as int + s[4] as int + s[5] as int + s[6] as int
  {
    SumOfThree(s[..3]);
    assert s[..6][..5] == s[..5] && s[..5][..4] == s[..4] && s[..4][..3] == s[..3];
    assert Sum(s[..4]) == Sum(s[..3]) + s[3] as int;
    assert Sum(s[..5]) == Sum(s[..4]) + s[4] as int;
    assert Sum(s[..6]) == Sum(s[..5]) + s[5] as int;
  }

  /**
   Puts 32 in place of the table address of the DMI part at offset at. Besides the address
   only the checksum byte changes, and every checksum over both stays as right as it was.
   */
  method OverwriteDmiAddress(buf: array<u8>, at: nat)
    requires at + 0x0C <= buf.Length
    modifies buf
    ensures DWord(buf[..], at + 8) == 32
    ensures forall k :: 0 <= k < buf.Length && k != at + 5 && !(at + 8 <= k < at + 0x0C) ==> buf[k] == old(buf[k])
    ensures forall lo, hi :: 0 <= lo <= at + 5 && at + 0x0C <= hi <= buf.Length ==>
      ChecksumOk(buf[..][lo..hi]) == ChecksumOk(old(buf[..])[lo..hi])
    ensures buf[..] == OverwriteDmi(old(buf[..]), at)
  {
    hide ChecksumOk;
    ghost var b := buf[..];
    buf[at + 5] := Wrap(buf[at + 5] as int + buf[at + 8] as int + buf[at + 9] as int + buf[at + 10] as int
                        + buf[at + 11] as int - 32);
    buf[at + 8] := 32;
    buf[at + 9] := 0;
    buf[at + 10] := 0;
    buf[at + 11] := 0;
    assert buf[..] == OverwriteDmi(b, at);
    hide OverwriteDmi, Wrap;
    forall lo, hi | 0 <= lo <= at + 5 && at + 0x0C <= hi <= |b|
      ensures ChecksumOk(OverwriteDmi(b, at)[lo..hi]) == ChecksumOk(b[lo..hi])
    {
      OverwriteDmiSum(b, at, lo, hi);
    }
  }

  /** The same for a 64-bit entry point. */
  method OverwriteSmbios3Address(buf: array<u8>)
    requires 0x18 <= buf.Length
    modifies buf
    ensures QWord(buf[..], 0x10) == 32
    ensures forall k :: 0 <= k < buf.Length && k != 5 && !(0x10 <= k < 0x18) ==> buf[k] == old(buf[k])
    ensures forall hi :: 0x18 <= hi <= buf.Length ==> ChecksumOk(buf[..][..hi]) == ChecksumOk(old(buf[..])[..hi])
    ensures buf[..] == OverwriteSmbios3(old(buf[..]))
  {
    hide ChecksumOk;
    ghost var b := buf[..];
    buf[5] := Wrap(buf[5] as int + buf[0x10] as int + buf[0x11] as int + buf[0x12] as int + buf[0x13] as int
                   + buf[0x14] as int + buf[0x15] as int + buf[0x16] as int + buf[0x17] as int - 32);
    buf[0x10] := 32;
    buf[0x11] := 0;
    buf[0x12] := 0;
    buf[0x13] := 0;
    buf[0x14] := 0;
    buf[0x15] := 0;
    buf[0x16] := 0;
    buf[0x17] := 0;
    assert buf[..] == OverwriteSmbios3(b);
    hide OverwriteSmbios3, Wrap;
    forall hi | 0x18 <= hi <= |b|
      ensures ChecksumOk(OverwriteSmbios3(b)[..hi]) == ChecksumOk(b[..hi])
    {
      OverwriteSmbios3Sum(b, hi);
    }
  }

  function Craft(b: Buffer, kind: Kind): Buffer {
    match kind
    case Smbios3 => OverwriteSmbios3(b)
    case Smbios => OverwriteDmi(b, 0x10)
    case Legacy => OverwriteDmi(b, 0)
  }

  // ----- Writing the dump

  function Zeros(n: nat): (z: seq<u8>)
    ensures |z| == n
  {
    seq(n, _ => 0)
  }

  /** The crafted entry point, a hole up to offset 32, the table. */
  function DumpFile(ep: Buffer, epLen: nat, table: seq<u8>): seq<u8>
    requires epLen <= ENTRY_SIZE
  {
    ep[..epLen] + Zeros(ENTRY_SIZE - epLen) + table
  }

  /** A file that is being written; bytes skipped by a seek read as zero. */
  class OutFile {
    var bytes: seq<u8>
    var pos: nat

    constructor ()
      ensures bytes == [] && pos == 0
    {
      bytes, pos := [], 0;
    }

    /** Writes one item and returns the number of items written, which is 0 for an empty item. */
    method Write(item: seq<u8>) returns (n: nat)
      modifies this
      ensures n == if item == [] then 0 else 1
      ensures item == [] ==> bytes == old(bytes) && pos == old(pos)
      ensures item != [] && old(pos) >= |old(bytes)| ==>
        bytes == old(bytes) + Zeros(old(pos) - |old(bytes)|) + item && pos == |bytes|
    {
      if item == [] {
        return 0;
      }
      if pos >= |bytes| {
        bytes := bytes + Zeros(pos - |bytes|) + item;
      } else if pos + |item| >= |bytes| {
        bytes := bytes[..pos] + item;
      } else {
        bytes := bytes[..pos] + item + bytes[pos + |item|..];
      }
      pos := pos + |item|;
      return 1;
    }

    method Seek(p: nat)
      modifies this
      ensures pos == p && bytes == old(bytes)
    {
      pos := p;
    }
  }

  /** The steps of writing a dump that fail. */
  datatype DumpFaults = DumpFaults(open: bool, stream: bool, header: bool, seek: bool, table: bool, close: bool)

  const NO_DUMP_FAULTS := DumpFaults(false, false, false, false, false, false)

  /** Writes a dump into a new file; besides any fault, an empty table makes the second write fail. */
  method TableDump(f: OutFile, ep: Buffer, epLen: nat, table: seq<u8>, faults: DumpFaults) returns (ret: int)
    requires f.bytes == [] && f.pos == 0 && 0 < epLen <= ENTRY_SIZE
    modifies f
    ensures ret == if table == [] || faults != NO_DUMP_FAULTS then -1 else 0
    ensures ret == 0 ==> f.bytes == DumpFile(ep, epLen, table)
  {
    if faults.open || faults.stream {
      return -1;
    }
    var n := 0;
    if !faults.header {
      n := f.Write(ep[..epLen]);
    }
    if n != 1 {
      return -1;
    }
    if faults.seek {
      return -1;
    }
    f.Seek(ENTRY_SIZE);
    n := 0;
    if !faults.table {
      n := f.Write(table);
    }
    if n != 1 {
      return -1;
    }
    if faults.close {
      return -1;
    }
    return 0;
  }

  // ----- Reading files

  /** What reading at most maxLen bytes from offset base yields. */
  function FileSlice(file: seq<u8>, base: nat, maxLen: nat): Option<seq<u8>> {
    if base >= |file| then None
    else Some(file[base..base + if maxLen > |file| - base then |file| - base else maxLen])
  }

  /** What one read call does: deliver up to some bytes, be interrupted, or fail. */
  datatype ReadCall = Delivers(most: nat) | Interrupted | Fails

  /**
   Fills the first count bytes of buf from position base of the file. A call may deliver
   less than asked for, at least one byte unless the file is at its end. When the
   calls listed are used up, the remaining ones deliver all that is asked for.
   */
  method MyRead(file: seq<u8>, base: nat, buf: array<u8>, count: nat, calls: seq<ReadCall>) returns (ok: bool)
    requires count <= buf.Length
    modifies buf
    ensures ok && count > 0 ==> base + count <= |file| && buf[..count] == file[base..base + count]
    ensures !ok ==> base + count > |file| || Fails in calls
  {
    var r, got, k := 1, 0, 0;
    while got != count && r != 0
      invariant 0 <= got <= count && (got > 0 ==> base + got <= |file|) && 0 <= k <= |calls| && -1 <= r
      invariant forall j :: 0 <= j < got ==> buf[j] == file[base + j]
      invariant r == 0 ==> got == count || base + got >= |file|
      decreases r != 0, |calls| - k, count - got
    {
      var call := if k < |calls| then calls[k] else Delivers(count - got);
      k := if k < |calls| then k + 1 else k;
      if call == Fails {
        return false;
      }
      if call == Interrupted {
        r := -1;
      } else {
        r := count - got;
        if |file| - (base + got) < r {
          r := if base + got < |file| then |file| - (base + got) else 0;
        }
        if 0 < call.most < r {
          r := call.most;
        }
        forall j | 0 <= j < r {
          buf[got + j] := file[base + got + j];
        }
        assert forall j :: got <= j < got + r ==> buf[j] == file[base + got + (j - got)];
        got := got + r;
      }
    }
    ok := got == count;
  }

  /** What goes wrong with one file: opening, asking for its size, allocating, seeking, and the read calls. */
  datatype FileFaults = FileFaults(open: bool, stat: bool, alloc: bool, seek: bool, calls: seq<ReadCall>)

  predicate Faultless(f: FileFaults) {
    !f.open && !f.stat && !f.alloc && !f.seek && Fails !in f.calls
  }

  /**
   Reads a file from base on, up to maxLen bytes; the buffer is as long as what can be read.
   When the size of the file cannot be told, all maxLen bytes have to be there.
   */
  method ReadFile(file: seq<u8>, base: nat, maxLen: nat, faults: FileFaults) returns (r: Option<array<u8>>)
    ensures r.Some? && r.value.Length > 0 ==>
      && r.value.Length == (if maxLen < |file| - base then maxLen else |file| - base)
      && r.value[..] == file[base..base + r.value.Length]
    ensures r.Some? && r.value.Length > 0 ==> FileSlice(file, base, maxLen) == Some(r.value[..])
    ensures r.Some? && r.value.Length == 0 ==> maxLen == 0
    ensures r == None ==> !Faultless(faults) || base >= |file|
    ensures r.Some? ==> !faults.open && !faults.alloc && !faults.seek && (!faults.stat ==> base < |file|)
    ensures r.Some? && faults.stat ==> maxLen == 0 || base + maxLen <= |file|
    ensures r.Some? ==> fresh(r.value)
  {
    if faults.open {
      return None;
    }
    var len := maxLen;
    if !faults.stat {
      if base >= |file| {
        return None;
      }
      if len > |file| - base {
        len := |file| - base;
      }
    }
    if faults.alloc {
      return None;
    }
    var p := new u8[len];
    if faults.seek {
      return None;
    }
    var ok := MyRead(file, base, p, len, faults.calls);
    if !ok {
      return None;
    }
    assert p[..len] == p[..];
    return Some(p);
  }

  // ----- The round trip

  /** The entry point that reading a dump finds. */
  function FromDump(file: seq<u8>, noQuirks: bool): Option<Entry> {
    if |file| < ENTRY_SIZE then None else Probe(file[..ENTRY_SIZE], ENTRY_SIZE, noQuirks)
  }

  /**
   What the dump needs to survive: the announced length of a 32-bit entry point may be one
   short of the bytes its inner checksum covers, and then the last of these is not written.
   */
  predicate Survives(b: Buffer, e: Entry) {
    e.kind == Smbios && e.length == 0x1E ==> b[0x1E] == 0
  }

  /** The first 32 bytes of a dump agree with the crafted entry point as far as it was written. */
  lemma DumpHead(ep: Buffer, epLen: nat, table: seq<u8>)
    requires epLen <= ENTRY_SIZE
    ensures var f := DumpFile(ep, epLen, table);
      && |f| == ENTRY_SIZE + |table| && f[ENTRY_SIZE..] == table
      && f[..ENTRY_SIZE] == ep[..epLen] + Zeros(ENTRY_SIZE - epLen)
  {
  }

  lemma Smbios3Survives(b: Buffer, bufLen: nat)
    requires bufLen <= ENTRY_SIZE && Smbios3Decode(b, bufLen).Some?
    ensures var e := Smbios3Decode(b, bufLen).value;
      Smbios3Decode(OverwriteSmbios3(b)[..e.length] + Zeros(ENTRY_SIZE - e.length), ENTRY_SIZE) == Some(e.(base := 32))
  {
    var n: nat, c := b[6], OverwriteSmbios3(b);
    var h := c[..n] + Zeros(ENTRY_SIZE - n);
    OverwriteSmbios3Sum(b, n);
    assert h[..n] == c[..n];
    assert forall k :: 0 <= k < n ==> h[k] == c[k];
  }

  lemma LegacySurvives(b: Buffer)
    requires LegacyDecode(b).Some?
    ensures var e := LegacyDecode(b).value;
      LegacyDecode(OverwriteDmi(b, 0)[..e.length] + Zeros(ENTRY_SIZE - e.length)) == Some(e.(base := 32))
  {
    var c := OverwriteDmi(b, 0);
    var h := c[..0x0F] + Zeros(ENTRY_SIZE - 0x0F);
    OverwriteDmiSum(b, 0, 0, 0x0F);
    assert h[..0x0F] == c[..0x0F];
    assert forall k :: 0 <= k < 0x0F ==> h[k] == c[k];
  }

  lemma SmbiosSurvives(b: Buffer, bufLen: nat, noQuirks: bool)
    requires bufLen <= ENTRY_SIZE && SmbiosDecode(b, bufLen, noQuirks).Some?
    ensures var e := SmbiosDecode(b, bufLen, noQuirks).value;
      SmbiosDecode(OverwriteDmi(b, 0x10)[..e.length] + Zeros(ENTRY_SIZE - e.length), ENTRY_SIZE, noQuirks)
      == if Survives(b, e) then Some(e.(base := 32)) else None
  {
    hide Sum;
    var n: nat, c := b[5], OverwriteDmi(b, 0x10);
    var h := c[..n] + Zeros(ENTRY_SIZE - n);
    OverwriteDmiSum(b, 0x10, 0, n);
    OverwriteDmiSum(b, 0x10, 0x10, 0x1F);
    hide ChecksumOk;
    assert b[0..n] == b[..n] && c[0..n] == c[..n];
    assert h[..n] == c[..n];
    assert forall k :: 0 <= k < n ==> h[k] == c[k];
    assert h[0x10..0x15] == b[0x10..0x15];
    InnerChecksum(c, n);
  }

  /** Without its last byte the inner checksum is still right exactly when that byte is zero. */
  lemma InnerChecksum(c: Buffer, n: nat)
    requires 0x1E <= n <= ENTRY_SIZE && ChecksumOk(c[0x10..0x1F])
    ensures ChecksumOk((c[..n] + Zeros(ENTRY_SIZE - n))[0x10..0x1F]) <==> n != 0x1E || c[0x1E] == 0
  {
    var h := c[..n] + Zeros(ENTRY_SIZE - n);
    if n == 0x1E {
      assert h[0x10..0x1F] == c[0x1E := 0][0x10..0x1F];
      SliceSumUpdate(c, 0x10, 0x1F, 0x1E, 0);
    } else {
      assert h[0x10..0x1F] == c[0x10..0x1F];
    }
  }

  /**
   A dump of an accepted entry point and a non-empty table that fits the announced size is
   accepted when it is read back exactly when the entry point survives; then it announces the
   same count, size and version, and the table that is read from it is the dumped one.
   */
  lemma DumpRoundTrip(b: Buffer, bufLen: nat, table: seq<u8>, noQuirks: bool)
    requires bufLen <= ENTRY_SIZE && Probe(b, bufLen, noQuirks).Some?
    requires 0 < |table| <= Probe(b, bufLen, noQuirks).value.maxLen
    ensures var e := Probe(b, bufLen, noQuirks).value;
      var f := DumpFile(Craft(b, e.kind), e.length, table);
      && FromDump(f, noQuirks) == (if Survives(b, e) then Some(e.(base := 32)) else None)
      && FileSlice(f, 32, e.maxLen) == Some(table)
  {
    hide ChecksumOk, QWord, DWord, Word, OverwriteDmi, OverwriteSmbios3, Smbios3Decode, SmbiosDecode, LegacyDecode;
    var e := Probe(b, bufLen, noQuirks).value;
    ProbeKind(b, bufLen, noQuirks);
    DumpHead(Craft(b, e.kind), e.length, table);
    AnchorsKept(b, e.kind, e.length);
    var f := DumpFile(Craft(b, e.kind), e.length, table);
    var h: Buffer := f[..ENTRY_SIZE];
    assert FromDump(f, noQuirks) == Probe(h, ENTRY_SIZE, noQuirks);
    assert f[32..32 + |table|] == f[ENTRY_SIZE..];
    match e.kind
    case Smbios3 => Smbios3Survives(b, bufLen);
    case Smbios => SmbiosSurvives(b, bufLen, noQuirks);
    case Legacy => LegacySurvives(b);
  }

  lemma ProbeKind(b: Buffer, bufLen: nat, noQuirks: bool)
    requires bufLen <= ENTRY_SIZE && Probe(b, bufLen, noQuirks).Some?
    ensures var e := Probe(b, bufLen, noQuirks).value;
      && (e.kind == Smbios3 <==> b[..5] == SM3)
      && (e.kind == Smbios <==> b[..4] == SM)
      && 0x0F <= e.length <= ENTRY_SIZE
  {
    assert b[..5] == SM3 ==> b[..4][3] == SM3[3];
  }

  lemma AnchorsKept(b: Buffer, kind: Kind, n: nat)
    requires 0x0F <= n <= ENTRY_SIZE
    ensures (Craft(b, kind)[..n] + Zeros(ENTRY_SIZE - n))[..5] == b[..5]
    ensures (Craft(b, kind)[..n] + Zeros(ENTRY_SIZE - n))[..4] == b[..4]
  {
  }

  /** Reads a dump: its entry point, then the table that it points to. Nothing wrong is read even if files fail. */
  method ReadDump(file: seq<u8>, noQuirks: bool, faults1: FileFaults, faults2: FileFaults)
    returns (entry: Option<Entry>, table: Option<array<u8>>)
    ensures entry.Some? ==> |file| >= ENTRY_SIZE && Sound(file[..ENTRY_SIZE], ENTRY_SIZE)
    ensures |file| >= ENTRY_SIZE && Sound(file[..ENTRY_SIZE], ENTRY_SIZE) && Faultless(faults1) ==> entry.Some?
    ensures entry.Some? ==> entry == FromDump(file, noQuirks)
    ensures entry == None ==> table == None && (FromDump(file, noQuirks) == None || !Faultless(faults1))
    ensures entry.Some? && table.Some? && entry.value.maxLen > 0 ==>
      FileSlice(file, entry.value.base, entry.value.maxLen) == Some(table.value[..])
    ensures entry.Some? && table == None ==> entry.value.base >= |file| || !Faultless(faults2)
  {
    var head := ReadFile(file, 0, ENTRY_SIZE, faults1);
    if head == None || head.value.Length < ENTRY_SIZE {
      return None, None;
    }
    assert |head.value[..]| <= |file|;
    assert head.value[..] == file[..ENTRY_SIZE];
    AcceptedIff(file[..ENTRY_SIZE], ENTRY_SIZE, noQuirks);
    entry := Probe(head.value[..], ENTRY_SIZE, noQuirks);
    if entry == None {
      return entry, None;
    }
    table := ReadFile(file, entry.value.base, entry.value.maxLen, faults2);
  }

  // ----- Printing entry points

  function Two(n: u16): (b: seq<u8>)
    ensures |b| == 2
  {
    [n % 0x100, n / 0x100]
  }

  function Four(n: u32): (b: seq<u8>)
    ensures |b| == 4
  {
    Two(n % 0x1_0000) + Two(n / 0x1_0000)
  }

  function Eight(n: u64): (b: seq<u8>)
    ensures |b| == 8
  {
    Four(n % 0x1_0000_0000) + Four(n / 0x1_0000_0000)
  }

  lemma ReadTwo(b: seq<u8>, i: nat, n: u16)
    requires StandsAt(b, i, Two(n))
    ensures Word(b, i) == n
  {
    assert b[i] == b[i..i + 2][0] && b[i + 1] == b[i..i + 2][1];
  }

  lemma ReadFour(b: seq<u8>, i: nat, n: u32)
    requires StandsAt(b, i, Four(n))
    ensures DWord(b, i) == n
  {
    StandsSplit(b, i, Two(n % 0x1_0000), Two(n / 0x1_0000));
    ReadTwo(b, i, n % 0x1_0000);
    ReadTwo(b, i + 2, n / 0x1_0000);
  }

  lemma ReadEight(b: seq<u8>, i: nat, n: u64)
    requires StandsAt(b, i, Eight(n))
    ensures QWord(b, i) == n
  {
    StandsSplit(b, i, Four(n % 0x1_0000_0000), Four(n / 0x1_0000_0000));
    ReadFour(b, i, n % 0x1_0000_0000);
    ReadFour(b, i + 4, n / 0x1_0000_0000);
  }

  /** The bytes with the one at offset i chosen such that the first n of them add up to zero. */
  function Balance(b: seq<u8>, i: nat, lo: nat, hi: nat): (c: seq<u8>)
    requires lo <= i < hi <= |b|
    ensures |c| == |b|
  {
    b[i := Wrap(b[i] as int - Sum(b[lo..hi]))]
  }

  lemma Balanced(b: seq<u8>, i: nat, lo: nat, hi: nat)
    requires lo <= i < hi <= |b|
    ensures ChecksumOk(Balance(b, i, lo, hi)[lo..hi])
  {
    hide Sum;
    SliceSumUpdate(b, lo, hi, i, Wrap(b[i] as int - Sum(b[lo..hi])));
  }

  /** A 64-bit entry point (section 5.2.2 of DSP0134). */
  function PrintSmbios3(major: u8, minor: u8, docrev: u8, maxLen: u32, base: u64): Buffer {
    Balance(SM3 + [0, 0x18, major, minor, docrev, 1, 0] + Four(maxLen) + Eight(base) + Zeros(8), 5, 0, 0x18)
  }

  lemma Smbios3RoundTrip(major: u8, minor: u8, docrev: u8, maxLen: u32, base: u64)
    ensures Probe(PrintSmbios3(major, minor, docrev, maxLen, base), ENTRY_SIZE, false)
      == Some(Entry(Smbios3, 0x18, base, maxLen, 0, 0x1_0000 * major as nat + 0x100 * minor as nat + docrev as nat))
  {
    hide Sum, QWord, DWord, Four, Eight, ChecksumOk;
    var a := SM3 + [0, 0x18, major, minor, docrev, 1, 0] + Four(maxLen) + Eight(base) + Zeros(8);
    var b := Balance(a, 5, 0, 0x18);
    Balanced(a, 5, 0, 0x18);
    assert b[0..0x18] == b[..0x18];
    assert b[..5] == SM3;
    assert b[0x0C..0x10] == Four(maxLen) && b[0x10..0x18] == Eight(base);
    ReadFour(b, 0x0C, maxLen);
    ReadEight(b, 0x10, base);
  }

  /** What a 32-bit entry point says about itself and the table; last is the byte that ends its inner part. */
  datatype SmbiosFields = SmbiosFields(
    length: u8, major: u8, minor: u8, maxLen: u16, base: u32, num: u16, last: u8)

  /** The layout of a 32-bit entry point (section 5.2.1 of DSP0134), both checksum bytes included. */
  function Layout(outer: u8, inner: u8, f: SmbiosFields): Buffer {
    SM + [outer, f.length, f.major, f.minor] + Zeros(8)
    + DMI + [inner] + Two(f.maxLen) + Four(f.base) + Two(f.num) + [f.last] + [0]
  }

  lemma LayoutHead(outer: u8, inner: u8, f: SmbiosFields)
    ensures var b := Layout(outer, inner, f);
      && b[..4] == SM && b[..5] != SM3 && b[4] == outer && b[5] == f.length && b[6] == f.major && b[7] == f.minor
      && b[0x10..0x15] == DMI && b[0x15] == inner && b[0x1E] == f.last
  {
    hide Two, Four;
    assert Layout(outer, inner, f)[..5][3] != SM3[3];
  }

  lemma LayoutNumbers(outer: u8, inner: u8, f: SmbiosFields)
    ensures var b := Layout(outer, inner, f);
      Word(b, 0x16) == f.maxLen && DWord(b, 0x18) == f.base && Word(b, 0x1C) == f.num
  {
    hide Two, Four, Word, DWord;
    var b := Layout(outer, inner, f);
    assert b[0x16..0x18] == Two(f.maxLen) && b[0x18..0x1C] == Four(f.base) && b[0x1C..0x1E] == Two(f.num);
    hide Layout;
    ReadTwo(b, 0x16, f.maxLen);
    ReadFour(b, 0x18, f.base);
    ReadTwo(b, 0x1C, f.num);
  }

  /** Changing a checksum byte gives the layout with that byte. */
  lemma OuterUpdate(outer: u8, inner: u8, f: SmbiosFields, w: u8)
    ensures Layout(outer, inner, f)[4 := w] == Layout(w, inner, f)
  {
    hide Two, Four;
  }

  lemma InnerUpdate(outer: u8, inner: u8, f: SmbiosFields, w: u8)
    ensures Layout(outer, inner, f)[0x15 := w] == Layout(outer, w, f)
  {
    hide Two, Four;
  }

  /** The inner checksum first, then the outer one, which covers the announced length. */
  function PrintSmbios(f: SmbiosFields): Buffer
    requires 5 <= f.length <= 0x1F
  {
    Balance(Balance(Layout(0, 0, f), 0x15, 0x10, 0x1F), 4, 0, f.length)
  }

  lemma PrintedLayout(f: SmbiosFields) returns (outer: u8, inner: u8)
    requires 5 <= f.length <= 0x1F
    ensures PrintSmbios(f) == Layout(outer, inner, f)
  {
    hide Sum, Layout;
    var a := Layout(0, 0, f);
    inner := Wrap(a[0x15] as int - Sum(a[0x10..0x1F]));
    InnerUpdate(0, 0, f, inner);
    var c := Layout(0, inner, f);
    outer := Wrap(c[4] as int - Sum(c[0..f.length]));
    OuterUpdate(0, inner, f, outer);
  }

  lemma PrintedBalanced(f: SmbiosFields)
    requires 5 <= f.length <= 0x1F
    ensures ChecksumOk(PrintSmbios(f)[..f.length]) && ChecksumOk(PrintSmbios(f)[0x10..0x1F])
  {
    hide ChecksumOk, Sum, Layout;
    var a := Layout(0, 0, f);
    var c := Balance(a, 0x15, 0x10, 0x1F);
    var b := Balance(c, 4, 0, f.length);
    Balanced(a, 0x15, 0x10, 0x1F);
    Balanced(c, 4, 0, f.length);
    assert b[0..f.length] == b[..f.length];
    assert b[0x10..0x1F] == c[0x10..0x1F];
  }

  /** The version that a mistaken one stands for. */
  function UsualVersion(major: u8, minor: u8): (u8, u8) {
    match (major, minor)
    case (2, 31) => (2, 3)
    case (2, 33) => (2, 3)
    case (2, 51) => (2, 6)
    case _ => (major, minor)
  }

  /** A printed 32-bit entry point is accepted with its fields, three known mistakes in the version set right. */
  lemma SmbiosRoundTrip(f: SmbiosFields, noQuirks: bool)
    requires 0x1E <= f.length <= 0x1F
    ensures PrintSmbios(f)[0x1E] == f.last
    ensures var version := if noQuirks then (f.major, f.minor) else UsualVersion(f.major, f.minor);
      Probe(PrintSmbios(f), ENTRY_SIZE, noQuirks)
      == Some(Entry(Smbios, f.length, f.base, f.maxLen, f.num, 0x100 * version.0 as nat + version.1 as nat))
  {
    hide ChecksumOk, Layout, PrintSmbios, Word, DWord;
    PrintedBalanced(f);
    var outer, inner := PrintedLayout(f);
    LayoutHead(outer, inner, f);
    LayoutNumbers(outer, inner, f);
  }

  /**
   An entry point that announces one byte less than its inner checksum covers, with that byte
   not zero, is accepted, but the dump that is made of it is refused, whatever the table.
   */
  lemma ShortDumpRefused(f: SmbiosFields, table: seq<u8>)
    requires f.length == 0x1E && f.last != 0 && 0 < |table| <= f.maxLen
    ensures Probe(PrintSmbios(f), ENTRY_SIZE, true).Some?
    ensures FromDump(DumpFile(Craft(PrintSmbios(f), Smbios), 0x1E, table), true) == None
  {
    hide Probe, PrintSmbios, DumpFile, Craft, FromDump;
    SmbiosRoundTrip(f, true);
    DumpRoundTrip(PrintSmbios(f), ENTRY_SIZE, table, true);
  }

  /** A legacy entry point, with the version as two decimal digits. */
  function PrintLegacy(maxLen: u16, base: u32, num: u16, bcd: u8): Buffer {
    Balance(DMI + [0] + Two(maxLen) + Four(base) + Two(num) + [bcd] + Zeros(0x11), 5, 0, 0x0F)
  }

  lemma LegacyRoundTrip(maxLen: u16, base: u32, num: u16, bcd: u8, noQuirks: bool)
    ensures Probe(PrintLegacy(maxLen, base, num, bcd), ENTRY_SIZE, noQuirks)
      == Some(Entry(Legacy, 0x0F, base, maxLen, num, 0x100 * (bcd as nat / 0x10) + bcd as nat % 0x10))
  {
    hide Sum, Word, DWord, Two, Four, ChecksumOk;
    var a := DMI + [0] + Two(maxLen) + Four(base) + Two(num) + [bcd] + Zeros(0x11);
    var b := Balance(a, 5, 0, 0x0F);
    Balanced(a, 5, 0, 0x0F);
    assert b[0..0x0F] == b[..0x0F];
    assert b[..5] == DMI && DMI[1] != SM3[1] && b[..4][1] != SM[1];
    assert b[6..8] == Two(maxLen) && b[8..0x0C] == Four(base) && b[0x0C..0x0E] == Two(num);
    ReadTwo(b, 6, maxLen);
    ReadFour(b, 8, base);
    ReadTwo(b, 0x0C, num);
  }
}
