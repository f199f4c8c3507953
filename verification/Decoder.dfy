/**
 The two-pass table decoder. Its second pass masks strings in the table and repairs the
 length of some type 34 structures while it is walking over that same table.
 */
module Decoder {
  import opened Bytes
  import opened StringSet
  import opened Table

  datatype Header = Header(typ: u8, length: u8, handle: u16)

  function HeaderAt(b: seq<u8>, off: nat): Header
    requires off + HEADER <= |b|
  {
    Header(b[off], b[off + 1], Word(b, off + 2))
  }

  /**
   The string numbers that printing a structure asks for, in order. Which ones these are
   is settled by large code tables, so any choice that depends on the structure is allowed.
   */
  type Requests = (Header, seq<u8>) -> seq<u8>

  /** The options that stay fixed during a run. */
  datatype Setup = Setup(
    noQuirks: bool,
    types: Option<set<u8>>,
    handle: Option<u16>,
    keyword: Option<u8>,
    shown: Requests,
    picked: Requests)
  {
    predicate Displays(h: Header, quiet: bool) {
      && (types == None || h.typ in types.value)
      && (handle == None || handle.value == h.handle)
      && !(quiet && (h.typ == 126 || h.typ == 127))
      && keyword == None
    }
  }

  // ----- The type 34 fixup

  const FAULTY: u8 := 0x10
  const REPAIRED: u8 := 0x0B

  /** The length of an accepted structure once a common mistake has been repaired. */
  function RepairedLength(b: seq<u8>, v: Visit, noQuirks: bool): (length: u8)
    requires Accepted(b, v)
    ensures Sealed(b, v.off + length, v.next)
    ensures length <= b[v.off + 1]
    ensures length < b[v.off + 1] ==> Printable(b, v.off + length, v.off + b[v.off + 1])
  {
    if b[v.off] == 34 && !noQuirks && b[v.off + 1] == FAULTY && Printable(b, v.off + REPAIRED, v.off + FAULTY)
    then REPAIRED else b[v.off + 1]
  }

  method IsPrintable(buf: array<u8>, data: nat, len: nat) returns (r: bool)
    requires data + len <= buf.Length
    ensures r <==> forall k :: data <= k < data + len ==> 32 <= buf[k] <= 126
    ensures r == Printable(buf[..], data, data + len)
  {
    var i := 0;
    while i < len
      invariant 0 <= i <= len
      invariant Printable(buf[..], data, data + i)
    {
      if buf[data + i] < 32 || buf[data + i] >= 127 {
        return false;
      }
      i := i + 1;
    }
    return true;
  }

  /** Shortens a faulty type 34 header whose trailing bytes are text, with a warning unless told not to. */
  method FixupType34(buf: array<u8>, v: Visit, h: Header, quiet: bool, display: bool)
    returns (fixed: Header, warned: bool)
    requires Accepted(buf[..], v) && h == HeaderAt(buf[..], v.off) && h.typ == 34
    ensures fixed == h.(length := RepairedLength(buf[..], v, false))
    ensures fixed != h <==> h.length == 16 && forall k :: v.off + 11 <= k < v.off + 16 ==> 32 <= buf[k] <= 126
    ensures fixed != h ==> fixed.length == 11
    ensures warned == (fixed != h && !quiet && display)
  {
    fixed, warned := h, false;
    if h.length == FAULTY {
      var printable := IsPrintable(buf, v.off + REPAIRED, FAULTY - REPAIRED);
      if printable {
        warned := !quiet && display;
        fixed := h.(length := REPAIRED);
      }
    }
  }

  // ----- Messages

  /** Whether decoding v comes with the warning about a repaired length. */
  predicate WarnsRepair(b: seq<u8>, v: Visit, setup: Setup, quiet: bool) {
    && Accepted(b, v) && RepairedLength(b, v, setup.noQuirks) < b[v.off + 1]
    && !quiet && setup.Displays(HeaderAt(b, v.off), quiet)
  }

  function Repairs(b: seq<u8>, vs: seq<Visit>, setup: Setup, quiet: bool): seq<Visit> {
    if vs == [] then []
    else
      var front, v := Repairs(b, vs[..|vs| - 1], setup, quiet), vs[|vs| - 1];
      if WarnsRepair(b, v, setup, quiet) then front + [v] else front
  }

  lemma RepairsNext(b: seq<u8>, vs: seq<Visit>, v: Visit, setup: Setup, quiet: bool)
    ensures Repairs(b, vs + [v], setup, quiet) ==
      Repairs(b, vs, setup, quiet) + if WarnsRepair(b, v, setup, quiet) then [v] else []
  {
    assert (vs + [v])[..|vs|] == vs;
  }

  /** Everything that is complained about: the three final checks, a cut structure, repaired lengths. */
  datatype Messages = Messages(checks: Diagnostics, cut: bool, repairs: seq<Visit>)

  const SILENT := Messages(CLEAN, false, [])

  predicate NotesCut(b: seq<u8>, cut: Option<nat>, setup: Setup, quiet: bool) {
    cut.Some? && cut.value + HEADER <= |b| && !quiet && setup.Displays(HeaderAt(b, cut.value), quiet)
  }

  function MessagesFor(b: seq<u8>, r: Report, num: u16, setup: Setup, quiet: bool): Messages {
    Messages(Diagnose(r, num, |b|, quiet), NotesCut(b, r.cut, setup, quiet), Repairs(b, r.visits, setup, quiet))
  }

  lemma {:induction false} CutIsLong(b: seq<u8>, off: nat, i: nat, num: u16, quiet: bool, eot: bool)
    ensures var r := SecondPass(Parse(b, off), i, num, quiet, eot);
      r.cut.Some? ==> r.end > |b| && !r.broken && r.cut.value + HEADER <= |b|
    decreases |b| - off
  {
    match Parse(b, off)
    case End(_, _) =>
    case Link(v, _, _) =>
      CutIsLong(b, v.next, i + 1, num, quiet, eot);
  }

  /**
   The decoder prints no complaint at all exactly when the table is tiled by structures as
   announced and no length had to be repaired in a structure that is shown.
   */
  lemma SilentIff(b: seq<u8>, num: u16, setup: Setup, eot: bool)
    ensures var r := SecondPass(Parse(b, 0), 0, num, false, eot);
      && (forall v :: v in r.visits ==> v.off < |b|)
      && (MessagesFor(b, r, num, setup, false) == SILENT <==>
        && (if num != 0 then |r.visits| == num && Reach(r.visits, 0) == |b| else ToTheEnd(b, 0, r.visits, eot))
        && Repairs(b, r.visits, setup, false) == [])
  {
    hide SecondPass, Parse, Reach, ToTheEnd, Repairs, Setup.Displays;
    CleanIffTiled(b, num, eot);
    CutIsLong(b, 0, 0, num, false, eot);
  }

  // ----- What decoding does to the table

  /** The table after one structure has been decoded. */
  function DecodeOne(b: seq<u8>, v: Visit, setup: Setup, quiet: bool): (c: seq<u8>)
    ensures |c| == |b|
  {
    if !Accepted(b, v) then b
    else
      var h := HeaderAt(b, v.off).(length := RepairedLength(b, v, setup.noQuirks));
      if setup.Displays(h, quiet) then
        FilterAll(b, v.off + h.length, v.next, setup.shown(h, b[v.off..v.next]))
      else if setup.keyword == Some(h.typ) then
        FilterAll(b, v.off + h.length, v.next, setup.picked(h, b[v.off..v.next]))
      else b
  }

  /** The table after the structures of vs have been decoded in order. */
  function DecodeAll(b: seq<u8>, vs: seq<Visit>, setup: Setup, quiet: bool): (c: seq<u8>)
    ensures |c| == |b|
    decreases |vs|
  {
    if vs == [] then b
    else DecodeOne(DecodeAll(b, vs[..|vs| - 1], setup, quiet), vs[|vs| - 1], setup, quiet)
  }

  /** Decoding masks non-zero bytes of the string set only, even where the header was repaired. */
  lemma DecodeOneHarmless(b: seq<u8>, v: Visit, setup: Setup, quiet: bool)
    requires Accepted(b, v)
    ensures Harmless(b, DecodeOne(b, v, setup, quiet), v.off + b[v.off + 1], v.next)
  {
    var length := RepairedLength(b, v, setup.noQuirks);
    assert Harmless(b, DecodeOne(b, v, setup, quiet), v.off + length, v.next);
  }

  lemma {:induction false} ScanFollowsZeros(b: seq<u8>, c: seq<u8>, off: nat)
    requires |c| == |b| && forall k :: off <= k < |b| ==> (c[k] == 0 <==> b[k] == 0)
    ensures ScanEnd(c, off) == ScanEnd(b, off)
    decreases |b| - off
  {
    if off + 1 < |b| {
      ScanFollowsZeros(b, c, off + 1);
    }
  }

  /** The rest of a parse depends only on the rest of the table. */
  lemma {:induction false} ParseSuffix(b: seq<u8>, c: seq<u8>, off: nat)
    requires |c| == |b| && forall k :: off <= k < |b| ==> c[k] == b[k]
    ensures Parse(c, off) == Parse(b, off)
    decreases |b| - off
  {
    if off + HEADER <= |b| && b[off + 1] >= HEADER {
      ScanFollowsZeros(b, c, off + b[off + 1]);
      ParseSuffix(b, c, ScanEnd(b, off + b[off + 1]));
    }
  }

  lemma VisitSound(b: seq<u8>, off: nat, v: Visit)
    requires v in Visits(Parse(b, off))
    ensures Accepted(b, v) && off <= v.off && v.off + 6 <= v.next <= |b|
    ensures HEADER <= b[v.off + 1] && v.off + b[v.off + 1] <= v.next
    ensures off + HEADER <= |b| && b[off + 1] >= HEADER && off + b[off + 1] + 2 <= |b|
  {
    ParseSound(b, off);
  }

  lemma FirstOrLater(b: seq<u8>, off: nat, v: Visit)
    requires v in Visits(Parse(b, off))
    ensures off + HEADER <= |b|
    ensures v == Visit(off, ScanEnd(b, off + b[off + 1])) || v in Visits(Parse(b, ScanEnd(b, off + b[off + 1])))
  {
  }

  /** Tables with the same first header, the same first extent and the same rest parse alike. */
  lemma ParseHead(b: seq<u8>, c: seq<u8>, off: nat)
    requires |c| == |b| && off + HEADER <= |b| && c[off] == b[off] && c[off + 1] == b[off + 1]
    requires ScanEnd(c, off + b[off + 1]) == ScanEnd(b, off + b[off + 1])
    ensures var next := ScanEnd(b, off + b[off + 1]);
      Parse(c, next) == Parse(b, next) ==> Parse(c, off) == Parse(b, off)
  {
  }

  /** Masking the strings of one structure of a table leaves the whole parse as it was. */
  lemma {:induction false} ParseKept(b: seq<u8>, c: seq<u8>, off: nat, v: Visit, strings: nat)
    requires v in Visits(Parse(b, off))
    requires v.off + HEADER <= strings && Harmless(b, c, strings, v.next)
    ensures Parse(c, off) == Parse(b, off)
    decreases |b| - off
  {
    hide Accepted, ScanEnd, Sealed, Parse, Visits;
    VisitSound(b, off, v);
    assert c[off] == b[off] && c[off + 1] == b[off + 1];
    ScanFollowsZeros(b, c, off + b[off + 1]);
    FirstOrLater(b, off, v);
    ParseHead(b, c, off);
    var next := ScanEnd(b, off + b[off + 1]);
    if v == Visit(off, next) {
      ParseSuffix(b, c, next);
    } else {
      ParseKept(b, c, next, v, strings);
    }
  }

  /** Different structures of a parse do not overlap. */
  lemma {:induction false} Disjoint(b: seq<u8>, off: nat, v: Visit, w: Visit)
    requires v in Visits(Parse(b, off)) && w in Visits(Parse(b, off)) && v != w
    ensures v.next <= w.off || w.next <= v.off
    decreases |b| - off
  {
    match Parse(b, off)
    case Link(x, _, rest) =>
      if v == x {
        VisitSound(b, x.next, w);
      } else if w == x {
        VisitSound(b, x.next, v);
      } else {
        Disjoint(b, x.next, v, w);
      }
  }

  /** Masking the strings of v changes no byte of any formatted area. */
  lemma FormattedKept(b: seq<u8>, c: seq<u8>, v: Visit, w: Visit)
    requires v in Visits(Parse(b, 0)) && w in Visits(Parse(b, 0))
    requires v.off + 1 < |b| && w.off + 1 < |b| && w.off + b[w.off + 1] <= w.next <= |b|
    requires Harmless(b, c, v.off + b[v.off + 1], v.next)
    ensures |c| == |b| && forall k :: w.off <= k < w.off + b[w.off + 1] ==> c[k] == b[k]
  {
    hide Parse, Visits;
    if v != w {
      Disjoint(b, 0, v, w);
    }
  }

  /** c is b with non-zero string bytes of some of the structures masked, and nothing else changed. */
  ghost predicate OnlyStringsMasked(b: seq<u8>, c: seq<u8>, vs: seq<Visit>) {
    && |c| == |b|
    && forall k :: 0 <= k < |b| ==> c[k] == b[k] || (b[k] != 0 && c[k] == Mask(b[k]) && InStrings(b, vs, k))
  }

  /** Offset k lies in the string set of one of the structures. */
  ghost predicate InStrings(b: seq<u8>, vs: seq<Visit>, k: nat) {
    exists v :: v in vs && Accepted(b, v) && v.off + b[v.off + 1] <= k < v.next
  }

  lemma MaskedTwice(b: seq<u8>, m: seq<u8>, c: seq<u8>, vs: seq<Visit>, v: Visit)
    requires OnlyStringsMasked(b, m, vs)
    requires Accepted(b, v) && Harmless(m, c, v.off + b[v.off + 1], v.next)
    ensures OnlyStringsMasked(b, c, vs + [v])
  {
    forall k | 0 <= k < |b| && c[k] != b[k]
      ensures b[k] != 0 && c[k] == Mask(b[k]) && InStrings(b, vs + [v], k)
    {
      if c[k] != m[k] {
        assert v in vs + [v];
      } else {
        var w :| w in vs && Accepted(b, w) && w.off + b[w.off + 1] <= k < w.next;
        assert w in vs + [v];
      }
    }
  }

  /** v is a structure of both tables, with the same formatted area. */
  ghost predicate SameArea(b: seq<u8>, c: seq<u8>, v: Visit) {
    && Accepted(b, v) && Accepted(c, v)
    && forall k :: v.off <= k < v.off + b[v.off + 1] ==> c[k] == b[k]
  }

  lemma SameAreaStep(b: seq<u8>, m: seq<u8>, c: seq<u8>, v: Visit, w: Visit)
    requires w in Visits(Parse(m, 0)) && v in Visits(Parse(m, 0)) && Parse(c, 0) == Parse(m, 0)
    requires Parse(m, 0) == Parse(b, 0) && SameArea(b, m, w) && v.off + 1 < |m|
    requires Harmless(m, c, v.off + m[v.off + 1], v.next)
    ensures SameArea(b, c, w)
  {
    hide *;
    VisitSound(m, 0, w);
    VisitSound(c, 0, w);
    FormattedKept(m, c, v, w);
    SameAreaFrom(b, m, c, w);
  }

  lemma SameAreaFrom(b: seq<u8>, m: seq<u8>, c: seq<u8>, w: Visit)
    requires SameArea(b, m, w) && Accepted(c, w) && |c| == |m| && w.off + 1 < |m| && w.off + m[w.off + 1] <= |m|
    requires forall k :: w.off <= k < w.off + m[w.off + 1] ==> c[k] == m[k]
    ensures SameArea(b, c, w)
  {
    assert m[w.off + 1] == b[w.off + 1];
  }

  /** c is the table b after the structures of vs have been decoded, as far as a later walk can tell. */
  ghost predicate Safe(b: seq<u8>, c: seq<u8>, vs: seq<Visit>) {
    && OnlyStringsMasked(b, c, vs)
    && Parse(c, 0) == Parse(b, 0)
    && forall w :: w in Visits(Parse(b, 0)) ==> SameArea(b, c, w)
  }

  lemma SafeNone(b: seq<u8>)
    ensures Safe(b, b, [])
  {
    hide Parse, Visits, Accepted;
    ParseSound(b, 0);
  }

  lemma SafeStep(b: seq<u8>, m: seq<u8>, vs: seq<Visit>, v: Visit, setup: Setup, quiet: bool)
    requires Safe(b, m, vs) && v in Visits(Parse(b, 0))
    ensures Safe(b, DecodeOne(m, v, setup, quiet), vs + [v])
  {
    hide DecodeOne, Parse, Accepted, Harmless, OnlyStringsMasked, Visits;
    var c := DecodeOne(m, v, setup, quiet);
    VisitSound(m, 0, v);
    VisitSound(b, 0, v);
    DecodeOneHarmless(m, v, setup, quiet);
    ParseKept(m, c, 0, v, v.off + m[v.off + 1]);
    assert m[v.off + 1] == b[v.off + 1] by {
      assert SameArea(b, m, v);
    }
    MaskedTwice(b, m, c, vs, v);
    forall w | w in Visits(Parse(b, 0))
      ensures SameArea(b, c, w)
    {
      SameAreaStep(b, m, c, v, w);
    }
  }

  /**
   Decoding any selection of structures of a table masks non-zero string bytes only, so the
   table still has the same structures, with the same formatted areas and the same extents.
   */
  lemma {:induction false} DecodeAllSafe(b: seq<u8>, vs: seq<Visit>, setup: Setup, quiet: bool)
    requires forall v :: v in vs ==> v in Visits(Parse(b, 0))
    ensures Safe(b, DecodeAll(b, vs, setup, quiet), vs)
    decreases |vs|
  {
    hide Safe, Parse, Visits, DecodeOne;
    if vs == [] {
      SafeNone(b);
    } else {
      var init, v := vs[..|vs| - 1], vs[|vs| - 1];
      DecodeAllSafe(b, init, setup, quiet);
      SafeStep(b, DecodeAll(b, init, setup, quiet), init, v, setup, quiet);
      assert vs == init + [v];
    }
  }

  /** A structure of this type and handle is shown under these options. */
  predicate IsShown(setup: Setup, typ: int, handle: int, quiet: bool) {
    && setup.keyword == None
    && (setup.types.Some? ==> typ in setup.types.value)
    && (setup.handle.Some? ==> setup.handle.value == handle)
    && (quiet ==> typ != 126 && typ != 127)
  }

  /** The five bytes before the end of a type 34 header are text, although its length says otherwise. */
  predicate Faulty(b: seq<u8>, v: Visit) {
    && v.off + 16 <= |b| && b[v.off] == 34 && b[v.off + 1] == 16
    && forall k :: v.off + 11 <= k < v.off + 16 ==> 32 <= b[k] <= 126
  }

  /** A structure that starts at off is shown outside quiet mode. */
  predicate ShownAt(b: seq<u8>, off: nat, setup: Setup) {
    off + 4 <= |b| && IsShown(setup, b[off], b[off + 2] as int + 0x100 * b[off + 3] as int, false)
  }

  predicate RepairShown(b: seq<u8>, v: Visit, setup: Setup) {
    Faulty(b, v) && !setup.noQuirks && ShownAt(b, v.off, setup)
  }

  lemma {:induction false} RepairsAre(b: seq<u8>, vs: seq<Visit>, setup: Setup, quiet: bool, v: Visit)
    ensures v in Repairs(b, vs, setup, quiet) <==> v in vs && WarnsRepair(b, v, setup, quiet)
    decreases |vs|
  {
    hide WarnsRepair;
    if vs != [] {
      RepairsAre(b, vs[..|vs| - 1], setup, quiet, v);
      assert vs == vs[..|vs| - 1] + [vs[|vs| - 1]];
    }
  }

  /**
   Quiet mode silences everything. Otherwise a short entry is complained about and hides the
   other two checks, the count and the length are compared, a cut structure is noted if it would
   be shown, and so is each repaired length of a structure that is shown.
   */
  lemma MessagesExact(b: seq<u8>, r: Report, num: u16, setup: Setup, quiet: bool)
    requires forall v :: v in r.visits ==> Accepted(b, v)
    ensures var m := MessagesFor(b, r, num, setup, quiet);
      && (quiet ==> m == Messages(Diagnostics(false, false, false), false, []))
      && (!quiet ==>
        && m.checks.broken == r.broken
        && (m.checks.wrongCount <==> !r.broken && num != 0 && r.counted != num)
        && (m.checks.wrongLength <==> !r.broken && (r.end > |b| || (num != 0 && r.end != |b|)))
        && (m.cut <==> r.cut.Some? && ShownAt(b, r.cut.value, setup))
        && (forall v :: v in m.repairs <==> v in r.visits && RepairShown(b, v, setup)))
  {
    if quiet {
      NoRepairs(b, r.visits, setup);
    } else {
      forall v
        ensures v in Repairs(b, r.visits, setup, quiet) <==> v in r.visits && RepairShown(b, v, setup)
      {
        RepairsAre(b, r.visits, setup, quiet, v);
        if v in r.visits {
          RepairIff(b, v, setup.noQuirks);
        }
      }
    }
  }

  lemma {:induction false} NoRepairs(b: seq<u8>, vs: seq<Visit>, setup: Setup)
    ensures Repairs(b, vs, setup, true) == []
    decreases |vs|
  {
    if vs != [] {
      NoRepairs(b, vs[..|vs| - 1], setup);
    }
  }

  // ----- What has become of each structure

  /** The strings of the set at p are as before, except that those asked for are masked. */
  ghost predicate StringsMasked(b: seq<u8>, c: seq<u8>, p: nat, next: nat, asks: seq<u8>) {
    Sealed(b, p, next) && Sealed(c, p, next) && Strings(c, p, next) == MaskNamed(Strings(b, p, next), asks)
  }

  /**
   What decoding the table b into c means for a structure v, in terms of its bytes: one that is
   shown, or picked by its keyword, has the strings masked that are asked for, and no other;
   any other structure is as before. A faulty type 34 structure counts its first string from the
   place where its header should have ended.
   */
  ghost predicate DecodedAs(b: seq<u8>, c: seq<u8>, v: Visit, setup: Setup, quiet: bool)
    requires Accepted(b, v) && |c| == |b|
  {
    var typ, handle: int := b[v.off], b[v.off + 2] as int + 0x100 * b[v.off + 3] as int;
    var length := if Faulty(b, v) && !setup.noQuirks then 11 else b[v.off + 1];
    var header, bytes := Header(typ, length, handle), b[v.off..v.next];
    if IsShown(setup, typ, handle, quiet) then StringsMasked(b, c, v.off + length, v.next, setup.shown(header, bytes))
    else if setup.keyword == Some(typ) then StringsMasked(b, c, v.off + length, v.next, setup.picked(header, bytes))
    else c[v.off..v.next] == bytes
  }

  /** When and how a length is repaired. */
  lemma RepairIff(b: seq<u8>, v: Visit, noQuirks: bool)
    requires Accepted(b, v)
    ensures RepairedLength(b, v, noQuirks) != b[v.off + 1] <==> Faulty(b, v) && !noQuirks
    ensures RepairedLength(b, v, noQuirks) != b[v.off + 1] ==> RepairedLength(b, v, noQuirks) == 11
  {
  }

  lemma SameAccepted(b: seq<u8>, m: seq<u8>, v: Visit, noQuirks: bool)
    requires Accepted(b, v) && SameFrom(b, m, v.off)
    ensures Accepted(m, v) && RepairedLength(m, v, noQuirks) == RepairedLength(b, v, noQuirks)
    ensures HeaderAt(m, v.off) == HeaderAt(b, v.off) && m[v.off..v.next] == b[v.off..v.next]
  {
  }

  /** Strings depend on the bytes of their set only. */
  lemma SameStrings(b: seq<u8>, c: seq<u8>, p: nat, next: nat)
    requires Sealed(b, p, next) && |c| == |b| && forall k :: p <= k < next ==> c[k] == b[k]
    requires Sealed(c, p, next)
    ensures Strings(c, p, next) == Strings(b, p, next)
  {
    StartsFollowZeros(b, c, p, next);
    var starts := Starts(b, p, next);
    hide Starts, StringEnd;
    forall k | 0 <= k < |starts|
      ensures CString(c, starts[k], next) == CString(b, starts[k], next)
    {
    }
  }

  lemma MaskedWhole(m: seq<u8>, p: nat, next: nat, asks: seq<u8>)
    requires Sealed(m, p, next)
    ensures StringsMasked(m, FilterAll(m, p, next, asks), p, next, asks)
  {
    FilterAllExact(m, p, next, asks);
  }

  lemma MaskedFrom(b: seq<u8>, m: seq<u8>, c: seq<u8>, p: nat, next: nat, asks: seq<u8>)
    requires Sealed(b, p, next) && |m| == |b| && Sealed(m, p, next) && forall k :: p <= k < next ==> m[k] == b[k]
    requires StringsMasked(m, c, p, next, asks)
    ensures StringsMasked(b, c, p, next, asks)
  {
    SameStrings(b, m, p, next);
  }

  /** Decoding one structure of a table that is as it was from that structure on. */
  lemma DecodeOneAs(b: seq<u8>, m: seq<u8>, v: Visit, setup: Setup, quiet: bool)
    requires Accepted(b, v) && SameFrom(b, m, v.off)
    ensures DecodedAs(b, DecodeOne(m, v, setup, quiet), v, setup, quiet)
  {
    hide FilterAll, Strings, MaskNamed, StringsMasked;
    SameAccepted(b, m, v, setup.noQuirks);
    RepairIff(b, v, setup.noQuirks);
    var h := HeaderAt(b, v.off).(length := RepairedLength(b, v, setup.noQuirks));
    var p := v.off + h.length;
    var bytes := b[v.off..v.next];
    hide Accepted, RepairedLength;
    if setup.Displays(h, quiet) {
      MaskedWhole(m, p, v.next, setup.shown(h, bytes));
      MaskedFrom(b, m, DecodeOne(m, v, setup, quiet), p, v.next, setup.shown(h, bytes));
    } else if setup.keyword == Some(h.typ) {
      MaskedWhole(m, p, v.next, setup.picked(h, bytes));
      MaskedFrom(b, m, DecodeOne(m, v, setup, quiet), p, v.next, setup.picked(h, bytes));
    }
  }

  /** Decoding is not undone by changes elsewhere. */
  lemma DecodedStays(b: seq<u8>, m: seq<u8>, c: seq<u8>, w: Visit, setup: Setup, quiet: bool)
    requires Accepted(b, w) && |m| == |b| && DecodedAs(b, m, w, setup, quiet)
    requires |c| == |m| && forall k :: w.off <= k < w.next ==> c[k] == m[k]
    ensures DecodedAs(b, c, w, setup, quiet)
  {
    hide Strings, MaskNamed;
    assert c[w.off..w.next] == m[w.off..w.next];
    RepairIff(b, w, setup.noQuirks);
    var p := w.off + RepairedLength(b, w, setup.noQuirks);
    if Sealed(m, p, w.next) {
      SameStrings(m, c, p, w.next);
    }
  }

  lemma {:induction false} ContiguousOrdered(vs: seq<Visit>, from: nat, j: nat, k: nat)
    requires Contiguous(vs, from) && j < k < |vs| && forall v :: v in vs ==> v.off <= v.next
    ensures vs[j].next <= vs[k].off
    decreases k
  {
    if j < k - 1 {
      ContiguousOrdered(vs, from, j, k - 1);
      assert vs[k - 1] in vs && vs[k - 1].next == vs[k].off;
    }
  }

  /** The structures of the table that come first in it, followed by one more. */
  lemma NextVisit(b: seq<u8>, vs: seq<Visit>)
    requires vs != [] && vs <= Visits(Parse(b, 0))
    ensures var v := vs[|vs| - 1];
      && v in Visits(Parse(b, 0)) && Accepted(b, v)
      && v.off == Reach(vs[..|vs| - 1], 0)
      && forall w :: w in vs[..|vs| - 1] ==> w.next <= v.off
  {
    hide Accepted, Parse, Visits;
    ParseSound(b, 0);
    var all, n := Visits(Parse(b, 0)), |vs| - 1;
    assert vs[n] == all[n] && all[n] in all;
    if n > 0 {
      assert vs[..n][n - 1] == all[n - 1];
    }
    forall w | w in vs[..n]
      ensures w.next <= vs[n].off
    {
      var j :| 0 <= j < n && vs[..n][j] == w;
      ContiguousOrdered(all, 0, j, n);
    }
  }

  lemma ChangedInside(m: seq<u8>, v: Visit, setup: Setup, quiet: bool)
    requires Accepted(m, v)
    ensures forall k :: 0 <= k < |m| && !(v.off <= k < v.next) ==> DecodeOne(m, v, setup, quiet)[k] == m[k]
  {
    DecodeOneHarmless(m, v, setup, quiet);
  }

  /** After the first structures of a table have been decoded, each of them is as it should be, and the rest as it was. */
  lemma {:induction false} DecodeAllExact(b: seq<u8>, vs: seq<Visit>, setup: Setup, quiet: bool)
    requires vs <= Visits(Parse(b, 0))
    ensures forall w :: w in vs ==> Accepted(b, w) && DecodedAs(b, DecodeAll(b, vs, setup, quiet), w, setup, quiet)
    ensures SameFrom(b, DecodeAll(b, vs, setup, quiet), Reach(vs, 0))
    decreases |vs|
  {
    hide DecodedAs, Accepted, Parse, Visits, DecodeOne;
    if vs != [] {
      var init, v := vs[..|vs| - 1], vs[|vs| - 1];
      var m := DecodeAll(b, init, setup, quiet);
      var c := DecodeOne(m, v, setup, quiet);
      DecodeAllExact(b, init, setup, quiet);
      NextVisit(b, vs);
      SameAccepted(b, m, v, setup.noQuirks);
      DecodeOneAs(b, m, v, setup, quiet);
      DecodeOneRest(m, v, setup, quiet);
      ChangedInside(m, v, setup, quiet);
      forall w | w in init
        ensures DecodedAs(b, c, w, setup, quiet)
      {
        DecodedStays(b, m, c, w, setup, quiet);
      }
      assert forall w :: w in vs ==> w in init || w == v;
    }
  }

  // ----- The array code

  /** Puts already decoded structures in front of a report about the rest. */
  function Prepend(vs: seq<Visit>, r: Report): Report {
    r.(visits := vs + r.visits)
  }

  /** Looks for the structure after the one whose formatted area ends at off. */
  method NextStructure(buf: array<u8>, off: nat) returns (next: nat)
    ensures next == ScanEnd(buf[..], off)
  {
    next := off;
    ghost var b := buf[..];
    while next + 1 < buf.Length && (buf[next] != 0 || buf[next + 1] != 0)
      invariant ScanEnd(b, next) == ScanEnd(b, off)
      decreases buf.Length - next
    {
      next := next + 1;
    }
    next := next + 2;
  }

  lemma DecodeAllNone(b: seq<u8>, setup: Setup, quiet: bool)
    ensures DecodeAll(b, [], setup, quiet) == b
    ensures Repairs(b, [], setup, quiet) == []
  {
  }

  lemma DecodeAllNext(b: seq<u8>, vs: seq<Visit>, v: Visit, setup: Setup, quiet: bool)
    ensures DecodeAll(b, vs + [v], setup, quiet) == DecodeOne(DecodeAll(b, vs, setup, quiet), v, setup, quiet)
  {
    assert (vs + [v])[..|vs|] == vs;
  }

  /** The second pass decodes structures of the table only. */
  lemma {:induction false} DecodedAreVisits(sp: Spine, i: nat, num: u16, quiet: bool, eot: bool)
    ensures SecondPass(sp, i, num, quiet, eot).visits <= Visits(sp)
  {
    match sp
    case End(_, _) =>
    case Link(_, _, rest) =>
      DecodedAreVisits(rest, i + 1, num, quiet, eot);
  }

  lemma DecodeOneRest(b: seq<u8>, v: Visit, setup: Setup, quiet: bool)
    requires Accepted(b, v)
    ensures Parse(DecodeOne(b, v, setup, quiet), v.next) == Parse(b, v.next)
    ensures SameFrom(b, DecodeOne(b, v, setup, quiet), v.next)
  {
    hide Parse, DecodeOne, Accepted;
    DecodeOneHarmless(b, v, setup, quiet);
    ParseSuffix(b, DecodeOne(b, v, setup, quiet), v.next);
  }

  /** Both tables are the same from off on. */
  ghost predicate SameFrom(b: seq<u8>, c: seq<u8>, off: nat) {
    |c| == |b| && forall k :: off <= k < |b| ==> c[k] == b[k]
  }

  lemma HeaderSame(b: seq<u8>, c: seq<u8>, off: nat)
    requires SameFrom(b, c, off) && off + HEADER <= |b|
    ensures HeaderAt(c, off) == HeaderAt(b, off)
  {
  }

  lemma WarnsSame(b: seq<u8>, c: seq<u8>, v: Visit, setup: Setup, quiet: bool)
    requires SameFrom(b, c, v.off)
    ensures WarnsRepair(c, v, setup, quiet) == WarnsRepair(b, v, setup, quiet)
  {
    hide Setup.Displays;
    if v.off + HEADER <= |b| {
      HeaderSame(b, c, v.off);
    }
  }

  lemma ChecksRight(r: Report, num: u16, len: nat, quiet: bool)
    ensures Diagnose(r, num, len, quiet) ==
      if quiet || r.broken then Diagnostics(r.broken && !quiet, false, false)
      else Diagnostics(false, num != 0 && r.counted != num, r.end > len || (num != 0 && r.end < len))
  {
  }

  lemma MessagesRight(b: seq<u8>, r: Report, num: u16, setup: Setup, quiet: bool)
    ensures MessagesFor(b, r, num, setup, quiet) ==
      Messages(Diagnose(r, num, |b|, quiet), NotesCut(b, r.cut, setup, quiet), Repairs(b, r.visits, setup, quiet))
  {
  }

  /** One round of the first pass at an offset with room for a header. */
  lemma CollectCases(b: seq<u8>, off: nat, i: nat, num: u16, stop: bool)
    requires off + HEADER <= |b| && !LimitReached(i, num)
    ensures var vs := FirstPass(Parse(b, off), i, num, stop);
      if b[off + 1] < HEADER || (b[off] == END_OF_TABLE && stop) then vs == []
      else
        var next := ScanEnd(b, off + b[off + 1]);
        vs == if next > |b| then [] else [Visit(off, next)] + FirstPass(Parse(b, next), i + 1, num, stop)
  {
    ParseCases(b, off);
  }

  lemma CollectOver(b: seq<u8>, off: nat, i: nat, num: u16, stop: bool)
    requires off + HEADER > |b| || LimitReached(i, num)
    ensures FirstPass(Parse(b, off), i, num, stop) == []
  {
    ParseAt(b, off);
  }

  /** A first pass has visited these structures and stands at data, before its round i. */
  ghost predicate CollectedTo(b: seq<u8>, num: u16, stop: bool, visits: seq<Visit>, data: nat, i: nat) {
    FirstPass(Parse(b, 0), 0, num, stop) == visits + FirstPass(Parse(b, data), i, num, stop)
  }

  lemma CollectNone(b: seq<u8>, num: u16, stop: bool)
    ensures CollectedTo(b, num, stop, [], 0, 0)
  {
  }

  lemma CollectMore(b: seq<u8>, num: u16, stop: bool, visits: seq<Visit>, data: nat, i: nat, next: nat)
    requires CollectedTo(b, num, stop, visits, data, i)
    requires FirstPass(Parse(b, data), i, num, stop) ==
      [Visit(data, next)] + FirstPass(Parse(b, next), i + 1, num, stop)
    ensures CollectedTo(b, num, stop, visits + [Visit(data, next)], next, i + 1)
  {
    Regroup(FirstPass(Parse(b, 0), 0, num, stop), visits, FirstPass(Parse(b, data), i, num, stop),
            [Visit(data, next)], FirstPass(Parse(b, next), i + 1, num, stop));
  }

  lemma CollectDone(b: seq<u8>, num: u16, stop: bool, visits: seq<Visit>, data: nat, i: nat)
    requires CollectedTo(b, num, stop, visits, data, i) && FirstPass(Parse(b, data), i, num, stop) == []
    ensures FirstPass(Parse(b, 0), 0, num, stop) == visits
  {
  }

  /** One round of the second pass at an offset with room for a header. */
  lemma PassCases(b: seq<u8>, off: nat, i: nat, num: u16, quiet: bool, eot: bool)
    requires off + HEADER <= |b| && !LimitReached(i, num)
    ensures var r := SecondPass(Parse(b, off), i, num, quiet, eot);
      if b[off + 1] < HEADER then r == Report([], i, off, true, None)
      else
        var next := ScanEnd(b, off + b[off + 1]);
        if quiet && b[off] == END_OF_TABLE then r == Report([], i + 1, off, false, None)
        else if next > |b| then r == Report([], i + 1, next, false, Some(off))
        else
          && Accepted(b, Visit(off, next))
          && r == if b[off] == END_OF_TABLE && eot then Report([Visit(off, next)], i + 1, next, false, None)
                  else Prepend([Visit(off, next)], SecondPass(Parse(b, next), i + 1, num, quiet, eot))
  {
    ParseCases(b, off);
  }

  lemma PassOver(b: seq<u8>, off: nat, i: nat, num: u16, quiet: bool, eot: bool)
    requires off + HEADER > |b| || LimitReached(i, num)
    ensures SecondPass(Parse(b, off), i, num, quiet, eot) == Report([], i, off, false, None)
  {
    ParseAt(b, off);
  }

  lemma PrependTwice(vs: seq<Visit>, ws: seq<Visit>, r: Report)
    ensures Prepend(vs, Prepend(ws, r)) == Prepend(vs + ws, r)
  {
  }

  class TableReader {
    var quiet: bool
    const setup: Setup

    constructor (quiet: bool, setup: Setup)
      ensures this.quiet == quiet && this.setup == setup
    {
      this.quiet := quiet;
      this.setup := setup;
    }

    /** The first pass visits structures without touching the table. */
    method CollectPass(buf: array<u8>, num: u16) returns (visits: seq<Visit>)
      ensures visits == FirstPass(Parse(buf[..], 0), 0, num, quiet)
    {
      hide Parse, ScanEnd, Word, FirstPass, CollectedTo;
      ghost var b, stop := buf[..], quiet;
      var data, i := 0, 0;
      visits := [];
      CollectNone(b, num, stop);
      while (i < num || num == 0) && data + HEADER <= buf.Length
        invariant CollectedTo(b, num, stop, visits, data, i)
        decreases buf.Length - data
      {
        CollectCases(b, data, i, num, stop);
        var h := HeaderAt(buf[..], data);
        if h.length < HEADER || (h.typ == END_OF_TABLE && quiet) {
          CollectDone(b, num, stop, visits, data, i);
          return;
        }
        var next := NextStructure(buf, data + h.length);
        if next > buf.Length {
          CollectDone(b, num, stop, visits, data, i);
          return;
        }
        CollectMore(b, num, stop, visits, data, i, next);
        i := i + 1;
        visits := visits + [Visit(data, next)];
        data := next;
      }
      CollectOver(b, data, i, num, stop);
      CollectDone(b, num, stop, visits, data, i);
    }

    /** Decodes one structure: every string it asks for is looked up, and masked on the way. */
    method DecodeStructure(buf: array<u8>, v: Visit, h: Header, asks: seq<u8>)
      requires Accepted(buf[..], v) && Sealed(buf[..], v.off + h.length, v.next)
      modifies buf
      ensures buf[..] == FilterAll(old(buf[..]), v.off + h.length, v.next, asks)
    {
      hide FilterAll, Accepted, Strings, Harmless;
      ghost var b, p := buf[..], v.off + h.length;
      var k := 0;
      FilterAllNone(b, p, v.next);
      assert asks[..0] == [];
      while k < |asks|
        invariant 0 <= k <= |asks|
        invariant Sealed(buf[..], p, v.next)
        invariant buf[..] == FilterAll(b, p, v.next, asks[..k])
      {
        FilterAllNext(b, p, v.next, asks, k);
        var answer := DmiString(buf, v.off, h.length, asks[k], v.next);
        k := k + 1;
      }
      assert asks[..k] == asks;
    }

    /** Repairs the header of one structure and decodes it, for display or for its keyword. */
    method DecodeAccepted(buf: array<u8>, v: Visit, header: Header, display: bool) returns (warned: bool)
      requires Accepted(buf[..], v) && header == HeaderAt(buf[..], v.off)
      requires display == setup.Displays(header, quiet)
      modifies buf
      ensures buf[..] == DecodeOne(old(buf[..]), v, setup, quiet)
      ensures warned == WarnsRepair(old(buf[..]), v, setup, quiet)
    {
      hide FilterAll, Word;
      var h := header;
      warned := false;
      if h.typ == 34 && !setup.noQuirks {
        h, warned := FixupType34(buf, v, h, quiet, display);
      }
      if display {
        DecodeStructure(buf, v, h, setup.shown(h, buf[v.off..v.next]));
      } else if setup.keyword == Some(h.typ) {
        DecodeStructure(buf, v, h, setup.picked(h, buf[v.off..v.next]));
      }
    }

    /**
     The whole decoder. Although its second pass rewrites the table, both passes see the
     structures that the reference parse of the original table has, and the messages are
     those that the original table deserves.
     */
    method Decode(buf: array<u8>, num: u16, eot: bool)
      returns (visits: seq<Visit>, report: Report, messages: Messages)
      modifies this, buf
      ensures visits == FirstPass(Parse(old(buf[..]), 0), 0, num, old(quiet))
      ensures report == SecondPass(Parse(old(buf[..]), 0), 0, num, old(quiet), eot)
      ensures buf[..] == DecodeAll(old(buf[..]), report.visits, setup, old(quiet))
      ensures Safe(old(buf[..]), buf[..], report.visits)
      ensures forall v :: v in report.visits ==>
        Accepted(old(buf[..]), v) && DecodedAs(old(buf[..]), buf[..], v, setup, old(quiet))
      ensures messages == MessagesFor(old(buf[..]), report, num, setup, old(quiet))
      ensures quiet == (old(quiet) || report.broken)
    {
      ghost var b := buf[..];
      visits := CollectPass(buf, num);
      var complained, cut, repairs;
      report, complained, cut, repairs := DecodePass(buf, num, eot);
      assert Safe(b, buf[..], report.visits) by {
        DecodedAreVisits(Parse(b, 0), 0, num, old(quiet), eot);
        DecodeAllSafe(b, report.visits, setup, old(quiet));
      }
      DecodedAreVisits(Parse(b, 0), 0, num, old(quiet), eot);
      DecodeAllExact(b, report.visits, setup, old(quiet));
      hide *;
      var checks := Diagnostics(complained, false, false);
      if !quiet {
        checks := Diagnostics(false,
          num != 0 && report.counted != num,
          report.end > buf.Length || (num != 0 && report.end < buf.Length));
      }
      ChecksRight(report, num, buf.Length, old(quiet));
      messages := Messages(checks, cut, repairs);
      MessagesRight(b, report, num, setup, old(quiet));
    }

    /** The second pass; a short entry is complained about once and silences everything after it. */
    method DecodePass(buf: array<u8>, num: u16, eot: bool)
      returns (report: Report, complained: bool, cutShown: bool, repairs: seq<Visit>)
      modifies this, buf
      ensures report == SecondPass(Parse(old(buf[..]), 0), 0, num, old(quiet), eot)
      ensures buf[..] == DecodeAll(old(buf[..]), report.visits, setup, old(quiet))
      ensures quiet == (old(quiet) || report.broken)
      ensures complained == (report.broken && !old(quiet))
      ensures cutShown == NotesCut(old(buf[..]), report.cut, setup, old(quiet))
      ensures repairs == Repairs(old(buf[..]), report.visits, setup, old(quiet))
    {
      complained, cutShown, repairs := false, false, [];
      hide Parse, DecodeAll, DecodeOne, Accepted, ScanEnd, Word, Setup.Displays, Sealed, SecondPass;
      hide WarnsRepair, Repairs;
      ghost var b, quiet0 := buf[..], quiet;
      ghost var all := SecondPass(Parse(b, 0), 0, num, quiet, eot);
      var data, i, visits, broken, cut := 0, 0, [], false, None;
      ghost var ended := false;
      DecodeAllNone(b, setup, quiet);
      while (i < num || num == 0) && data + HEADER <= buf.Length
        invariant quiet == quiet0 && !broken && !complained && !ended && !cutShown && cut == None
        invariant all == Prepend(visits, SecondPass(Parse(buf[..], data), i, num, quiet, eot))
        invariant buf[..] == DecodeAll(b, visits, setup, quiet)
        invariant SameFrom(b, buf[..], data)
        invariant repairs == Repairs(b, visits, setup, quiet)
        decreases buf.Length - data
      {
        ghost var c := buf[..];
        PassCases(c, data, i, num, quiet, eot);
        var h := HeaderAt(buf[..], data);
        HeaderSame(b, c, data);
        var display := setup.Displays(h, quiet);
        if h.length < HEADER {
          if !quiet {
            complained := true;
            quiet := true;
          }
          broken := true;
          ended := true;
          break;
        }
        i := i + 1;
        if quiet && h.typ == END_OF_TABLE {
          ended := true;
          break;
        }
        var next := NextStructure(buf, data + h.length);
        if next > buf.Length {
          cutShown := display && !quiet;
          cut := Some(data);
          data := next;
          ended := true;
          break;
        }
        var v := Visit(data, next);
        var warned := DecodeAccepted(buf, v, h, display);
        DecodeAllNext(b, visits, v, setup, quiet);
        DecodeOneRest(c, v, setup, quiet);
        PrependTwice(visits, [v], SecondPass(Parse(c, next), i, num, quiet, eot));
        WarnsSame(b, c, v, setup, quiet);
        RepairsNext(b, visits, v, setup, quiet);
        if warned {
          repairs := repairs + [v];
        }
        visits := visits + [v];
        data := next;
        if h.typ == END_OF_TABLE && eot {
          ended := true;
          break;
        }
      }
      if !ended {
        PassOver(buf[..], data, i, num, quiet, eot);
      }
      report := Report(visits, i, data, broken, cut);
    }
  }
}
