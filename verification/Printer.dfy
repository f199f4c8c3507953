/**
 A printer for structure tables, inverse to the parse: sections 6.1.2 and 6.1.3 of DSP0134
 give the layout of a structure, header and formatted area first, then its strings.
 */
module Printer {
  import opened Bytes
  import opened StringSet
  import opened Table

  datatype Structure = Structure(formatted: seq<u8>, strings: seq<seq<u8>>)

  predicate Text(s: seq<u8>) {
    s != [] && forall k :: 0 <= k < |s| ==> s[k] != 0
  }

  predicate WellFormed(s: Structure) {
    && HEADER <= |s.formatted| < 0x100
    && s.formatted[1] == |s.formatted|
    && forall k :: 0 <= k < |s.strings| ==> Text(s.strings[k])
  }

  function Pack(strings: seq<seq<u8>>): seq<u8> {
    if strings == [] then [] else strings[0] + [0] + Pack(strings[1..])
  }

  function PrintStrings(strings: seq<seq<u8>>): seq<u8> {
    if strings == [] then [0, 0] else Pack(strings) + [0]
  }

  function Print(s: Structure): seq<u8> {
    s.formatted + PrintStrings(s.strings)
  }

  function PrintAll(xs: seq<Structure>): seq<u8> {
    if xs == [] then [] else Print(xs[0]) + PrintAll(xs[1..])
  }

  /** The structure that the walk finds at v. */
  function Read(b: seq<u8>, v: Visit): Structure
    requires Accepted(b, v)
  {
    var strings := v.off + b[v.off + 1];
    Structure(b[v.off..strings], Strings(b, strings, v.next))
  }

  // ----- Printing, then parsing

  lemma {:induction false} ScanSkipsText(b: seq<u8>, p: nat, e: nat)
    requires p <= e < |b| && forall k :: p <= k < e ==> b[k] != 0
    ensures ScanEnd(b, p) == ScanEnd(b, e)
    decreases e - p
  {
    if p < e {
      ScanSkipsText(b, p + 1, e);
    }
  }

  /** The first string of a packed set, its end, and what comes after it. */
  lemma PackedHead(b: seq<u8>, p: nat, strings: seq<seq<u8>>)
    requires strings != [] && Text(strings[0]) && StandsAt(b, p, Pack(strings) + [0])
    ensures var e := p + |strings[0]|;
      && e + 1 < |b| && b[e] == 0 && b[p..e] == strings[0] && (forall k :: p <= k < e ==> b[k] != 0)
      && StandsAt(b, e + 1, Pack(strings[1..]) + [0])
      && |Pack(strings)| == |strings[0]| + 1 + |Pack(strings[1..])|
  {
    var s, rest := strings[0], Pack(strings[1..]) + [0];
    assert Pack(strings) + [0] == s + ([0] + rest);
    assert |Pack(strings)| == |s| + 1 + |Pack(strings[1..])|;
    hide Pack;
    StandsSplit(b, p, s, [0] + rest);
    StandsSplit(b, p + |s|, [0], rest);
    assert b[p + |s|] == b[p + |s|..p + |s| + 1][0];
    forall k | p <= k < p + |s|
      ensures b[k] != 0
    {
      assert b[k] == b[p..p + |s|][k - p];
    }
  }

  lemma {:induction false} ScanPacked(b: seq<u8>, p: nat, strings: seq<seq<u8>>)
    requires strings != [] && forall k :: 0 <= k < |strings| ==> Text(strings[k])
    requires StandsAt(b, p, Pack(strings) + [0])
    ensures ScanEnd(b, p) == p + |Pack(strings)| + 1
    decreases |strings|
  {
    PackedHead(b, p, strings);
    var e := p + |strings[0]|;
    ScanSkipsText(b, p, e);
    if |strings| > 1 {
      PackedHead(b, e + 1, strings[1..]);
      ScanPacked(b, e + 1, strings[1..]);
    } else {
      assert b[e + 1] == b[e + 1..e + 2][0] == 0;
    }
  }

  lemma {:induction false} StringsPacked(b: seq<u8>, p: nat, strings: seq<seq<u8>>, next: nat)
    requires forall k :: 0 <= k < |strings| ==> Text(strings[k])
    requires StandsAt(b, p, Pack(strings) + [0]) && next == p + |Pack(strings)| + 1
    requires Sealed(b, p, next)
    ensures Strings(b, p, next) == strings
    decreases |strings|
  {
    hide Strings, Starts, StringEnd;
    StringsUnfold(b, p, next);
    if strings == [] {
      assert b[p] == b[p..p + 1][0] == 0;
    } else {
      PackedHead(b, p, strings);
      var e := p + |strings[0]|;
      StringEndSkips(b, p, e, next);
      StringsPacked(b, e + 1, strings[1..], next);
      assert strings == [strings[0]] + strings[1..];
    }
  }

  lemma ScanHere(b: seq<u8>, p: nat)
    requires p + 2 <= |b| && b[p] == 0 && b[p + 1] == 0
    ensures ScanEnd(b, p) == p + 2
  {
  }

  /** Where the two areas of a printed structure stand. */
  lemma PrintedAreas(b: seq<u8>, off: nat, s: Structure)
    requires WellFormed(s) && StandsAt(b, off, Print(s))
    ensures var p := off + |s.formatted|;
      && off + HEADER <= p <= |b| && b[off + 1] == |s.formatted| && b[off..p] == s.formatted
      && StandsAt(b, p, PrintStrings(s.strings))
      && off + |Print(s)| == p + |PrintStrings(s.strings)| <= |b|
      && forall k :: 0 <= k < |s.strings| ==> Text(s.strings[k])
  {
    hide PrintStrings, Text;
    StandsSplit(b, off, s.formatted, PrintStrings(s.strings));
    assert b[off + 1] == b[off..off + |s.formatted|][1];
  }

  lemma EmptySetFound(b: seq<u8>, p: nat)
    requires StandsAt(b, p, [0, 0])
    ensures ScanEnd(b, p) == p + 2 && Sealed(b, p, p + 2) && Strings(b, p, p + 2) == []
  {
    hide Strings, ScanEnd;
    assert b[p] == b[p..p + 2][0] && b[p + 1] == b[p..p + 2][1];
    ScanHere(b, p);
    StringsUnfold(b, p, p + 2);
  }

  /** A printed string set ends where the scan ends, and holds the strings. */
  lemma PrintedSet(b: seq<u8>, p: nat, strings: seq<seq<u8>>)
    requires forall k :: 0 <= k < |strings| ==> Text(strings[k])
    requires StandsAt(b, p, PrintStrings(strings))
    ensures var next := p + |PrintStrings(strings)|;
      && ScanEnd(b, p) == next && Sealed(b, p, next) && Strings(b, p, next) == strings
  {
    hide Pack, ScanEnd, Strings, Text, Sealed;
    if strings == [] {
      EmptySetFound(b, p);
    } else {
      ScanPacked(b, p, strings);
      SealedByScan(b, p);
      StringsPacked(b, p, strings, p + |PrintStrings(strings)|);
    }
  }

  lemma SealedByScan(b: seq<u8>, p: nat)
    requires ScanEnd(b, p) <= |b|
    ensures Sealed(b, p, ScanEnd(b, p))
  {
    ScanEndFirstPair(b, p);
  }

  lemma AcceptedByScan(b: seq<u8>, off: nat)
    requires off + HEADER <= |b| && b[off + 1] >= HEADER && ScanEnd(b, off + b[off + 1]) <= |b|
    ensures Accepted(b, Visit(off, ScanEnd(b, off + b[off + 1])))
  {
    ScanEndFirstPair(b, off + b[off + 1]);
  }

  lemma ReadAt(b: seq<u8>, v: Visit, p: nat)
    requires Accepted(b, v) && p == v.off + b[v.off + 1]
    ensures Read(b, v) == Structure(b[v.off..p], Strings(b, p, v.next))
  {
  }

  /** A printed structure is found where it stands, with its extent and contents. */
  lemma PrintedIsAccepted(b: seq<u8>, off: nat, s: Structure)
    requires WellFormed(s) && StandsAt(b, off, Print(s))
    ensures var v := Visit(off, off + |Print(s)|);
      && Accepted(b, v) && ScanEnd(b, off + b[off + 1]) == v.next && b[off + 1] == |s.formatted|
      && Read(b, v) == s
  {
    hide *;
    PrintedAreas(b, off, s);
    var p := off + |s.formatted|;
    PrintedSet(b, p, s.strings);
    AcceptedByScan(b, off);
    ReadAt(b, Visit(off, off + |Print(s)|), p);
  }

  lemma StandsAlone(b: seq<u8>)
    ensures StandsAt(b, 0, b)
  {
  }

  /** A structure that is alone in a table. */
  lemma PrintedAlone(s: Structure)
    requires WellFormed(s)
    ensures var b, v := Print(s), Visit(0, |Print(s)|);
      |b| > 1 && Accepted(b, v) && Read(b, v) == s && b[1] == |s.formatted|
  {
    hide *;
    StandsAlone(Print(s));
    PrintedAreas(Print(s), 0, s);
    PrintedIsAccepted(Print(s), 0, s);
  }

  /** Sets of 255 one-letter strings occur in accepted structures. */
  const FULL := Structure([0, 4, 0, 0], seq(0xFF, _ => [65]))

  lemma FullDumpEndless()
    ensures var b, v := Print(FULL), Visit(0, |Print(FULL)|);
      Accepted(b, v) && |Read(b, v).strings| == 0xFF && !DumpEnds(b, 4, v.next)
  {
    var b, v := Print(FULL), Visit(0, |Print(FULL)|);
    assert WellFormed(FULL) by {
      FullWellFormed();
    }
    hide Print, WellFormed, DumpEnds, Strings, Accepted, Read;
    PrintedAlone(FULL);
    AcceptedSealed(b, v);
    ReadAt(b, v, 4);
    DumpLoopEndsIff(b, 4, v.next);
  }

  lemma FullWellFormed()
    ensures WellFormed(FULL) && |FULL.strings| == 0xFF && |FULL.formatted| == 4
  {
  }

  lemma AcceptedSealed(b: seq<u8>, v: Visit)
    requires Accepted(b, v)
    ensures Sealed(b, v.off + b[v.off + 1], v.next)
  {
  }

  /** vs are accepted structures of b and hold xs, in order. */
  ghost predicate Hold(b: seq<u8>, vs: seq<Visit>, xs: seq<Structure>) {
    |vs| == |xs| && forall k :: 0 <= k < |vs| ==> Accepted(b, vs[k]) && Read(b, vs[k]) == xs[k]
  }

  lemma HoldNone(b: seq<u8>)
    ensures Hold(b, [], [])
  {
  }

  lemma HoldMore(b: seq<u8>, v: Visit, vs: seq<Visit>, xs: seq<Structure>)
    requires xs != [] && Accepted(b, v) && Read(b, v) == xs[0] && Hold(b, vs, xs[1..])
    ensures Hold(b, [v] + vs, xs)
  {
    hide Accepted, Read;
  }

  /** The first structure of a printed table, and the table that follows it. */
  lemma PrintedHead(b: seq<u8>, off: nat, xs: seq<Structure>)
    requires xs != [] && WellFormed(xs[0])
    requires off <= |b| && b[off..] == PrintAll(xs)
    ensures var v := Visit(off, off + |Print(xs[0])|);
      && v.next <= |b| && b[v.next..] == PrintAll(xs[1..])
      && Accepted(b, v) && Read(b, v) == xs[0]
      && Parse(b, off) == Link(v, xs[0].formatted[0], Parse(b, v.next))
  {
    hide Parse, ScanEnd, Accepted, Read, PrintStrings;
    var s, rest := xs[0], PrintAll(xs[1..]);
    var next := off + |Print(s)|;
    assert PrintAll(xs) == Print(s) + rest;
    StandsSplit(b, off, Print(s), rest);
    assert b[next..] == b[next..next + |rest|];
    assert b[off] == b[off..next][0] == s.formatted[0];
    PrintedIsAccepted(b, off, s);
    ParseCases(b, off);
  }

  lemma {:induction false} ParsePrinted(b: seq<u8>, off: nat, xs: seq<Structure>)
    requires forall k :: 0 <= k < |xs| ==> WellFormed(xs[k])
    requires off <= |b| && b[off..] == PrintAll(xs)
    ensures Hold(b, Visits(Parse(b, off)), xs)
    ensures Reach(Visits(Parse(b, off)), off) == |b|
    decreases |xs|
  {
    hide Parse, ScanEnd, Accepted, Read, Print, WellFormed, Hold;
    ParseAt(b, off);
    if xs == [] {
      HoldNone(b);
    } else {
      var next := off + |Print(xs[0])|;
      PrintedHead(b, off, xs);
      ParsePrinted(b, next, xs[1..]);
      HoldMore(b, Visit(off, next), Visits(Parse(b, next)), xs);
    }
  }

  /** Parsing a printed table finds exactly the structures that were printed. */
  lemma ParsePrint(xs: seq<Structure>)
    requires forall k :: 0 <= k < |xs| ==> WellFormed(xs[k])
    ensures Hold(PrintAll(xs), Visits(Parse(PrintAll(xs), 0)), xs)
  {
    assert PrintAll(xs)[0..] == PrintAll(xs);
    ParsePrinted(PrintAll(xs), 0, xs);
  }

  /** How many of the structures a first pass keeps under a count and a stop at the marker. */
  function Kept(xs: seq<Structure>, i: nat, num: u16, stop: bool): (n: nat)
    requires forall k :: 0 <= k < |xs| ==> WellFormed(xs[k])
    ensures n <= |xs|
    decreases |xs|
  {
    if xs == [] || LimitReached(i, num) then 0
    else if assert WellFormed(xs[0]); xs[0].formatted[0] == END_OF_TABLE && stop then 0
    else 1 + Kept(xs[1..], i + 1, num, stop)
  }

  lemma {:induction false} FirstPassPrinted(b: seq<u8>, off: nat, xs: seq<Structure>, i: nat, num: u16, stop: bool)
    requires forall k :: 0 <= k < |xs| ==> WellFormed(xs[k])
    requires off <= |b| && b[off..] == PrintAll(xs)
    ensures Hold(b, FirstPass(Parse(b, off), i, num, stop), xs[..Kept(xs, i, num, stop)])
    decreases |xs|
  {
    hide Parse, ScanEnd, Accepted, Read, Print, Hold;
    ParseAt(b, off);
    var n := Kept(xs, i, num, stop);
    if xs == [] {
      HoldNone(b);
    } else {
      PrintedHead(b, off, xs);
      if n == 0 {
        HoldNone(b);
      } else {
        var next := off + |Print(xs[0])|;
        FirstPassPrinted(b, next, xs[1..], i + 1, num, stop);
        assert xs[..n][1..] == xs[1..][..n - 1];
        HoldMore(b, Visit(off, next), FirstPass(Parse(b, next), i + 1, num, stop), xs[..n]);
      }
    }
  }

  /**
   The round trip through both passes: the first pass finds the printed structures, cut
   off by the count and the marker rule, and a printed table whose count is announced
   is decoded completely and without complaint.
   */
  lemma PassesOnPrinted(xs: seq<Structure>, num: u16, stop: bool)
    requires forall k :: 0 <= k < |xs| ==> WellFormed(xs[k])
    ensures var b := PrintAll(xs);
      && Hold(b, FirstPass(Parse(b, 0), 0, num, stop), xs[..Kept(xs, 0, num, stop)])
      && (num != 0 && num == |xs| ==>
        var r := SecondPass(Parse(b, 0), 0, num, false, false);
        Hold(b, r.visits, xs) && Diagnose(r, num, |b|, false) == CLEAN)
  {
    hide Parse, Accepted, Read, FirstPass, SecondPass, PrintAll, Visits;
    var b := PrintAll(xs);
    assert b[0..] == b;
    FirstPassPrinted(b, 0, xs, 0, num, stop);
    if num != 0 && num == |xs| {
      ParsePrinted(b, 0, xs);
      SecondPassExact(b, 0, 0, num, false, false);
      FirstPassPrinted(b, 0, xs, 0, num, false);
      KeptAll(xs, 0, num);
      assert xs[..|xs|] == xs;
      CountAndEnd(b, 0, 0, num, false);
      var vs, all := SecondPass(Parse(b, 0), 0, num, false, false).visits, Visits(Parse(b, 0));
      assert vs == all;
      CleanIffTiled(b, num, false);
    }
  }

  lemma {:induction false} KeptAll(xs: seq<Structure>, i: nat, num: u16)
    requires forall k :: 0 <= k < |xs| ==> WellFormed(xs[k])
    requires num == 0 || i + |xs| <= num
    ensures Kept(xs, i, num, false) == |xs|
    decreases |xs|
  {
    if xs != [] {
      KeptAll(xs[1..], i + 1, num);
    }
  }

  // ----- Parsing, then printing

  lemma {:induction false} PackFound(b: seq<u8>, p: nat, next: nat)
    requires Sealed(b, p, next) && b[p] != 0
    requires forall k :: p <= k < next - 2 ==> b[k] != 0 || b[k + 1] != 0
    ensures Pack(Strings(b, p, next)) + [0] == b[p..next]
    decreases next - p
  {
    hide Strings, Starts, StringEnd, Pack;
    PackNone();
    StringsUnfold(b, p, next);
    var e := StringEnd(b, p, next);
    StringsUnfold(b, e + 1, next);
    assert b[p..next] == b[p..e] + [0] + b[e + 1..next];
    PackCons(CString(b, p, next), Strings(b, e + 1, next));
    if b[e + 1] == 0 {
      assert e + 2 == next;
      assert b[e + 1..next] == [0];
    } else {
      PackFound(b, e + 1, next);
    }
  }

  lemma PackNone()
    ensures Pack([]) == []
  {
  }

  lemma PackCons(s: seq<u8>, strings: seq<seq<u8>>)
    ensures Pack([s] + strings) + [0] == s + [0] + (Pack(strings) + [0])
  {
    assert ([s] + strings)[1..] == strings;
  }

  /**
   Printing what was read gives back the bytes of the structure exactly when its string
   set does not start with a lone zero byte.
   */
  lemma PrintReadIff(b: seq<u8>, v: Visit)
    requires Accepted(b, v)
    ensures var p := v.off + b[v.off + 1];
      Print(Read(b, v)) == b[v.off..v.next] <==> b[p] != 0 || b[p + 1] == 0
  {
    hide Strings, Starts, StringEnd, Pack;
    var p := v.off + b[v.off + 1];
    assert b[v.off..v.next] == b[v.off..p] + b[p..v.next];
    StringsUnfold(b, p, v.next);
    if b[p] != 0 {
      PackFound(b, p, v.next);
      assert Print(Read(b, v)) == b[v.off..p] + b[p..v.next];
    } else {
      assert Read(b, v).strings == [];
      assert Print(Read(b, v)) == b[v.off..p] + [0, 0];
      if b[p + 1] == 0 {
        assert v.next == p + 2;
      } else {
        assert |b[p..v.next]| > 2;
      }
    }
  }
}
