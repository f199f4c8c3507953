/**
 The walk over an SMBIOS structure table (section 6.1 of DSP0134). A structure is a
 formatted area, whose second byte is its length, and a string set closed by two zero bytes.
 Spine is the reference parse of a table; the two passes of the decoder are described as
 selections from it, and the array code is proved to compute these selections although
 its second pass rewrites the table while it walks.
 */
module Table {
  import opened Bytes
  import opened StringSet

  const HEADER := 4
  const END_OF_TABLE: u8 := 127

  // ----- Reference parse

  /** The offsets that an accepted structure takes up: [off, next). */
  datatype Visit = Visit(off: nat, next: nat)

  datatype Stop =
    | OutOfTable                      // no room for a header
    | Short                           // announced length below the header size
    | Truncated(typ: u8, next: nat)   // the closing zero bytes lie beyond the table

  datatype Spine = End(at: nat, why: Stop) | Link(v: Visit, typ: u8, rest: Spine)

  /** The offset just after the first pair of zero bytes at or after off, beyond b when there is none. */
  function ScanEnd(b: seq<u8>, off: nat): (next: nat)
    ensures next >= off + 2
    decreases |b| - off
  {
    if off + 1 < |b| && (b[off] != 0 || b[off + 1] != 0) then ScanEnd(b, off + 1) else off + 2
  }

  /** The scan stops at the first pair of zero bytes, and only there within the table. */
  lemma {:induction false} ScanEndFirstPair(b: seq<u8>, off: nat)
    ensures var next := ScanEnd(b, off);
      && (next <= |b| ==> b[next - 2] == 0 && b[next - 1] == 0)
      && (forall k :: off <= k && k + 1 < |b| && k + 2 < next ==> b[k] != 0 || b[k + 1] != 0)
    decreases |b| - off
  {
    if off + 1 < |b| && (b[off] != 0 || b[off + 1] != 0) {
      ScanEndFirstPair(b, off + 1);
    }
  }

  /** The structures of a table, one after the other, up to the first that cannot be one. */
  function Parse(b: seq<u8>, off: nat): (sp: Spine)
    decreases |b| - off
  {
    if off + HEADER > |b| then End(off, OutOfTable)
    else if b[off + 1] < HEADER then End(off, Short)
    else
      var next := ScanEnd(b, off + b[off + 1]);
      if next > |b| then End(off, Truncated(b[off], next))
      else Link(Visit(off, next), b[off], Parse(b, next))
  }

  /** v is a structure of b: it starts with a sound header and ends at the first zero pair after its formatted area. */
  predicate Accepted(b: seq<u8>, v: Visit) {
    && v.off + HEADER <= |b|
    && b[v.off + 1] >= HEADER
    && v.off + b[v.off + 1] + 2 <= v.next <= |b|
    && Sealed(b, v.off + b[v.off + 1], v.next)
    && forall k :: v.off + b[v.off + 1] <= k < v.next - 2 ==> b[k] != 0 || b[k + 1] != 0
  }

  // ----- The two passes as selections from the parse

  predicate LimitReached(i: nat, num: u16) {
    num != 0 && i >= num
  }

  /**
   What the first pass visits. It stops at the end-of-table marker in quiet mode only: the other
   bit that it tests is the one that asks for help, with which the program ends before.
   */
  function FirstPass(sp: Spine, i: nat, num: u16, stop: bool): seq<Visit> {
    match sp
    case End(_, _) => []
    case Link(v, typ, rest) =>
      if LimitReached(i, num) || (typ == END_OF_TABLE && stop) then []
      else [v] + FirstPass(rest, i + 1, num, stop)
  }

  /**
   What the second pass decodes, how many structures it counts, where it ends, whether it met
   a short entry, and where a structure starts that the end of the table cuts off.
   */
  datatype Report = Report(visits: seq<Visit>, counted: nat, end: nat, broken: bool, cut: Option<nat>)

  function Position(sp: Spine): nat {
    match sp
    case End(at, _) => at
    case Link(v, _, _) => v.off
  }

  function SecondPass(sp: Spine, i: nat, num: u16, quiet: bool, eot: bool): Report {
    if LimitReached(i, num) then Report([], i, Position(sp), false, None)
    else
      match sp
      case End(at, OutOfTable) => Report([], i, at, false, None)
      case End(at, Short) => Report([], i, at, true, None)
      case End(at, Truncated(typ, next)) =>
        if quiet && typ == END_OF_TABLE then Report([], i + 1, at, false, None)
        else Report([], i + 1, next, false, Some(at))
      case Link(v, typ, rest) =>
        if quiet && typ == END_OF_TABLE then Report([], i + 1, v.off, false, None)
        else if typ == END_OF_TABLE && eot then Report([v], i + 1, v.next, false, None)
        else
          var r := SecondPass(rest, i + 1, num, quiet, eot);
          r.(visits := [v] + r.visits)
  }

  // ----- Properties of the parse

  /** All structures of a parse. */
  function Visits(sp: Spine): seq<Visit> {
    match sp
    case End(_, _) => []
    case Link(v, _, rest) => [v] + Visits(rest)
  }

  /** Structures follow each other without gaps, starting at from. */
  predicate Contiguous(vs: seq<Visit>, from: nat) {
    && (vs != [] ==> vs[0].off == from)
    && forall k :: 0 <= k < |vs| - 1 ==> vs[k].next == vs[k + 1].off
  }

  /** Every structure of a parse is accepted, they are contiguous, and each takes at least six bytes. */
  lemma {:induction false} ParseSound(b: seq<u8>, off: nat)
    ensures Contiguous(Visits(Parse(b, off)), off)
    ensures forall v :: v in Visits(Parse(b, off)) ==> Accepted(b, v) && off <= v.off && v.off + 6 <= v.next
    ensures off <= |b| ==> off + 6 * |Visits(Parse(b, off))| <= |b|
    decreases |b| - off
  {
    match Parse(b, off)
    case End(_, _) =>
    case Link(v, _, rest) =>
      ParseSound(b, v.next);
      ScanEndFirstPair(b, off + b[off + 1]);
      assert Accepted(b, v);
  }

  /** The end of an accepted structure is determined by where it starts. */
  lemma AcceptedUnique(b: seq<u8>, v: Visit, w: Visit)
    requires Accepted(b, v) && Accepted(b, w) && v.off == w.off
    ensures v == w
  {
  }

  /** Nothing is skipped: where the parse ends, no accepted structure starts. */
  lemma {:induction false} ParseComplete(b: seq<u8>, off: nat, v: Visit)
    requires v.off == (if Visits(Parse(b, off)) == [] then off else Visits(Parse(b, off))[|Visits(Parse(b, off))| - 1].next)
    ensures !Accepted(b, v)
    decreases |b| - off
  {
    match Parse(b, off)
    case End(_, _) =>
      if off + HEADER <= |b| {
        ScanEndFirstPair(b, off + b[off + 1]);
      }
    case Link(w, _, rest) =>
      assert Visits(Parse(b, off)) == [w] + Visits(rest);
      ParseComplete(b, w.next, v);
  }

  lemma ParseAt(b: seq<u8>, off: nat)
    ensures Position(Parse(b, off)) == off
    ensures off + HEADER > |b| ==> Parse(b, off) == End(off, OutOfTable)
  {
  }

  /** What the parse does at an offset with room for a header. */
  lemma ParseCases(b: seq<u8>, off: nat)
    requires off + HEADER <= |b|
    ensures b[off + 1] < HEADER ==> Parse(b, off) == End(off, Short)
    ensures b[off + 1] >= HEADER ==>
      var next := ScanEnd(b, off + b[off + 1]);
      if next > |b| then Parse(b, off) == End(off, Truncated(b[off], next))
      else Parse(b, off) == Link(Visit(off, next), b[off], Parse(b, next)) && Accepted(b, Visit(off, next))
  {
    if b[off + 1] >= HEADER {
      ScanEndFirstPair(b, off + b[off + 1]);
    }
  }

  // ----- The passes against each other

  /** The second pass decodes a prefix of what the first pass visited. */
  lemma {:induction false} PrefixKept(sp: Spine, i: nat, num: u16, quiet: bool, eot: bool)
    ensures SecondPass(sp, i, num, quiet, eot).visits <= FirstPass(sp, i, num, quiet)
  {
    match sp
    case End(_, _) =>
    case Link(v, typ, rest) =>
      PrefixKept(rest, i + 1, num, quiet, eot);
  }

  /**
   The first pass visits as many structures from the start of the table as the count and, when
   it stops at markers, the marker allow: none of them can be left out, and no more be added.
   */
  lemma {:induction false} FirstPassExact(b: seq<u8>, off: nat, i: nat, num: u16, stop: bool)
    requires num != 0 ==> i <= num
    ensures var vs, all := FirstPass(Parse(b, off), i, num, stop), Visits(Parse(b, off));
      && vs <= all && (forall v :: v in all ==> v.off < |b|)
      && (num != 0 ==> i + |vs| <= num)
      && (stop ==> forall v :: v in vs ==> b[v.off] != END_OF_TABLE)
      && (|vs| < |all| ==> (num != 0 && i + |vs| == num) || (stop && b[all[|vs|].off] == END_OF_TABLE))
    decreases |b| - off
  {
    match Parse(b, off)
    case End(_, _) =>
    case Link(v, typ, rest) =>
      if !LimitReached(i, num) && !(typ == END_OF_TABLE && stop) {
        FirstPassExact(b, v.next, i + 1, num, stop);
        hide Parse;
        assert FirstPass(Link(v, typ, rest), i, num, stop) == [v] + FirstPass(rest, i + 1, num, stop);
      } else {
        ParseSound(b, off);
      }
  }

  /** The structures up to and including the first end-of-table marker. */
  function ThroughMarker(b: seq<u8>, vs: seq<Visit>): seq<Visit>
    requires forall v :: v in vs ==> v.off < |b|
  {
    if vs == [] then []
    else if b[vs[0].off] == END_OF_TABLE then [vs[0]]
    else [vs[0]] + ThroughMarker(b, vs[1..])
  }

  /** Where exactly the second pass ends, relative to a first pass that ignores the marker. */
  lemma {:induction false} SecondPassExact(b: seq<u8>, off: nat, i: nat, num: u16, quiet: bool, eot: bool)
    ensures var r, sp := SecondPass(Parse(b, off), i, num, quiet, eot), Parse(b, off);
      && (forall v :: v in FirstPass(sp, i, num, false) ==> v.off < |b|)
      && r.visits ==
        if quiet then FirstPass(sp, i, num, true)
        else if eot then ThroughMarker(b, FirstPass(sp, i, num, false))
        else FirstPass(sp, i, num, false)
    decreases |b| - off
  {
    match Parse(b, off)
    case End(_, _) =>
    case Link(v, typ, rest) =>
      SecondPassExact(b, v.next, i + 1, num, quiet, eot);
      var tail := FirstPass(rest, i + 1, num, false);
      if !LimitReached(i, num) {
        assert FirstPass(Parse(b, off), i, num, false) == [v] + tail;
        assert ([v] + tail)[1..] == tail;
      }
  }

  /** No marker comes before the last of these structures. */
  predicate MarkerLast(b: seq<u8>, vs: seq<Visit>)
    requires forall v :: v in vs ==> v.off < |b|
  {
    forall k :: 0 <= k < |vs| - 1 ==> b[vs[k].off] != END_OF_TABLE
  }

  lemma MarkerLastFirst(b: seq<u8>, vs: seq<Visit>)
    requires vs != [] && forall v :: v in vs ==> v.off < |b|
    ensures MarkerLast(b, vs) <==> |vs| == 1 || (b[vs[0].off] != END_OF_TABLE && MarkerLast(b, vs[1..]))
  {
    assert forall k :: 1 <= k < |vs| ==> vs[k] == vs[1..][k - 1];
    if |vs| > 1 && b[vs[0].off] != END_OF_TABLE && MarkerLast(b, vs[1..]) {
      forall k | 0 <= k < |vs| - 1
        ensures b[vs[k].off] != END_OF_TABLE
      {
        assert k > 0 ==> vs[k] == vs[1..][k - 1];
      }
    }
    if MarkerLast(b, vs) {
      forall k | 0 <= k < |vs[1..]| - 1
        ensures b[vs[1..][k].off] != END_OF_TABLE
      {
        assert vs[1..][k] == vs[k + 1];
      }
    }
  }

  lemma {:induction false} WholeThroughMarkerIff(b: seq<u8>, vs: seq<Visit>)
    requires forall v :: v in vs ==> v.off < |b|
    ensures |ThroughMarker(b, vs)| <= |vs|
    ensures ThroughMarker(b, vs) == vs <==> MarkerLast(b, vs)
    decreases |vs|
  {
    hide MarkerLast;
    if vs == [] {
      assert MarkerLast(b, vs) by {
        NoMarker(b);
      }
    } else {
      MarkerLastFirst(b, vs);
      WholeThroughMarkerIff(b, vs[1..]);
      assert vs == [vs[0]] + vs[1..];
      if |vs| == 1 {
        assert vs[1..] == [] && ThroughMarker(b, vs[1..]) == [];
      }
    }
  }

  lemma NoMarker(b: seq<u8>)
    ensures MarkerLast(b, [])
  {
  }

  /**
   Both passes visit the same structures exactly when the second is quiet, is not to stop at
   the end-of-table marker, or finds no marker before the last structure of the first pass:
   outside quiet mode the first pass does not stop there.
   */
  lemma PassesAgreeIff(b: seq<u8>, num: u16, quiet: bool, eot: bool)
    ensures var first := FirstPass(Parse(b, 0), 0, num, quiet);
      && (forall v :: v in first ==> v.off < |b|)
      && (SecondPass(Parse(b, 0), 0, num, quiet, eot).visits == first <==>
        quiet || !eot || MarkerLast(b, first))
  {
    SecondPassExact(b, 0, 0, num, quiet, eot);
    hide FirstPass, SecondPass, Parse, MarkerLast, ThroughMarker;
    if quiet {
      SecondPassExact(b, 0, 0, num, false, eot);
      FirstPassStops(b, num);
    } else {
      WholeThroughMarkerIff(b, FirstPass(Parse(b, 0), 0, num, false));
    }
  }

  lemma FirstPassStops(b: seq<u8>, num: u16)
    ensures forall v :: v in FirstPass(Parse(b, 0), 0, num, true) ==> v.off < |b|
  {
    ParseSound(b, 0);
    FirstPassVisits(Parse(b, 0), 0, num, true);
    hide FirstPass, Parse;
    forall v | v in FirstPass(Parse(b, 0), 0, num, true)
      ensures v.off < |b|
    {
      assert v in Visits(Parse(b, 0));
    }
  }

  lemma {:induction false} FirstPassVisits(sp: Spine, i: nat, num: u16, stop: bool)
    ensures FirstPass(sp, i, num, stop) <= Visits(sp)
  {
    match sp
    case End(_, _) =>
    case Link(v, typ, rest) =>
      FirstPassVisits(rest, i + 1, num, stop);
  }

  /** What the second pass reports about these structures, from what comes after them in the table. */
  function ReportAfter(b: seq<u8>, off: nat, i: nat, num: u16, vs: seq<Visit>, eot: bool): Report
    requires forall v :: v in vs ==> v.off < |b|
  {
    var at, n := Reach(vs, off), i + |vs|;
    if (num != 0 && n == num) || at + 4 > |b| || (eot && vs != [] && b[vs[|vs| - 1].off] == 127)
    then Report(vs, n, at, false, None)
    else if b[at + 1] < 4 then Report(vs, n, at, true, None)
    else Report(vs, n + 1, ScanEnd(b, at + b[at + 1]), false, Some(at))
  }

  /**
   Outside quiet mode the report follows from the structures that were decoded: the pass ends at
   the announced count, at the marker, for lack of room, at a short entry or at one that is cut off.
   */
  lemma {:induction false} ReportExact(b: seq<u8>, off: nat, i: nat, num: u16, eot: bool)
    requires off <= |b| && (num != 0 ==> i <= num)
    ensures var r := SecondPass(Parse(b, off), i, num, false, eot);
      && (forall v :: v in r.visits ==> v.off < |b|)
      && r == ReportAfter(b, off, i, num, r.visits, eot)
      && (r.cut.Some? ==> r.end > |b|)
    decreases |b| - off
  {
    hide ScanEnd;
    match Parse(b, off)
    case End(_, _) =>
    case Link(v, typ, rest) =>
      if !LimitReached(i, num) && !(typ == END_OF_TABLE && eot) {
        ReportExact(b, v.next, i + 1, num, eot);
        var r := SecondPass(rest, i + 1, num, false, eot);
        assert SecondPass(Parse(b, off), i, num, false, eot) == r.(visits := [v] + r.visits);
        hide Parse, SecondPass;
        ReportOneMore(b, off, i, num, v, r.visits, eot);
      }
  }

  lemma ReportOneMore(b: seq<u8>, off: nat, i: nat, num: u16, v: Visit, vs: seq<Visit>, eot: bool)
    requires v.off < |b| && (forall w :: w in vs ==> w.off < |b|) && !(b[v.off] == END_OF_TABLE && eot)
    ensures ReportAfter(b, off, i, num, [v] + vs, eot)
      == ReportAfter(b, v.next, i + 1, num, vs, eot).(visits := [v] + vs)
  {
    hide ScanEnd;
    if vs != [] {
      assert ([v] + vs)[|vs|] == vs[|vs| - 1];
    }
  }

  // ----- Diagnostics

  /** The messages at the end of the second pass; a short entry silences the other two. */
  datatype Diagnostics = Diagnostics(broken: bool, wrongCount: bool, wrongLength: bool)

  function Diagnose(r: Report, num: u16, len: nat, quiet: bool): Diagnostics {
    if quiet then Diagnostics(false, false, false)
    else if r.broken then Diagnostics(true, false, false)
    else Diagnostics(false, num != 0 && r.counted != num, r.end > len || (num != 0 && r.end < len))
  }

  const CLEAN := Diagnostics(false, false, false)

  /** Where the decoded structures end. */
  function Reach(vs: seq<Visit>, from: nat): nat {
    if vs == [] then from else vs[|vs| - 1].next
  }

  lemma {:induction false} CountAndEnd(b: seq<u8>, off: nat, i: nat, num: u16, eot: bool)
    requires off <= |b| && num != 0 && i <= num
    ensures var r := SecondPass(Parse(b, off), i, num, false, eot);
      && (!r.broken && r.counted == num && r.end == |b| <==> i + |r.visits| == num && Reach(r.visits, off) == |b|)
      && r.visits <= Visits(Parse(b, off))
    decreases |b| - off
  {
    hide ScanEnd;
    match Parse(b, off)
    case End(_, _) =>
    case Link(v, typ, rest) =>
      if !LimitReached(i, num) && !(typ == END_OF_TABLE && eot) {
        CountAndEnd(b, v.next, i + 1, num, eot);
        var r := SecondPass(rest, i + 1, num, false, eot);
        assert Reach([v] + r.visits, off) == Reach(r.visits, v.next);
      }
  }

  lemma {:induction false} UncountedEnd(b: seq<u8>, off: nat, i: nat, eot: bool)
    requires off <= |b|
    ensures var r := SecondPass(Parse(b, off), i, 0, false, eot);
      && (forall v :: v in r.visits ==> v.off < |b|) && Reach(r.visits, off) <= |b|
      && (!r.broken && r.end <= |b| <==> ToTheEnd(b, off, r.visits, eot))
    decreases |b| - off
  {
    hide ScanEnd;
    match Parse(b, off)
    case End(_, _) =>
    case Link(v, typ, rest) =>
      if !(typ == END_OF_TABLE && eot) {
        UncountedEnd(b, v.next, i + 1, eot);
        var r := SecondPass(rest, i + 1, 0, false, eot);
        assert SecondPass(Parse(b, off), i, 0, false, eot) == r.(visits := [v] + r.visits);
        hide Parse, SecondPass;
        OneBefore(b, off, v, r.visits, eot);
      }
  }

  lemma OneBefore(b: seq<u8>, off: nat, v: Visit, vs: seq<Visit>, eot: bool)
    requires v.off < |b| && (forall w :: w in vs ==> w.off < |b|) && !(b[v.off] == END_OF_TABLE && eot)
    ensures Reach([v] + vs, off) == Reach(vs, v.next)
    ensures ToTheEnd(b, off, [v] + vs, eot) == ToTheEnd(b, v.next, vs, eot)
  {
    if vs != [] {
      assert ([v] + vs)[|vs|] == vs[|vs| - 1];
    }
  }

  /** These structures leave no room for a header, or end with a marker at which to stop. */
  predicate ToTheEnd(b: seq<u8>, off: nat, vs: seq<Visit>, eot: bool)
    requires forall v :: v in vs ==> v.off < |b|
  {
    || Reach(vs, off) + HEADER > |b|
    || (eot && vs != [] && b[vs[|vs| - 1].off] == END_OF_TABLE)
  }

  /**
   Neither the count, the length nor an entry is complained about exactly when the table is
   made of the announced number of structures and nothing else. Without an announced count
   the decoded structures only have to reach the marker or leave less than a header.
   */
  lemma CleanIffTiled(b: seq<u8>, num: u16, eot: bool)
    ensures var r := SecondPass(Parse(b, 0), 0, num, false, eot);
      && (forall v :: v in r.visits ==> v.off < |b|)
      && (Diagnose(r, num, |b|, false) == CLEAN <==>
        if num != 0 then |r.visits| == num && Reach(r.visits, 0) == |b| else ToTheEnd(b, 0, r.visits, eot))
  {
    if num == 0 {
      UncountedEnd(b, 0, 0, eot);
    } else {
      CountAndEnd(b, 0, 0, num, eot);
      hide SecondPass, Parse, Reach;
      ParseSound(b, 0);
    }
  }
}
