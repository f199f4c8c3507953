/**
 The string set that follows the formatted area of an SMBIOS structure
 (section 6.1.3 of DSP0134): how a string number is resolved, how strings are
 filtered in place, and what the type 34 length fixup does to the set.
 */
module StringSet {
  import opened Bytes

  /** p is inside a string set that is closed by two zero bytes just before next. */
  predicate Sealed(b: seq<u8>, p: nat, next: nat) {
    p < next && 2 <= next <= |b| && b[next - 2] == 0 && b[next - 1] == 0
  }

  /** The offset of the zero byte that ends the C string starting at p. */
  function StringEnd(b: seq<u8>, p: nat, next: nat): (e: nat)
    requires Sealed(b, p, next)
    ensures p <= e < next && b[e] == 0
    ensures forall k :: p <= k < e ==> b[k] != 0
    ensures p < e ==> e + 1 < next
    decreases next - p
  {
    if b[p] == 0 then p else StringEnd(b, p + 1, next)
  }

  function CString(b: seq<u8>, p: nat, next: nat): (s: seq<u8>)
    requires Sealed(b, p, next)
  {
    b[p..StringEnd(b, p, next)]
  }

  /** Where each string of the set starts: the set ends at the first empty string. */
  function Starts(b: seq<u8>, p: nat, next: nat): (starts: seq<nat>)
    requires Sealed(b, p, next)
    ensures forall k :: 0 <= k < |starts| ==> p <= starts[k] && Sealed(b, starts[k], next) && b[starts[k]] != 0
    decreases next - p
  {
    if b[p] == 0 then [] else [p] + Starts(b, StringEnd(b, p, next) + 1, next)
  }

  /** The strings of the set, in order. */
  function Strings(b: seq<u8>, p: nat, next: nat): (strings: seq<seq<u8>>)
    requires Sealed(b, p, next)
    ensures |strings| == |Starts(b, p, next)|
  {
    var starts := Starts(b, p, next);
    seq(|starts|, k requires 0 <= k < |starts| => CString(b, starts[k], next))
  }

  lemma StringsUnfold(b: seq<u8>, p: nat, next: nat)
    requires Sealed(b, p, next)
    ensures Strings(b, p, next) ==
      if b[p] == 0 then [] else [CString(b, p, next)] + Strings(b, StringEnd(b, p, next) + 1, next)
  {
  }

  /** The zero-based position that a string number means; number 0 acts as number 1. */
  function Index(s: u8): nat {
    if s == 0 then 0 else s - 1
  }

  function Locate(b: seq<u8>, p: nat, next: nat, s: u8): Option<nat>
    requires Sealed(b, p, next)
  {
    var starts := Starts(b, p, next);
    if Index(s) < |starts| then Some(starts[Index(s)]) else None
  }

  // ----- Filtering

  /** Non-ASCII and control characters become dots. */
  function Mask(c: u8): u8 {
    if c < 32 || c >= 127 then 46 else c
  }

  function MaskAll(s: seq<u8>): (r: seq<u8>)
    ensures |r| == |s|
  {
    seq(|s|, k requires 0 <= k < |s| => Mask(s[k]))
  }

  /** What a string looks like once it is masked: printable characters stay, every other one becomes a dot. */
  lemma MaskedText(s: seq<u8>)
    ensures forall k :: 0 <= k < |s| ==>
      && 32 <= MaskAll(s)[k] <= 126
      && (32 <= s[k] <= 126 ==> MaskAll(s)[k] == s[k])
      && (s[k] < 32 || s[k] > 126 ==> MaskAll(s)[k] as char == '.')
  {
  }

  /** Some request asks for the string at position k. */
  predicate Named(asks: seq<u8>, k: nat) {
    exists s :: s in asks && s > 0 && s - 1 == k
  }

  lemma NamedMore(asks: seq<u8>, s: u8, k: nat)
    ensures Named(asks + [s], k) <==> Named(asks, k) || Named([s], k)
    ensures Named([s], k) <==> s > 0 && s - 1 == k
  {
    assert s in [s] && s in asks + [s];
    assert forall t :: t in asks + [s] <==> t in asks || t == s;
  }

  /** The strings with those masked whose number, counted from 1, is in asks; number 0 names none. */
  function MaskNamed(strings: seq<seq<u8>>, asks: seq<u8>): (r: seq<seq<u8>>)
    ensures |r| == |strings|
  {
    seq(|strings|, k requires 0 <= k < |strings| =>
      if Named(asks, k) then MaskAll(strings[k]) else strings[k])
  }

  lemma MaskNamedNone(strings: seq<seq<u8>>)
    ensures MaskNamed(strings, []) == strings
  {
  }

  lemma MaskNamedZero(strings: seq<seq<u8>>)
    ensures MaskNamed(strings, [0]) == strings
  {
  }

  lemma MaskNamedTwice(strings: seq<seq<u8>>, asks: seq<u8>, s: u8)
    ensures MaskNamed(MaskNamed(strings, asks), [s]) == MaskNamed(strings, asks + [s])
  {
    var l, r := MaskNamed(MaskNamed(strings, asks), [s]), MaskNamed(strings, asks + [s]);
    forall k | 0 <= k < |strings|
      ensures l[k] == r[k]
    {
      assert MaskAll(MaskAll(strings[k])) == MaskAll(strings[k]);
      assert Named(asks + [s], k) <==> Named(asks, k) || Named([s], k) by {
        NamedMore(asks, s, k);
      }
    }
  }

  function FilterRange(b: seq<u8>, lo: nat, hi: nat): (r: seq<u8>)
    ensures |r| == |b|
  {
    seq(|b|, k requires 0 <= k < |b| => if lo <= k < hi then Mask(b[k]) else b[k])
  }

  /** The buffer after string number s has been asked for with filtering on. */
  function FilterString(b: seq<u8>, p: nat, next: nat, s: u8): (r: seq<u8>)
    requires Sealed(b, p, next)
    ensures |r| == |b|
  {
    match Locate(b, p, next, s)
    case None => b
    case Some(q) => FilterRange(b, q, StringEnd(b, q, next))
  }

  /** c is b with some non-zero bytes of [lo, hi) masked. */
  ghost predicate Harmless(b: seq<u8>, c: seq<u8>, lo: nat, hi: nat) {
    && |c| == |b|
    && forall k :: 0 <= k < |b| ==> c[k] == b[k] || (lo <= k < hi && b[k] != 0 && c[k] == Mask(b[k]))
  }

  /** The buffer after a run of string requests; number 0 is answered without touching it. */
  function FilterAll(b: seq<u8>, p: nat, next: nat, asks: seq<u8>): (r: seq<u8>)
    requires Sealed(b, p, next)
    ensures Harmless(b, r, p, next)
    decreases |asks|
  {
    if asks == [] then b
    else
      var front := FilterAll(b, p, next, asks[..|asks| - 1]);
      var s := asks[|asks| - 1];
      if s == 0 then front else FilterString(front, p, next, s)
  }

  /** Later strings start after the end of earlier ones. */
  lemma {:induction false} StartsOrdered(b: seq<u8>, p: nat, next: nat, j: nat, k: nat)
    requires Sealed(b, p, next)
    requires j < k < |Starts(b, p, next)|
    ensures StringEnd(b, Starts(b, p, next)[j], next) < Starts(b, p, next)[k]
    decreases next - p
  {
    if j > 0 {
      StartsOrdered(b, StringEnd(b, p, next) + 1, next, j - 1, k - 1);
    }
  }

  lemma {:induction false} StringEndFollowsZeros(b: seq<u8>, c: seq<u8>, p: nat, next: nat)
    requires Sealed(b, p, next) && Sealed(c, p, next) && |c| == |b|
    requires forall k :: p <= k < next ==> (c[k] == 0 <==> b[k] == 0)
    ensures StringEnd(c, p, next) == StringEnd(b, p, next)
    decreases next - p
  {
    if b[p] != 0 {
      StringEndFollowsZeros(b, c, p + 1, next);
    }
  }

  lemma StartsNone(b: seq<u8>, p: nat, next: nat)
    requires Sealed(b, p, next) && b[p] == 0
    ensures Starts(b, p, next) == []
  {
  }

  lemma StartsMore(b: seq<u8>, p: nat, next: nat)
    requires Sealed(b, p, next) && b[p] != 0
    ensures Starts(b, p, next) == [p] + Starts(b, StringEnd(b, p, next) + 1, next)
  {
  }

  lemma {:induction false} SameStarts(b: seq<u8>, c: seq<u8>, p: nat, next: nat)
    requires Sealed(b, p, next) && Sealed(c, p, next) && |c| == |b|
    requires forall k :: p <= k < next ==> (c[k] == 0 <==> b[k] == 0)
    ensures Starts(c, p, next) == Starts(b, p, next)
    decreases next - p
  {
    hide Starts, StringEnd;
    if b[p] == 0 {
      StartsNone(b, p, next);
      StartsNone(c, p, next);
    } else {
      StringEndFollowsZeros(b, c, p, next);
      SameStarts(b, c, StringEnd(b, p, next) + 1, next);
      StartsMore(b, p, next);
      StartsMore(c, p, next);
    }
  }

  /** String boundaries depend only on which bytes are zero. */
  lemma StartsFollowZeros(b: seq<u8>, c: seq<u8>, p: nat, next: nat)
    requires Sealed(b, p, next) && |c| == |b|
    requires forall k :: p <= k < next ==> (c[k] == 0 <==> b[k] == 0)
    requires c[next - 2] == 0 && c[next - 1] == 0
    ensures Starts(c, p, next) == Starts(b, p, next)
    ensures forall k :: 0 <= k < |Starts(b, p, next)| ==>
      StringEnd(c, Starts(b, p, next)[k], next) == StringEnd(b, Starts(b, p, next)[k], next)
  {
    SameStarts(b, c, p, next);
    var starts := Starts(b, p, next);
    hide Starts, StringEnd;
    forall k | 0 <= k < |starts|
      ensures StringEnd(c, starts[k], next) == StringEnd(b, starts[k], next)
    {
      StringEndFollowsZeros(b, c, starts[k], next);
    }
  }

  /** A request keeps the zero bytes where they are, so it keeps every boundary. */
  lemma FilterStringHarmless(b: seq<u8>, p: nat, next: nat, s: u8)
    requires Sealed(b, p, next)
    ensures var c := FilterString(b, p, next, s);
      && Harmless(b, c, p, next) && Sealed(c, p, next)
      && Starts(c, p, next) == Starts(b, p, next)
      && |Strings(c, p, next)| == |Strings(b, p, next)|
      && forall k :: 0 <= k < |Starts(b, p, next)| ==>
        StringEnd(c, Starts(b, p, next)[k], next) == StringEnd(b, Starts(b, p, next)[k], next)
  {
    var c := FilterString(b, p, next, s);
    assert Harmless(b, c, p, next);
    StartsFollowZeros(b, c, p, next);
  }

  /** The effect of one request on the k-th string. */
  lemma FilterStringKth(b: seq<u8>, p: nat, next: nat, s: u8, k: nat)
    requires Sealed(b, p, next) && k < |Starts(b, p, next)|
    ensures Sealed(FilterString(b, p, next, s), p, next)
    ensures |Strings(FilterString(b, p, next, s), p, next)| == |Strings(b, p, next)|
    ensures Strings(FilterString(b, p, next, s), p, next)[k] ==
      if k == Index(s) then MaskAll(Strings(b, p, next)[k]) else Strings(b, p, next)[k]
  {
    FilterStringHarmless(b, p, next, s);
    var c, starts, i := FilterString(b, p, next, s), Starts(b, p, next), Index(s);
    var q, e := starts[k], StringEnd(b, starts[k], next);
    if k < i < |starts| {
      StartsOrdered(b, p, next, k, i);
    } else if i < k {
      StartsOrdered(b, p, next, i, k);
    }
    if i < |starts| {
      FilterRangeSlice(b, starts[i], StringEnd(b, starts[i], next), q, e);
    }
  }

  /** Filtering one range masks a slice that coincides with it and keeps one beside it. */
  lemma FilterRangeSlice(b: seq<u8>, lo: nat, hi: nat, q: nat, e: nat)
    requires q <= e <= |b|
    ensures (q, e) == (lo, hi) ==> FilterRange(b, lo, hi)[q..e] == MaskAll(b[q..e])
    ensures e <= lo || hi <= q ==> FilterRange(b, lo, hi)[q..e] == b[q..e]
  {
  }

  /** A request masks the string it names and leaves every other string alone. */
  lemma FilterStringExact(b: seq<u8>, p: nat, next: nat, s: u8)
    requires Sealed(b, p, next) && s > 0
    ensures Sealed(FilterString(b, p, next, s), p, next)
    ensures Strings(FilterString(b, p, next, s), p, next) == MaskNamed(Strings(b, p, next), [s])
  {
    FilterStringHarmless(b, p, next, s);
    forall k | 0 <= k < |Strings(b, p, next)|
      ensures Strings(FilterString(b, p, next, s), p, next)[k] == MaskNamed(Strings(b, p, next), [s])[k]
    {
      FilterStringKth(b, p, next, s, k);
      NamedMore([], s, k);
    }
  }

  /** After a run of requests exactly the strings that were named are masked. */
  lemma {:induction false} FilterAllExact(b: seq<u8>, p: nat, next: nat, asks: seq<u8>)
    requires Sealed(b, p, next)
    ensures Sealed(FilterAll(b, p, next, asks), p, next)
    ensures Strings(FilterAll(b, p, next, asks), p, next) == MaskNamed(Strings(b, p, next), asks)
    decreases |asks|
  {
    hide Strings, MaskNamed, FilterString, Harmless;
    if asks == [] {
      MaskNamedNone(Strings(b, p, next));
    } else {
      var init, s := asks[..|asks| - 1], asks[|asks| - 1];
      FilterAllExact(b, p, next, init);
      if s > 0 {
        FilterStringExact(FilterAll(b, p, next, init), p, next, s);
      } else {
        MaskNamedZero(MaskNamed(Strings(b, p, next), init));
      }
      MaskNamedTwice(Strings(b, p, next), init, s);
      assert asks == init + [s];
    }
  }

  lemma FilterAllNone(b: seq<u8>, p: nat, next: nat)
    requires Sealed(b, p, next)
    ensures FilterAll(b, p, next, []) == b
  {
  }

  lemma FilterAllNext(b: seq<u8>, p: nat, next: nat, asks: seq<u8>, k: nat)
    requires Sealed(b, p, next) && k < |asks|
    ensures Sealed(FilterAll(b, p, next, asks[..k]), p, next)
    ensures FilterAll(b, p, next, asks[..k + 1]) == FilterAll(FilterAll(b, p, next, asks[..k]), p, next, [asks[k]])
    ensures Sealed(FilterAll(b, p, next, asks[..k + 1]), p, next)
  {
    hide FilterString;
    assert asks[..k + 1][..k] == asks[..k];
    assert [asks[k]][..0] == [];
    FilterAllNone(FilterAll(b, p, next, asks[..k]), p, next);
  }

  lemma FilterAllAppend(b: seq<u8>, p: nat, next: nat, asks: seq<u8>, s: u8)
    requires Sealed(b, p, next)
    ensures Sealed(FilterAll(b, p, next, asks), p, next)
    ensures FilterAll(b, p, next, asks + [s]) == FilterAll(FilterAll(b, p, next, asks), p, next, [s])
  {
    FilterAllNext(b, p, next, asks + [s], |asks|);
    assert (asks + [s])[..|asks|] == asks && (asks + [s])[..|asks| + 1] == asks + [s];
  }

  // ----- The pointer code

  /** Masks bp[0..len) in place. */
  method AsciiFilter(buf: array<u8>, bp: nat, len: nat)
    requires bp + len <= buf.Length
    modifies buf
    ensures buf[..] == FilterRange(old(buf[..]), bp, bp + len)
    ensures forall k :: bp <= k < bp + len ==>
      buf[k] == if 32 <= old(buf[k]) < 127 then old(buf[k]) else '.' as u8
  {
    var i := 0;
    while i < len
      invariant 0 <= i <= len
      invariant forall k :: 0 <= k < buf.Length ==>
        buf[k] == if bp <= k < bp + i then Mask(old(buf[k])) else old(buf[k])
    {
      if buf[bp + i] < 32 || buf[bp + i] >= 127 {
        buf[bp + i] := 46;
      }
      i := i + 1;
    }
  }

  /** Length of the C string at bp; every byte read lies in [data, next). */
  method StrLen(buf: array<u8>, bp: nat, ghost data: nat, ghost next: nat) returns (n: nat)
    requires data <= bp && Sealed(buf[..], bp, next)
    ensures bp + n == StringEnd(buf[..], bp, next)
  {
    n := 0;
    ghost var b := buf[..];
    while Peek(buf, bp + n, data, next) != 0
      invariant bp + n < next && Sealed(b, bp + n, next)
      invariant StringEnd(b, bp + n, next) == StringEnd(b, bp, next)
      decreases next - n
    {
      assert b[bp + n] != 0;
      n := n + 1;
    }
  }

  /** One step along the starts of a set: past the string at bp, or at the end. */
  lemma NextStart(b: seq<u8>, bp: nat, next: nat, starts: seq<nat>, k: nat)
    requires Sealed(b, bp, next) && k <= |starts| && Starts(b, bp, next) == starts[k..]
    ensures b[bp] == 0 <==> k == |starts|
    ensures b[bp] != 0 ==> starts[k] == bp && StringEnd(b, bp, next) + 1 < next
    ensures b[bp] != 0 ==> Starts(b, StringEnd(b, bp, next) + 1, next) == starts[k + 1..]
  {
    if b[bp] != 0 {
      assert Starts(b, bp, next)[0] == bp && Starts(b, bp, next)[1..] == starts[k + 1..];
    }
  }

  /** Steps over the strings before number s, or stops at the end of the set. */
  method SkipStrings(buf: array<u8>, data: nat, length: u8, s: u8, ghost next: nat) returns (bp: nat)
    requires Sealed(buf[..], data + length, next)
    ensures data <= bp && Sealed(buf[..], bp, next)
    ensures Locate(buf[..], data + length, next, s) == if buf[bp] == 0 then None else Some(bp)
  {
    hide Starts, StringEnd;
    ghost var b, k := buf[..], 0;
    ghost var starts := Starts(b, data + length, next);
    var left: u8 := s;
    bp := data + length;
    while left > 1 && Peek(buf, bp, data, next) != 0
      invariant data <= bp && Sealed(b, bp, next)
      invariant k <= |starts| && Starts(b, bp, next) == starts[k..]
      invariant left + k == s && (left == 0 ==> k == 0)
    {
      NextStart(b, bp, next, starts, k);
      var n := StrLen(buf, bp, data, next);
      bp := bp + n;
      bp := bp + 1;
      left := left - 1;
      k := k + 1;
    }
    NextStart(b, bp, next, starts, k);
    assert Index(s) == k || b[bp] == 0;
  }

  /**
   Resolves string number s of the structure at data, reading only inside [data, next):
   the s-th string of the set, or nothing when the set is shorter.
   */
  method FindString(buf: array<u8>, data: nat, length: u8, s: u8, filter: bool, ghost next: nat)
    returns (r: Option<nat>)
    requires Sealed(buf[..], data + length, next)
    modifies buf
    ensures r == Locate(old(buf[..]), data + length, next, s)
    ensures buf[..] == if filter then FilterString(old(buf[..]), data + length, next, s) else old(buf[..])
  {
    ghost var b := buf[..];
    var bp := SkipStrings(buf, data, length, s, next);
    if Peek(buf, bp, data, next) == 0 {
      return None;
    }
    if filter {
      var n := StrLen(buf, bp, data, next);
      AsciiFilter(buf, bp, n);
    }
    return Some(bp);
  }

  /** What a single request does and where it points. */
  lemma AskOnce(b: seq<u8>, p: nat, next: nat, s: u8)
    requires Sealed(b, p, next)
    ensures FilterAll(b, p, next, [s]) == if s == 0 then b else FilterString(b, p, next, s)
    ensures s > 0 ==> (Locate(b, p, next, s).Some? <==> s <= |Strings(b, p, next)|)
    ensures 1 <= s <= |Strings(b, p, next)| ==>
      var q, c := Locate(b, p, next, s).value, FilterString(b, p, next, s);
      Sealed(c, q, next) && CString(c, q, next) == MaskAll(Strings(b, p, next)[s - 1])
  {
    assert [s][..0] == [];
    assert FilterAll(b, p, next, []) == b;
    if 1 <= s <= |Strings(b, p, next)| {
      FilterStringHarmless(b, p, next, s);
      FilterStringKth(b, p, next, s, s - 1);
    }
  }

  datatype Answer = NotSpecified | BadIndex | At(offset: nat)

  /** What a caller that wants to print string number s is given. */
  method DmiString(buf: array<u8>, data: nat, length: u8, s: u8, ghost next: nat) returns (r: Answer)
    requires Sealed(buf[..], data + length, next)
    modifies buf
    ensures buf[..] == FilterAll(old(buf[..]), data + length, next, [s])
    ensures var strings := Strings(old(buf[..]), data + length, next);
      && (r == NotSpecified <==> s == 0)
      && (r == BadIndex <==> s > |strings|)
      && (r.At? <==> 1 <= s <= |strings|)
      && (r.At? ==> Sealed(buf[..], r.offset, next) && CString(buf[..], r.offset, next) == MaskAll(strings[s - 1]))
  {
    hide FilterAll, FilterString, Starts, StringEnd, Locate, Strings;
    ghost var b, p := buf[..], data + length;
    AskOnce(b, p, next, s);
    if s == 0 {
      return NotSpecified;
    }
    var bp := FindString(buf, data, length, s, true, next);
    if bp == None {
      return BadIndex;
    }
    return At(bp.value);
  }

  // ----- The raw dump of a string set

  /** The string number asked for in the i-th round, cut to eight bits. */
  function Round(i: nat): u8 {
    i % 0x100
  }

  /** The table after n rounds of the dump loop, each of which masks the string that it finds. */
  function DumpAfter(b: seq<u8>, p: nat, next: nat, n: nat): (c: seq<u8>)
    requires Sealed(b, p, next)
    ensures Harmless(b, c, p, next)
  {
    if n == 0 then b
    else
      var c := DumpAfter(b, p, next, n - 1);
      HarmlessTwice(b, c, FilterString(c, p, next, Round(n)), p, next);
      FilterString(c, p, next, Round(n))
  }

  lemma DumpNext(b: seq<u8>, p: nat, next: nat, n: nat)
    requires Sealed(b, p, next)
    ensures DumpAfter(b, p, next, n + 1) == FilterString(DumpAfter(b, p, next, n), p, next, Round(n + 1))
    ensures DumpAfter(b, p, next, 0) == b
  {
  }

  lemma {:induction false} DumpKeepsStarts(b: seq<u8>, p: nat, next: nat, n: nat)
    requires Sealed(b, p, next)
    ensures Starts(DumpAfter(b, p, next, n), p, next) == Starts(b, p, next)
  {
    hide Starts;
    if n > 0 {
      DumpKeepsStarts(b, p, next, n - 1);
      FilterStringHarmless(DumpAfter(b, p, next, n - 1), p, next, Round(n));
    }
  }

  /** A string number of eight bits names one of the first 255 strings. */
  lemma MaskFirstKept(strings: seq<seq<u8>>, s: u8)
    requires s > 0
    ensures MaskNamed(MaskFirst(strings, 0xFF), [s]) == MaskFirst(strings, 0xFF)
  {
    var l, r := MaskNamed(MaskFirst(strings, 0xFF), [s]), MaskFirst(strings, 0xFF);
    forall k | 0 <= k < |strings|
      ensures l[k] == r[k]
    {
      NamedMore([], s, k);
    }
  }

  lemma FilterStringZero(b: seq<u8>, p: nat, next: nat)
    requires Sealed(b, p, next)
    ensures FilterString(b, p, next, 0) == FilterString(b, p, next, 1)
  {
  }

  /** After n rounds of the dump loop the first n strings are masked, and only those, but never more than 255. */
  lemma {:induction false} DumpExact(b: seq<u8>, p: nat, next: nat, n: nat)
    requires Sealed(b, p, next)
    ensures Sealed(DumpAfter(b, p, next, n), p, next)
    ensures Strings(DumpAfter(b, p, next, n), p, next) == MaskFirst(Strings(b, p, next), if n < 0xFF then n else 0xFF)
  {
    hide Strings, MaskNamed, FilterString, Harmless;
    if n > 0 {
      DumpExact(b, p, next, n - 1);
      var s: u8 := if Round(n) == 0 then 1 else Round(n);
      FilterStringZero(DumpAfter(b, p, next, n - 1), p, next);
      FilterStringExact(DumpAfter(b, p, next, n - 1), p, next, s);
      hide MaskFirst;
      if n <= 0xFF {
        MaskFirstNext(Strings(b, p, next), n - 1);
      } else {
        MaskFirstKept(Strings(b, p, next), s);
      }
    }
  }

  /** Some round of the dump loop finds no string. */
  ghost predicate DumpEnds(b: seq<u8>, p: nat, next: nat)
    requires Sealed(b, p, next)
  {
    exists i :: i >= 1 && Locate(DumpAfter(b, p, next, i - 1), p, next, Round(i)) == None
  }

  /**
   The dump loop asks for numbers 1, 2, 3, ... until none is found, and masks what it finds.
   Eight bits only hold 255 numbers, so it comes to an end exactly for sets of at most 254 strings.
   */
  lemma DumpLoopEndsIff(b: seq<u8>, p: nat, next: nat)
    requires Sealed(b, p, next)
    ensures DumpEnds(b, p, next) <==> |Strings(b, p, next)| < 0xFF
  {
    hide Starts, DumpAfter;
    forall i | i >= 1
      ensures Locate(DumpAfter(b, p, next, i - 1), p, next, Round(i)) == Locate(b, p, next, Round(i))
    {
      DumpKeepsStarts(b, p, next, i - 1);
    }
    var n: nat := |Strings(b, p, next)|;
    if n < 0xFF {
      assert Round(n + 1) == n + 1;
      assert n + 1 >= 1 && Locate(DumpAfter(b, p, next, n + 1 - 1), p, next, Round(n + 1)) == None;
    } else {
      forall i | i >= 1
        ensures Locate(DumpAfter(b, p, next, i - 1), p, next, Round(i)).Some?
      {
        assert Index(Round(i)) < 0xFF;
      }
    }
  }

  /** What has become of the set once the dump loop has shown its first n strings. */
  ghost predicate ShownUpTo(b: seq<u8>, c: seq<u8>, p: nat, next: nat, n: nat)
    requires Sealed(b, p, next)
  {
    && Harmless(b, c, p, next)
    && Sealed(c, p, next)
    && Starts(c, p, next) == Starts(b, p, next)
    && Strings(c, p, next) == MaskFirst(Strings(b, p, next), n)
  }

  function MaskFirst(strings: seq<seq<u8>>, n: nat): (r: seq<seq<u8>>)
    ensures |r| == |strings|
  {
    seq(|strings|, k requires 0 <= k < |strings| => if k < n then MaskAll(strings[k]) else strings[k])
  }

  lemma MaskFirstNext(strings: seq<seq<u8>>, n: nat)
    requires n < 0xFF
    ensures MaskNamed(MaskFirst(strings, n), [n + 1]) == MaskFirst(strings, n + 1)
  {
    var s: u8 := n + 1;
    var l, r := MaskNamed(MaskFirst(strings, n), [s]), MaskFirst(strings, n + 1);
    forall k | 0 <= k < |strings|
      ensures l[k] == r[k]
    {
      NamedMore([], s, k);
    }
  }

  lemma ShowNone(b: seq<u8>, p: nat, next: nat)
    requires Sealed(b, p, next)
    ensures ShownUpTo(b, b, p, next, 0)
    ensures ShownUpTo(b, FilterString(b, p, next, Round(1)), p, next, 1)
    ensures Locate(b, p, next, Round(1)) == if 1 <= |Starts(b, p, next)| then Some(Starts(b, p, next)[0]) else None
  {
    hide Strings, Starts, FilterString;
    assert MaskFirst(Strings(b, p, next), 0) == Strings(b, p, next);
    ShowNext(b, b, p, next, 0);
  }

  lemma ShowAll(b: seq<u8>, c: seq<u8>, p: nat, next: nat, n: nat)
    requires Sealed(b, p, next) && ShownUpTo(b, c, p, next, n) && n == |Strings(b, p, next)| + 1
    ensures ShownUpTo(b, c, p, next, n - 1)
  {
    assert MaskFirst(Strings(b, p, next), n) == MaskFirst(Strings(b, p, next), n - 1);
  }

  lemma ShowNext(b: seq<u8>, c: seq<u8>, p: nat, next: nat, n: nat)
    requires Sealed(b, p, next) && ShownUpTo(b, c, p, next, n) && n < 0xFF
    ensures ShownUpTo(b, FilterString(c, p, next, Round(n + 1)), p, next, n + 1)
    ensures Sealed(c, p, next) && Locate(c, p, next, Round(n + 1)) ==
      if n < |Starts(b, p, next)| then Some(Starts(b, p, next)[n]) else None
  {
    hide Strings, Starts, FilterString, MaskFirst, MaskNamed, StringEnd;
    assert Round(n + 1) == n + 1;
    var d, strings := FilterString(c, p, next, n + 1), Strings(b, p, next);
    FilterStringHarmless(c, p, next, n + 1);
    FilterStringExact(c, p, next, n + 1);
    MaskFirstNext(strings, n);
    HarmlessTwice(b, c, d, p, next);
  }

  lemma HarmlessTwice(b: seq<u8>, c: seq<u8>, d: seq<u8>, lo: nat, hi: nat)
    requires Harmless(b, c, lo, hi) && Harmless(c, d, lo, hi)
    ensures Harmless(b, d, lo, hi)
  {
    forall k | 0 <= k < |b|
      ensures d[k] == b[k] || (lo <= k < hi && b[k] != 0 && d[k] == Mask(b[k]))
    {
      assert c[k] == b[k] || c[k] == Mask(b[k]);
      assert d[k] == c[k] || d[k] == Mask(c[k]);
    }
  }

  /** Lists every string of the set, filtered, in order. */
  method DumpStrings(buf: array<u8>, data: nat, length: u8, ghost next: nat) returns (listed: seq<nat>)
    requires Sealed(buf[..], data + length, next)
    requires |Strings(buf[..], data + length, next)| < 0xFF
    modifies buf
    ensures listed == Starts(old(buf[..]), data + length, next)
    ensures buf[..] == DumpAfter(old(buf[..]), data + length, next, |listed| + 1)
    ensures ShownUpTo(old(buf[..]), buf[..], data + length, next, |listed|)
  {
    hide ShownUpTo, Starts, FilterString, Locate, DumpAfter;
    ghost var b, p := buf[..], data + length;
    DumpNext(b, p, next, 0);
    ghost var starts := Starts(b, p, next);
    var i := 1;
    listed := [];
    ShowNone(b, p, next);
    var s := FindString(buf, data, length, Round(i), true, next);
    ghost var c := buf[..];
    while s.Some?
      invariant buf[..] == c == DumpAfter(b, p, next, i)
      invariant 1 <= i <= |starts| + 1
      invariant ShownUpTo(b, c, p, next, i)
      invariant listed == starts[..i - 1]
      invariant s == if i <= |starts| then Some(starts[i - 1]) else None
      decreases |starts| + 1 - i
    {
      listed := listed + [s.value];
      i := i + 1;
      DumpNext(b, p, next, i - 1);
      ShowNext(b, c, p, next, i - 1);
      s := FindString(buf, data, length, Round(i), true, next);
      c := FilterString(c, p, next, Round(i));
    }
    ShowAll(b, c, p, next, i);
  }

  // ----- The type 34 fixup

  function Printable(b: seq<u8>, lo: nat, hi: nat): bool
    requires lo <= hi <= |b|
  {
    forall k :: lo <= k < hi ==> 32 <= b[k] < 127
  }

  /**
   Moving the start of the set five printable bytes back puts these five characters in
   front of the first string. An empty set gains them as a string of their own, followed
   by whatever strings come after its first zero byte.
   */
  lemma FixupStrings(b: seq<u8>, p: nat, next: nat)
    requires Sealed(b, p + 5, next) && p + 7 <= next
    requires Printable(b, p, p + 5)
    ensures Sealed(b, p, next)
    ensures var before := Strings(b, p + 5, next);
      Strings(b, p, next) ==
        if before != [] then [b[p..p + 5] + before[0]] + before[1..]
        else [b[p..p + 5]] + Strings(b, p + 6, next)
  {
    hide Strings, Starts, StringEnd;
    StringEndSkips(b, p, p + 5, next);
    StringsUnfold(b, p, next);
    StringsUnfold(b, p + 5, next);
    var e := StringEnd(b, p, next);
    assert b[p..e] == b[p..p + 5] + b[p + 5..e];
    assert b[p + 5] == 0 ==> e == p + 5;
  }

  lemma {:induction false} StringEndSkips(b: seq<u8>, p: nat, q: nat, next: nat)
    requires p <= q && Sealed(b, q, next)
    requires forall k :: p <= k < q ==> b[k] != 0
    ensures StringEnd(b, p, next) == StringEnd(b, q, next)
    decreases q - p
  {
    if p < q {
      StringEndSkips(b, p + 1, q, next);
    }
  }
}
