/** Memory set-up of the bandwidth tests: alignment, pre-read touches and shuffled chunk pointers. */
module Chunks {
  const CHUNK := 256
  const PAGE := 4096
  const SLACK := 128
  const ROUNDS := 2

  /** The first multiple of the boundary at or above addr. */
  function Align(addr: nat, wide: bool): nat {
    var boundary := if wide then 64 else 32;
    if addr % boundary != 0 then addr - addr % boundary + boundary else addr
  }

  /** An aligned buffer of the requested size lies inside the block that was allocated with slack. */
  lemma AlignedInside(addr: nat, size: nat, wide: bool)
    ensures var a := Align(addr, wide);
      && a % (if wide then 64 else 32) == 0
      && addr <= a < addr + (if wide then 64 else 32)
      && a + size <= addr + size + SLACK
  {
  }

  /** Touches one byte per page; every touch lies in [chunk, chunk + size). */
  method Touch(chunk: nat, size: nat) returns (touched: seq<nat>)
    ensures forall k :: 0 <= k < |touched| ==> touched[k] == chunk + PAGE * k < chunk + size
    ensures chunk + PAGE * |touched| + CHUNK > chunk + size
  {
    var chunks := size / CHUNK;
    var pointer, i := chunk, 0;
    touched := [];
    while i < chunks
      invariant 0 <= i && i == 16 * |touched| && pointer == chunk + PAGE * |touched|
      invariant forall k :: 0 <= k < |touched| ==> touched[k] == chunk + PAGE * k < chunk + size
      decreases chunks - i
    {
      touched := touched + [pointer];
      pointer := pointer + PAGE;
      i := i + 16;
    }
  }

  /** The starts of the first n chunks. */
  function Starts(chunk: nat, n: nat): (s: seq<nat>)
    ensures |s| == n
  {
    seq(n, k requires 0 <= k < n => chunk + CHUNK * k)
  }

  function Swapped(s: seq<nat>, i: nat, j: nat): (r: seq<nat>)
    requires i < |s| && j < |s|
    ensures |r| == |s|
  {
    s[i := s[j]][j := s[i]]
  }

  lemma SwappedPermutes(s: seq<nat>, i: nat, j: nat)
    requires i < |s| && j < |s|
    ensures multiset(Swapped(s, i, j)) == multiset(s)
  {
  }

  /** The entry that a random value stands for among n. */
  function Pick(value: nat, n: nat): (j: nat)
    requires n > 0
    ensures j < n && (value < n ==> j == value)
  {
    value % n
  }

  /** The entries after each from the i-th on has been swapped with the one that the generator picks for it. */
  function Shuffled(s: seq<nat>, random: nat -> nat, calls: nat, i: nat): (r: seq<nat>)
    ensures |r| == |s|
    decreases |s| - i
  {
    if i >= |s| then s else Shuffled(Swapped(s, i, Pick(random(calls + i), |s|)), random, calls, i + 1)
  }

  lemma {:induction false} ShuffledPermutes(s: seq<nat>, random: nat -> nat, calls: nat, i: nat)
    ensures multiset(Shuffled(s, random, calls, i)) == multiset(s)
    decreases |s| - i
  {
    if i < |s| {
      var j := Pick(random(calls + i), |s|);
      hide Swapped, Pick;
      SwappedPermutes(s, i, j);
      ShuffledPermutes(Swapped(s, i, j), random, calls, i + 1);
    }
  }

  lemma ShuffledRound(s: seq<nat>, random: nat -> nat, calls: nat, i: nat)
    ensures Shuffled(s, random, calls, i) ==
      if i >= |s| then s else Shuffled(Swapped(s, i, Pick(random(calls + i), |s|)), random, calls, i + 1)
  {
  }

  /** Both passes together. */
  function Mixed(s: seq<nat>, random: nat -> nat): (r: seq<nat>) {
    Shuffled(Shuffled(s, random, 0, 0), random, |s|, 0)
  }

  lemma MixedPermutes(s: seq<nat>, random: nat -> nat)
    ensures multiset(Mixed(s, random)) == multiset(s)
  {
    ShuffledPermutes(s, random, 0, 0);
    ShuffledPermutes(Shuffled(s, random, 0, 0), random, |s|, 0);
  }

  /**
   Fills an array with chunk pointers and swaps each entry with a random one, twice over.
   random(k) is the k-th value the generator returns; whatever it is, the pointers are permuted.
   */
  method ShuffledChunks(chunk: nat, size: nat, random: nat -> nat) returns (pointers: array<nat>)
    ensures fresh(pointers) && pointers.Length == size / CHUNK
    ensures multiset(pointers[..]) == multiset(Starts(chunk, size / CHUNK))
    ensures pointers[..] == Mixed(Starts(chunk, size / CHUNK), random)
  {
    var n := size / CHUNK;
    pointers := new nat[n];
    var i := 0;
    while i < n
      invariant 0 <= i <= n
      invariant forall k :: 0 <= k < i ==> pointers[k] == chunk + CHUNK * k
    {
      pointers[i] := chunk + CHUNK * i;
      i := i + 1;
    }
    ghost var starts := Starts(chunk, n);
    assert pointers[..] == starts && |starts| == n;
    hide Shuffled, Starts;
    var calls := 0;
    var k := ROUNDS;
    while k > 0
      invariant 0 <= k <= 2 && calls == (if k == 2 then 0 else if k == 1 then n else n + n)
      invariant pointers[..] ==
        if k == 2 then starts
        else if k == 1 then Shuffled(starts, random, 0, 0)
        else Shuffled(Shuffled(starts, random, 0, 0), random, n, 0)
    {
      k := k - 1;
      calls := SwapAll(pointers, random, calls);
    }
    MixedPermutes(starts, random);
  }

  /** Swaps each entry, in order, with one that the generator picks. */
  method SwapAll(pointers: array<nat>, random: nat -> nat, calls: nat) returns (next: nat)
    modifies pointers
    ensures pointers[..] == Shuffled(old(pointers[..]), random, calls, 0) && next == calls + pointers.Length
  {
    hide Shuffled, Pick;
    next := calls;
    var i := 0;
    while i < pointers.Length
      invariant 0 <= i <= pointers.Length && next == calls + i
      invariant Shuffled(pointers[..], random, calls, i) == Shuffled(old(pointers[..]), random, calls, 0)
    {
      ghost var s := pointers[..];
      var j := Pick(random(next), pointers.Length);
      ShuffledRound(s, random, calls, i);
      next := next + 1;
      if i != j {
        pointers[i], pointers[j] := pointers[j], pointers[i];
      }
      assert pointers[..] == Swapped(s, i, j);
      i := i + 1;
    }
    ShuffledRound(pointers[..], random, calls, i);
  }

  // ----- Every order is possible

  /** From its call number calls + from on, the generator has returned these values. */
  predicate Returned(random: nat -> nat, calls: nat, picks: seq<nat>, from: nat) {
    forall k :: from <= k < |picks| ==> random(calls + k) == picks[k]
  }

  lemma SameRest(a: multiset<nat>, b: multiset<nat>, c: multiset<nat>)
    requires a + b == a + c
    ensures b == c
  {
    forall x
      ensures b[x] == c[x]
    {
      assert (a + b)[x] == a[x] + b[x] && (a + c)[x] == a[x] + c[x];
    }
  }

  lemma Elsewhere(s: seq<nat>, target: seq<nat>, i: nat) returns (j: nat)
    requires |s| == |target| && multiset(s) == multiset(target) && i < |s| && s[..i] == target[..i]
    ensures i <= j < |s| && s[j] == target[i]
  {
    var a, b, c := s[..i], s[i..], target[i..];
    assert s == a + b && target == a + c;
    assert multiset(s) == multiset(a) + multiset(b) && multiset(target) == multiset(a) + multiset(c);
    SameRest(multiset(a), multiset(b), multiset(c));
    assert target[i] == c[0] && c[0] in multiset(c);
    var k :| 0 <= k < |b| && b[k] == target[i];
    j := i + k;
  }

  /** Picks with which one pass over s, from the i-th entry on, ends with target. */
  lemma {:induction false} PicksFor(s: seq<nat>, target: seq<nat>, i: nat) returns (picks: seq<nat>)
    requires |s| == |target| && multiset(s) == multiset(target) && i <= |s| && s[..i] == target[..i]
    ensures |picks| == |s|
    ensures forall random: nat -> nat, calls: nat :: Returned(random, calls, picks, i) ==>
      Shuffled(s, random, calls, i) == target
    decreases |s| - i
  {
    hide Shuffled, Pick;
    if i == |s| {
      picks := s;
      assert s == s[..i] == target[..i] == target;
      forall random: nat -> nat, calls: nat
        ensures Shuffled(s, random, calls, i) == target
      {
        ShuffledRound(s, random, calls, i);
      }
    } else {
      var j := Elsewhere(s, target, i);
      var t := Swapped(s, i, j);
      SwappedPermutes(s, i, j);
      assert t[..i + 1] == target[..i + 1];
      hide Swapped;
      var rest := PicksFor(t, target, i + 1);
      picks := rest[i := j];
      forall random: nat -> nat, calls: nat | Returned(random, calls, picks, i)
        ensures Shuffled(s, random, calls, i) == target
      {
        assert random(calls + i) == picks[i] == j;
        ShuffledRound(s, random, calls, i);
        forall k | i + 1 <= k < |rest|
          ensures random(calls + k) == rest[k]
        {
          assert picks[k] == rest[k];
        }
      }
    }
  }

  lemma {:induction false} StayingPut(s: seq<nat>, random: nat -> nat, calls: nat, i: nat)
    requires Returned(random, calls, Numbers(|s|), 0)
    ensures Shuffled(s, random, calls, i) == s
    decreases |s| - i
  {
    hide Shuffled, Pick;
    ShuffledRound(s, random, calls, i);
    if i < |s| {
      assert random(calls + i) == Numbers(|s|)[i] == i;
      assert Swapped(s, i, i) == s;
      hide Swapped;
      StayingPut(s, random, calls, i + 1);
    }
  }

  function Numbers(n: nat): (s: seq<nat>)
    ensures |s| == n
  {
    seq(n, k => k)
  }

  /** For every order of the chunks there are values of the generator that lead to it. */
  lemma EveryOrderPossible(s: seq<nat>, target: seq<nat>) returns (random: nat -> nat)
    requires |s| == |target| && multiset(s) == multiset(target)
    ensures Mixed(s, random) == target
  {
    var picks := PicksFor(s, target, 0);
    random := (k: nat) => if k < |picks| then picks[k] else k - |picks|;
    assert Returned(random, 0, picks, 0);
    assert Returned(random, |s|, Numbers(|s|), 0);
    hide Shuffled;
    StayingPut(target, random, |s|, 0);
  }

  /** Chunks that start at different pointers do not overlap, and all lie in the buffer. */
  lemma ChunksDisjoint(chunk: nat, size: nat, pointers: seq<nat>, j: nat, k: nat)
    requires multiset(pointers) == multiset(Starts(chunk, size / CHUNK))
    requires j < k < |pointers|
    ensures pointers[j] + CHUNK <= pointers[k] || pointers[k] + CHUNK <= pointers[j]
    ensures chunk <= pointers[j] && pointers[j] + CHUNK <= chunk + size
    ensures chunk <= pointers[k] && pointers[k] + CHUNK <= chunk + size
  {
    var starts := Starts(chunk, size / CHUNK);
    assert pointers[j] in multiset(pointers) && pointers[k] in multiset(pointers);
    var a :| 0 <= a < |starts| && starts[a] == pointers[j];
    var b :| 0 <= b < |starts| && starts[b] == pointers[k];
    if a == b {
      CountTwo(pointers, j, k);
      StartsOnce(chunk, size / CHUNK, a);
    }
  }

  lemma CountTwo(s: seq<nat>, j: nat, k: nat)
    requires j < k < |s| && s[j] == s[k]
    ensures multiset(s)[s[j]] >= 2
  {
    assert s == s[..k] + [s[k]] + s[k + 1..];
    assert s[j] == s[..k][j] && s[j] in s[..k];
  }

  lemma {:induction false} StartsOnce(chunk: nat, n: nat, a: nat)
    requires a < n
    ensures multiset(Starts(chunk, n))[chunk + CHUNK * a] == 1
  {
    var s := Starts(chunk, n);
    assert s == s[..n - 1] + [s[n - 1]] && s[..n - 1] == Starts(chunk, n - 1);
    if a < n - 1 {
      StartsOnce(chunk, n - 1, a);
    } else {
      assert chunk + CHUNK * a !in s[..n - 1];
    }
  }
}
