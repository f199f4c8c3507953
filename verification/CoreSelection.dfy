/**
 The selected CPU type and core. Getters check the stored selection first and repair it
 when it is out of range; a (type, core) pair also stands for a logical CPU number.
 */
module CoreSelection {
  import opened Bytes

  /** The selected type, the number of types, the selected core, the number of cores of each type. */
  datatype State = State(typ: u8, types: u8, core: u16, cores: seq<u16>)

  /** Before the processor has been identified. */
  const INITIAL := State(0, 0xFF, 0, [])

  /** The number of cores that stands for "not known yet". */
  const UNKNOWN: u16 := 0xFFFF

  // ----- What each operation does

  function CheckType(s: State, t: u8): State {
    if t < s.types then s else s.(typ := 0)
  }

  /** Reading the selected type repairs it. */
  function RepairType(s: State): State {
    CheckType(s, s.typ)
  }

  /** As many core counts as there are types, or none at all. */
  predicate Valid(s: State) {
    s.cores == [] || |s.cores| == s.types
  }

  /** After identification: at least one type, and a positive number of cores for each. */
  predicate Identified(s: State) {
    s.types > 0 && |s.cores| == s.types && forall k :: 0 <= k < |s.cores| ==> s.cores[k] > 0
  }

  /** The selected type and core exist. */
  predicate InRange(s: State) {
    s.typ < s.types && |s.cores| == s.types && s.core < s.cores[s.typ]
  }

  function CheckCore(s: State, c: u16): State
    requires Valid(s)
  {
    if s.cores == [] then s
    else
      var t := RepairType(s);
      if c < t.cores[t.typ] then t else t.(core := 0)
  }

  predicate CoreAccepted(s: State, c: u16)
    requires Valid(s)
  {
    s.cores == [] || c < s.cores[RepairType(s).typ]
  }

  function WithNumTypes(s: State, n: u8): State {
    s.(types := n, cores := seq(n, _ => UNKNOWN))
  }

  function WithNumCores(s: State, t: u8, n: u16): State
    requires s.cores != [] ==> t < |s.cores|
  {
    if s.cores != [] then s.(cores := s.cores[t := n]) else s
  }

  /** Reading the selected core repairs the type and the core. */
  function RepairCore(s: State): State
    requires Valid(s)
  {
    CheckCore(s, s.core)
  }

  function WithCore(s: State, c: u16): State
    requires Valid(s)
  {
    if CoreAccepted(s, c) then
      var t := CheckCore(s, c).(core := c);
      if s.cores == [] then t else RepairCore(t)
    else CheckCore(s, c)
  }

  function WithType(s: State, t: u8): State
    requires Valid(s)
  {
    if t < s.types then WithCore(s.(typ := t), 0) else s.(typ := 0)
  }

  /** The number of cores of the first k types. */
  function Offset(cores: seq<u16>, k: nat): (n: nat)
    requires k <= |cores|
  {
    if k == 0 then 0 else Offset(cores, k - 1) + cores[k - 1]
  }

  function Total(cores: seq<u16>): nat {
    Offset(cores, |cores|)
  }

  /** The logical CPU number of a core, in sixteen bits. */
  function CoreId(cores: seq<u16>, t: nat, c: nat): u16
    requires t <= |cores|
  {
    (Offset(cores, t) + c) % 0x1_0000
  }

  // ----- The operations

  class Options {
    var typ: u8
    var types: u8
    var core: u16
    var cores: seq<u16>

    function Now(): State
      reads this
    {
      State(typ, types, core, cores)
    }

    constructor ()
      ensures Now() == INITIAL
    {
      typ, types, core, cores := 0, 0xFF, 0, [];
    }

    method CheckSelectedTypeValid(t: u8) returns (ok: bool)
      modifies this
      ensures ok <==> t < types
      ensures typ == (if ok then old(typ) else 0) && types == old(types) && core == old(core) && cores == old(cores)
      ensures Now() == CheckType(old(Now()), t)
    {
      if t < types {
        return true;
      }
      typ := 0;
      return false;
    }

    /** Forgets all core counts; the selection itself stays, to be repaired when it is read. */
    method SetNumTypes(n: u8)
      modifies this
      ensures types == n && |cores| == n && forall k :: 0 <= k < n ==> cores[k] == UNKNOWN
      ensures typ == old(typ) && core == old(core)
      ensures n > 0 ==> Identified(Now())
      ensures Now() == WithNumTypes(old(Now()), n)
    {
      types := n;
      cores := seq(n, _ => UNKNOWN);
    }

    method GetSelectedType() returns (t: u8)
      modifies this
      ensures t == typ == if old(typ) < old(types) then old(typ) else 0
      ensures types == old(types) && core == old(core) && cores == old(cores)
      ensures Now() == RepairType(old(Now()))
    {
      var ok := CheckSelectedTypeValid(typ);
      return typ;
    }

    method CheckSelectedCoreValid(c: u16) returns (ok: bool)
      requires Valid(Now())
      modifies this
      ensures types == old(types) && cores == old(cores)
      ensures cores == [] ==> ok && typ == old(typ) && core == old(core)
      ensures cores != [] ==>
        && typ == (if old(typ) < types then old(typ) else 0)
        && (ok <==> c < cores[typ]) && core == if ok then old(core) else 0
      ensures Now() == CheckCore(old(Now()), c)
    {
      if |cores| == 0 {
        return true;
      }
      var t := GetSelectedType();
      if c < cores[t] {
        return true;
      }
      core := 0;
      return false;
    }

    /** A selection in range is read as it is; otherwise the type, the core or both become 0. */
    method GetSelectedCore() returns (c: u16)
      requires Valid(Now())
      modifies this
      ensures c == core && types == old(types) && cores == old(cores)
      ensures InRange(old(Now())) ==> Now() == old(Now())
      ensures Identified(old(Now())) ==> InRange(Now())
      ensures old(cores) != [] ==> typ == (if old(typ) < types then old(typ) else 0) && (core == old(core) || core == 0)
      ensures Now() == RepairCore(old(Now()))
    {
      var ok := CheckSelectedCoreValid(core);
      return core;
    }

    /** Adds up the cores of the types before the selected one. */
    method GetSelectedCoreId() returns (id: u16)
      requires Valid(Now())
      modifies this
      ensures old(cores) == [] ==> id == 0 && Now() == old(Now())
      ensures old(cores) != [] ==> Now() == RepairCore(old(Now())) && id == CoreId(cores, typ, core)
    {
      if |cores| == 0 {
        return 0;
      }
      ghost var s := Now();
      var offset: u16 := 0;
      var k := 0;
      var t := GetSelectedType();
      while k < t
        invariant Now() == RepairType(s) && t == typ < |cores| && 0 <= k <= t
        invariant offset == Offset(cores, k) % 0x1_0000
      {
        WrappedSum(Offset(cores, k), cores[k]);
        offset := (offset as int + cores[k] as int) % 0x1_0000;
        k := k + 1;
        t := GetSelectedType();
      }
      var c := GetSelectedCore();
      WrappedSum(Offset(cores, typ), c);
      return (offset as int + c as int) % 0x1_0000;
    }

    /** Sets the count of one type, once the types are known. */
    method SetNumCores(t: u8, n: u16)
      requires |cores| > 0 ==> t < |cores|
      modifies this
      ensures typ == old(typ) && types == old(types) && core == old(core) && |cores| == |old(cores)|
      ensures cores != [] ==> cores[t] == n
      ensures forall k :: 0 <= k < |cores| && k != t ==> cores[k] == old(cores)[k]
      ensures Now() == WithNumCores(old(Now()), t, n)
    {
      if |cores| > 0 {
        cores := cores[t := n];
      }
    }

    /** The core becomes the selected one exactly when it exists, or when no counts are known; else core 0 does. */
    method SetSelectedCore(c: u16) returns (ok: bool)
      requires Valid(Now())
      modifies this
      ensures types == old(types) && cores == old(cores)
      ensures old(cores) != [] ==> typ == if old(typ) < types then old(typ) else 0
      ensures ok <==> old(cores) == [] || c < cores[if old(typ) < types then old(typ) else 0]
      ensures core == if ok then c else 0
      ensures ok && cores != [] ==> InRange(Now())
      ensures Now() == WithCore(old(Now()), c)
    {
      ok := CheckSelectedCoreValid(c);
      if ok {
        core := c;
        var id := GetSelectedCoreId();
      }
    }

    /** An existing type becomes the selected one, with its first core; another one resets the type only. */
    method SetSelectedType(t: u8) returns (ok: bool)
      requires Valid(Now())
      modifies this
      ensures types == old(types) && cores == old(cores)
      ensures ok <==> t < types
      ensures if ok then typ == t && core == 0 else typ == 0 && core == old(core)
      ensures ok && Identified(old(Now())) ==> InRange(Now())
      ensures Now() == WithType(old(Now()), t)
    {
      ok := CheckSelectedTypeValid(t);
      if ok {
        typ := t;
        var reset := SetSelectedCore(0);
      }
    }
  }

  lemma WrappedSum(a: nat, b: nat)
    ensures (a % 0x1_0000 + b) % 0x1_0000 == (a + b) % 0x1_0000
  {
  }

  // ----- Runs

  datatype Op =
    | OpSetNumTypes(types: u8)
    | OpSetNumCores(k: u8, n: u16)
    | OpSetType(t: u8)
    | OpSetCore(c: u16)
    | OpGetType
    | OpGetCore

  predicate OpOk(s: State, op: Op) {
    && (op.OpSetNumTypes? ==> op.types > 0)
    && (op.OpSetNumCores? ==> op.k < |s.cores| && op.n > 0)
  }

  function Apply(s: State, op: Op): State
    requires Valid(s) && OpOk(s, op)
  {
    match op
    case OpSetNumTypes(n) => WithNumTypes(s, n)
    case OpSetType(t) => WithType(s, t)
    case OpSetCore(c) => WithCore(s, c)
    case OpGetType => RepairType(s)
    case OpGetCore => RepairCore(s)
    case OpSetNumCores(k, n) => WithNumCores(s, k, n)
  }

  predicate Runs(s: State, ops: seq<Op>, t: State)
    decreases |ops|
  {
    if ops == [] then t == s
    else Valid(s) && OpOk(s, ops[0]) && Runs(Apply(s, ops[0]), ops[1..], t)
  }

  /** What a getter returns is in range, whatever was stored before. */
  lemma ReadInRange(s: State)
    requires Identified(s)
    ensures RepairType(s).typ < s.types
    ensures var t := RepairCore(s); InRange(t) && RepairCore(t) == t
  {
  }

  lemma {:induction false} RunStaysIdentified(s: State, ops: seq<Op>, t: State)
    requires Identified(s) && Runs(s, ops, t)
    ensures Identified(t)
    decreases |ops|
  {
    if ops != [] {
      ApplyIdentified(s, ops[0]);
      hide Apply, Identified;
      RunStaysIdentified(Apply(s, ops[0]), ops[1..], t);
    }
  }

  lemma ApplyIdentified(s: State, op: Op)
    requires Identified(s) && OpOk(s, op)
    ensures Identified(Apply(s, op))
  {
  }

  /** Every operation keeps the stored counts consistent, also before identification. */
  lemma ValidKept(s: State, op: Op)
    requires Valid(s) && OpOk(s, op)
    ensures Valid(Apply(s, op))
  {
  }

  /**
   After any sequence of operations on an identified processor, the type and the core that
   are read are in range and the logical CPU number is below the total.
   */
  lemma ObservedInRange(s: State, ops: seq<Op>, t: State)
    requires Identified(s) && Runs(s, ops, t)
    ensures Identified(t) && Identified(RepairCore(t))
    ensures var r := RepairCore(t);
      && r.typ < t.types && r.core < t.cores[r.typ] && r.cores == t.cores
      && (Total(r.cores) <= 0x1_0000 ==> CoreId(r.cores, r.typ, r.core) < Total(r.cores))
  {
    RunStaysIdentified(s, ops, t);
    ReadInRange(t);
    var r := RepairCore(t);
    assert Identified(r) && r.cores == t.cores;
    hide RepairCore, Runs, Identified;
    OffsetGrows(r.cores, r.typ + 1, |r.cores|);
  }

  // ----- Logical CPU numbers

  lemma {:induction false} OffsetGrows(cores: seq<u16>, j: nat, k: nat)
    requires j <= k <= |cores|
    ensures Offset(cores, j) <= Offset(cores, k)
    decreases k
  {
    if j < k {
      OffsetGrows(cores, j, k - 1);
    }
  }

  /** A core of a type. */
  predicate Exists(cores: seq<u16>, t: nat, c: nat) {
    t < |cores| && c < cores[t]
  }

  /** The core that number n stands for. */
  lemma {:induction false} Locate(cores: seq<u16>, k: nat, n: nat) returns (t: nat, c: nat)
    requires k <= |cores| && n < Offset(cores, k)
    ensures Exists(cores, t, c) && Offset(cores, t) + c == n && t < k
    decreases k
  {
    if n >= Offset(cores, k - 1) {
      t, c := k - 1, n - Offset(cores, k - 1);
    } else {
      t, c := Locate(cores, k - 1, n);
    }
  }

  lemma NumberBelowTotal(cores: seq<u16>, t: nat, c: nat)
    requires Exists(cores, t, c)
    ensures Offset(cores, t) + c < Total(cores)
  {
    OffsetGrows(cores, t + 1, |cores|);
  }

  lemma NumberUnique(cores: seq<u16>, t: nat, c: nat, u: nat, d: nat)
    requires Exists(cores, t, c) && Exists(cores, u, d)
    requires Offset(cores, t) + c == Offset(cores, u) + d
    ensures t == u && c == d
  {
    if t < u {
      OffsetGrows(cores, t + 1, u);
    } else if u < t {
      OffsetGrows(cores, u + 1, t);
    }
  }

  ghost predicate Injective(cores: seq<u16>) {
    forall t, c, u, d :: Exists(cores, t, c) && Exists(cores, u, d) && CoreId(cores, t, c) == CoreId(cores, u, d)
      ==> t == u && c == d
  }

  ghost predicate Onto(cores: seq<u16>) {
    forall n :: 0 <= n < Total(cores) ==> Reached(cores, n)
  }

  ghost predicate Reached(cores: seq<u16>, n: nat) {
    exists t, c :: Exists(cores, t, c) && CoreId(cores, t, c) == n
  }

  /** Numbers start with the first core of the first type and go on through the cores of a type, then to the next type. */
  lemma NumberingOrder(cores: seq<u16>, t: nat, c: nat)
    requires t < |cores| && Total(cores) <= 0x1_0000 && Exists(cores, t, c)
    ensures t == 0 && c == 0 ==> CoreId(cores, t, c) == 0
    ensures Exists(cores, t, c + 1) ==> CoreId(cores, t, c + 1) == CoreId(cores, t, c) + 1
    ensures !Exists(cores, t, c + 1) && Exists(cores, t + 1, 0) ==> CoreId(cores, t + 1, 0) == CoreId(cores, t, c) + 1
  {
    NumberBelowTotal(cores, t, c);
    if Exists(cores, t, c + 1) {
      NumberBelowTotal(cores, t, c + 1);
    } else if Exists(cores, t + 1, 0) {
      NumberBelowTotal(cores, t + 1, 0);
    }
  }

  /**
   The pairs of a type and one of its cores correspond one to one to the numbers below the
   total exactly when the total fits sixteen bits.
   */
  lemma BijectionIff(cores: seq<u16>)
    ensures Injective(cores) && Onto(cores) <==> Total(cores) <= 0x1_0000
  {
    if Total(cores) <= 0x1_0000 {
      forall t, c, u, d | Exists(cores, t, c) && Exists(cores, u, d) && CoreId(cores, t, c) == CoreId(cores, u, d)
        ensures t == u && c == d
      {
        NumberBelowTotal(cores, t, c);
        NumberBelowTotal(cores, u, d);
        NumberUnique(cores, t, c, u, d);
      }
      forall n | 0 <= n < Total(cores)
        ensures Reached(cores, n)
      {
        var t, c := Locate(cores, |cores|, n);
      }
    } else {
      var t, c := Locate(cores, |cores|, 0);
      var u, d := Locate(cores, |cores|, 0x1_0000);
      assert CoreId(cores, t, c) == CoreId(cores, u, d);
    }
  }
}
