/** Whole runs over a pool of property maps: any interleaving of the operations, with maps
    copied between slots and replaced by parsed wires. */
module PropertyMapRuns {
  import opened Bits
  import opened Outcomes
  import opened PropertyMapSpec
  import opened PropertyMapObject

  datatype Op =
    | New(k: nat)
    | EnableOp(k: nat, op: byte)
    | DisableOp(k: nat, op: byte)
    | DisableAllOp(k: nat)
    | CopyOp(k: nat, src: nat)
    | ParseOp(k: nat, wire: seq<byte>)

  /** What the caller sees: a refusal, or whether the call says it changed the map. */
  datatype Reply = Refused | Changed(yes: bool)

  predicate InPool(o: Op, n: nat) { o.k < n && (o.CopyOp? ==> o.src < n) }

  predicate AllInPool(ops: seq<Op>, n: nat) { forall i | 0 <= i < |ops| :: InPool(ops[i], n) }

  function ReplyOf(r: Outcome<bool, MiddlewareError>): Reply {
    if r.Ok? then Changed(r.value) else Refused
  }

  /** The new value of the operation's slot, as the methods of NodeObjectPropertyMap compute it
      from the slot's value and, for a copy, the source's. */
  function NextOf(v: MapValue, src: MapValue, o: Op): (MapValue, Reply) {
    match o
    case New(_) => (NewMap(), Changed(true))
    case EnableOp(_, op) => var (v', r) := Enable(v, op); (v', ReplyOf(r))
    case DisableOp(_, op) => var (v', r) := Disable(v, op); (v', ReplyOf(r))
    case DisableAllOp(_) => var (v', r) := DisableAll(v); (v', ReplyOf(r))
    case CopyOp(_, _) => (src, Changed(true))
    case ParseOp(_, wire) =>
      var r := Parse(wire);
      if r.Ok? then (r.value, Changed(true)) else (v, Refused)
  }

  function SourceSlot(o: Op): nat { if o.CopyOp? then o.src else o.k }

  function Next(pool: seq<MapValue>, o: Op): (MapValue, Reply)
    requires InPool(o, |pool|)
  {
    NextOf(pool[o.k], pool[SourceSlot(o)], o)
  }

  function Run(pool: seq<MapValue>, ops: seq<Op>): (r: (seq<MapValue>, seq<Reply>))
    requires AllInPool(ops, |pool|)
    ensures |r.0| == |pool| && |r.1| == |ops|
  {
    if ops == [] then (pool, [])
    else
      var before := Run(pool, ops[..|ops| - 1]);
      var o := ops[|ops| - 1];
      (before.0[o.k := Next(before.0, o).0], before.1 + [Next(before.0, o).1])
  }

  /** The same operations on mathematical sets of codes; a reply says whether the set changed. */
  function SetNextOf(codes: set<int>, src: set<int>, o: Op): (set<int>, Reply) {
    match o
    case New(_) => ({}, Changed(true))
    case EnableOp(_, op) => if op < 0x80 then (codes, Refused) else (codes + {op}, Changed(op !in codes))
    case DisableOp(_, op) => if op < 0x80 then (codes, Refused) else (codes - {op}, Changed(op in codes))
    case DisableAllOp(_) => ({}, Changed(codes != {}))
    case CopyOp(_, _) => (src, Changed(true))
    case ParseOp(_, wire) => if Accepts(wire) then (WireCodes(wire), Changed(true)) else (codes, Refused)
  }

  function SetNext(pool: seq<set<int>>, o: Op): (set<int>, Reply)
    requires InPool(o, |pool|)
  {
    SetNextOf(pool[o.k], pool[SourceSlot(o)], o)
  }

  function SetRun(pool: seq<set<int>>, ops: seq<Op>): (r: (seq<set<int>>, seq<Reply>))
    requires AllInPool(ops, |pool|)
    ensures |r.0| == |pool| && |r.1| == |ops|
  {
    if ops == [] then (pool, [])
    else
      var before := SetRun(pool, ops[..|ops| - 1]);
      var o := ops[|ops| - 1];
      (before.0[o.k := SetNext(before.0, o).0], before.1 + [SetNext(before.0, o).1])
  }

  /** The guard that keeps counts exact: no accepted wire list repeats a code. */
  predicate NoRepeats(o: Op) {
    o.ParseOp? && ListForm(o.wire) ==> Distinct(o.wire[1..])
  }

  function Empty(n: nat): (pool: seq<MapValue>)
    ensures |pool| == n && forall k | 0 <= k < n :: pool[k] == NewMap()
  {
    seq(n, _ => NewMap())
  }

  function EmptySets(n: nat): (pool: seq<set<int>>)
    ensures |pool| == n && forall k | 0 <= k < n :: pool[k] == {}
  {
    seq(n, _ => {})
  }

  predicate Same(v: MapValue, codes: set<int>) { ValidValue(v) && v.codes == codes }

  predicate Exact(v: MapValue) { v.count == |v.codes| }

  lemma EnableRefines(v: MapValue, op: byte)
    requires ValidValue(v)
    ensures var after := Enable(v, op).0;
      && ValidValue(after) && after.codes == (if op < 0x80 then v.codes else v.codes + {op})
      && after.count - |after.codes| == v.count - |v.codes|
  {
    if op !in v.codes { assert |v.codes + {op as int}| == |v.codes| + 1; }
  }

  lemma DisableRefines(v: MapValue, op: byte)
    requires ValidValue(v)
    ensures var after := Disable(v, op).0;
      && ValidValue(after) && after.codes == (if op < 0x80 then v.codes else v.codes - {op})
      && after.count - |after.codes| == v.count - |v.codes|
  {
    if op in v.codes { assert |v.codes - {op as int}| == |v.codes| - 1; }
  }

  /** One operation keeps the invariant; it is exact if it starts exact and parses no repeated code. */
  lemma NextRefines(v: MapValue, src: MapValue, o: Op)
    requires ValidValue(v) && ValidValue(src)
    ensures ValidValue(NextOf(v, src, o).0) && NextOf(v, src, o).0.codes == SetNextOf(v.codes, src.codes, o).0
    ensures NoRepeats(o) && Exact(v) && Exact(src)
            ==> Exact(NextOf(v, src, o).0) && NextOf(v, src, o).1 == SetNextOf(v.codes, src.codes, o).1
  {
    match o
    case EnableOp(_, op) => EnableRefines(v, op);
    case DisableOp(_, op) => DisableRefines(v, op);
    case ParseOp(_, wire) => if Accepts(wire) { ParsedIsValid(wire); }
    case _ =>
  }

  lemma StepRefines(pool: seq<MapValue>, sets: seq<set<int>>, o: Op)
    requires |pool| == |sets| && InPool(o, |pool|)
    requires forall k | 0 <= k < |pool| :: Same(pool[k], sets[k])
    ensures Same(Next(pool, o).0, SetNext(sets, o).0)
    ensures NoRepeats(o) && (forall k | 0 <= k < |pool| :: Exact(pool[k]))
            ==> Exact(Next(pool, o).0) && Next(pool, o).1 == SetNext(sets, o).1
  {
    assert Same(pool[o.k], sets[o.k]) && Same(pool[SourceSlot(o)], sets[SourceSlot(o)]);
    NextRefines(pool[o.k], pool[SourceSlot(o)], o);
  }

  /** In every reachable pool each count is at least the number of codes and at most 14 more,
      the codes are operation codes, and the sets are those of the mathematical run. */
  lemma {:induction false} RunRefinesSets(n: nat, ops: seq<Op>)
    requires AllInPool(ops, n)
    ensures forall k | 0 <= k < n :: Same(Run(Empty(n), ops).0[k], SetRun(EmptySets(n), ops).0[k])
    ensures forall v | v in Run(Empty(n), ops).0 :: |v.codes| <= v.count <= |v.codes| + 14
  {
    if ops != [] {
      var init := ops[..|ops| - 1];
      RunRefinesSets(n, init);
      StepRefines(Run(Empty(n), init).0, SetRun(EmptySets(n), init).0, ops[|ops| - 1]);
    }
  }

  /** When no parsed list repeats a code, every count is the size of its set, at most 128, and
      every reply is the mathematical one: true exactly when the set changed. */
  lemma {:induction false} RunIsExact(n: nat, ops: seq<Op>)
    requires AllInPool(ops, n)
    requires forall i | 0 <= i < |ops| :: NoRepeats(ops[i])
    ensures Run(Empty(n), ops).1 == SetRun(EmptySets(n), ops).1
    ensures forall k | 0 <= k < n :: Exact(Run(Empty(n), ops).0[k]) && Run(Empty(n), ops).0[k].count <= 128
  {
    if ops != [] {
      var init := ops[..|ops| - 1];
      RunIsExact(n, init);
      RunRefinesSets(n, init);
      StepRefines(Run(Empty(n), init).0, SetRun(EmptySets(n), init).0, ops[|ops| - 1]);
    }
    RunRefinesSets(n, ops);
    var pool := Run(Empty(n), ops).0;
    forall k | 0 <= k < n ensures pool[k].count <= 128 {
      assert Same(pool[k], SetRun(EmptySets(n), ops).0[k]);
      AscendingAll(pool[k].codes);
    }
  }

  // ----- exactly which slots and replies are affected

  /** Whether a slot holds a map whose codes were counted more than once: set by parsing a list
      with a repeated code, copied along, and cleared by everything that starts afresh. */
  function FlagNextOf(flag: bool, src: bool, o: Op): bool {
    match o
    case New(_) => false
    case EnableOp(_, _) => flag
    case DisableOp(_, _) => flag
    case DisableAllOp(_) => false
    case CopyOp(_, _) => src
    case ParseOp(_, wire) => if Accepts(wire) then ListForm(wire) && !Distinct(wire[1..]) else flag
  }

  /** The flags of the slots after a run. */
  function Flags(n: nat, ops: seq<Op>): (flags: seq<bool>)
    requires AllInPool(ops, n)
    ensures |flags| == n
  {
    if ops == [] then seq(n, _ => false)
    else
      var before := Flags(n, ops[..|ops| - 1]);
      var o := ops[|ops| - 1];
      before[o.k := FlagNextOf(before[o.k], before[SourceSlot(o)], o)]
  }

  lemma NextFlag(v: MapValue, src: MapValue, o: Op)
    requires ValidValue(v) && ValidValue(src)
    ensures Exact(NextOf(v, src, o).0) <==> !FlagNextOf(!Exact(v), !Exact(src), o)
  {
    match o
    case EnableOp(_, op) => EnableRefines(v, op);
    case DisableOp(_, op) => DisableRefines(v, op);
    case ParseOp(_, wire) => if Accepts(wire) { ParsedIsValid(wire); }
    case _ =>
  }

  /** A count is inexact exactly in the flagged slots. */
  lemma {:induction false} FlagsAreInexact(n: nat, ops: seq<Op>)
    requires AllInPool(ops, n)
    ensures forall k | 0 <= k < n :: Exact(Run(Empty(n), ops).0[k]) <==> !Flags(n, ops)[k]
  {
    if ops != [] {
      var init, o := ops[..|ops| - 1], ops[|ops| - 1];
      FlagsAreInexact(n, init);
      RunRefinesSets(n, init);
      var (pool, sets) := (Run(Empty(n), init).0, SetRun(EmptySets(n), init).0);
      assert Same(pool[o.k], sets[o.k]) && Same(pool[SourceSlot(o)], sets[SourceSlot(o)]);
      NextFlag(pool[o.k], pool[SourceSlot(o)], o);
    }
  }

  /** After any run a slot survives the wire exactly when its flag is clear; otherwise its wire
      form is refused. */
  lemma RunRoundTripsExactly(n: nat, ops: seq<Op>, k: nat)
    requires AllInPool(ops, n) && k < n
    ensures ValidValue(Run(Empty(n), ops).0[k])
    ensures Parse(Encode(Run(Empty(n), ops).0[k]))
         == if Flags(n, ops)[k] then Err(InvalidValue) else Ok(Run(Empty(n), ops).0[k])
  {
    RunRefinesSets(n, ops);
    FlagsAreInexact(n, ops);
    assert Same(Run(Empty(n), ops).0[k], SetRun(EmptySets(n), ops).0[k]);
    WireRoundTrip(Run(Empty(n), ops).0[k]);
  }

  /** Without repeated codes no flag is ever set. */
  lemma {:induction false} NoRepeatsNoFlags(n: nat, ops: seq<Op>)
    requires AllInPool(ops, n)
    requires forall i | 0 <= i < |ops| :: NoRepeats(ops[i])
    ensures forall k | 0 <= k < n :: !Flags(n, ops)[k]
  {
    if ops != [] { NoRepeatsNoFlags(n, ops[..|ops| - 1]); }
  }

  lemma {:induction false} ReplyAt(n: nat, ops: seq<Op>, i: nat)
    requires AllInPool(ops, n) && i < |ops|
    ensures AllInPool(ops[..i], n)
    ensures Run(Empty(n), ops).1[i] == Next(Run(Empty(n), ops[..i]).0, ops[i]).1
    ensures SetRun(EmptySets(n), ops).1[i] == SetNext(SetRun(EmptySets(n), ops[..i]).0, ops[i]).1
  {
    var init := ops[..|ops| - 1];
    if i < |ops| - 1 {
      ReplyAt(n, init, i);
      assert init[..i] == ops[..i];
    }
  }

  /** In any run a reply differs from the mathematical one exactly when it answers disable_all on
      a flagged slot whose set is empty. */
  lemma RunRepliesExactly(n: nat, ops: seq<Op>, i: nat)
    requires AllInPool(ops, n) && i < |ops|
    ensures AllInPool(ops[..i], n)
    ensures Run(Empty(n), ops).1[i] != SetRun(EmptySets(n), ops).1[i] <==>
      ops[i].DisableAllOp? && Flags(n, ops[..i])[ops[i].k] && SetRun(EmptySets(n), ops[..i]).0[ops[i].k] == {}
  {
    ReplyAt(n, ops, i);
    RunRefinesSets(n, ops[..i]);
    FlagsAreInexact(n, ops[..i]);
    var (pool, sets) := (Run(Empty(n), ops[..i]).0, SetRun(EmptySets(n), ops[..i]).0);
    assert Same(pool[ops[i].k], sets[ops[i].k]);
    RepliesDiffer(pool[ops[i].k], pool[SourceSlot(ops[i])], ops[i]);
  }

  /** A single reply differs from the mathematical one in one case only: disable_all of a map
      that is empty but whose count is not zero. */
  lemma RepliesDiffer(v: MapValue, src: MapValue, o: Op)
    requires ValidValue(v)
    ensures NextOf(v, src, o).1 != SetNextOf(v.codes, src.codes, o).1
            <==> o.DisableAllOp? && v.codes == {} && v.count > 0
  {
  }

  /** The two-entry list 80 80 is accepted with count 2 and one code; disabling that code leaves
      an empty map that reports count 1, and disable_all then claims a change. */
  lemma RepeatedCodeWitness()
    ensures var ops := [ParseOp(0, [2, 0x80, 0x80]), DisableOp(0, 0x80), DisableAllOp(0)];
      && AllInPool(ops, 1)
      && Run(Empty(1), ops[..1]).0[0] == MapValue({0x80}, 2)
      && Run(Empty(1), ops[..2]).0[0] == MapValue({}, 1)
      && Run(Empty(1), ops).1[2] == Changed(true) && SetRun(EmptySets(1), ops).1[2] == Changed(false)
  {
    var w: seq<byte> := [2, 0x80, 0x80];
    assert ListForm(w);
    assert w[1] == 0x80;
    assert WireCodes(w) == {0x80};
    var o1, o2, o3 := ParseOp(0, w), DisableOp(0, 0x80), DisableAllOp(0);
    var ops := [o1, o2, o3];
    assert ops[..0] == [] && ops[..1] == [o1] && ops[..2] == [o1, o2] && ops[..3] == ops;
    RunOne(1, ops, 0);
    RunOne(1, ops, 1);
    RunOne(1, ops, 2);
    assert {0x80} - {0x80 as int} == {};
  }

  /** The run of a prefix, one operation further. */
  lemma RunOne(n: nat, ops: seq<Op>, i: nat)
    requires AllInPool(ops, n) && i < |ops|
    ensures AllInPool(ops[..i], n) && AllInPool(ops[..i + 1], n)
    ensures var (before, o) := (Run(Empty(n), ops[..i]), ops[i]);
      Run(Empty(n), ops[..i + 1]) == (before.0[o.k := Next(before.0, o).0], before.1 + [Next(before.0, o).1])
    ensures var (before, o) := (SetRun(EmptySets(n), ops[..i]), ops[i]);
      var next := SetNext(before.0, o);
      SetRun(EmptySets(n), ops[..i + 1]) == (before.0[o.k := next.0], before.1 + [next.1])
  {
    assert ops[..i + 1][..i] == ops[..i];
  }

  // ----- the same run on objects

  /** Distinct objects with distinct row arrays. */
  ghost predicate Apart(pool: seq<NodeObjectPropertyMap>) {
    forall a, b | 0 <= a < b < |pool| :: pool[a] != pool[b] && pool[a].operations != pool[b].operations
  }

  ghost predicate Carries(m: NodeObjectPropertyMap, v: MapValue)
    reads m, m.operations
  {
    m.Valid() && m.Value() == v
  }

  /** Separate objects, each holding the given value. */
  ghost predicate Holds(pool: seq<NodeObjectPropertyMap>, values: seq<MapValue>)
    reads pool, set m | m in pool :: m.operations
  {
    |pool| == |values| && Apart(pool) && forall k | 0 <= k < |pool| :: Carries(pool[k], values[k])
  }

  method NewPool(n: nat) returns (pool: seq<NodeObjectPropertyMap>)
    ensures Holds(pool, Empty(n))
    ensures forall k | 0 <= k < |pool| :: fresh(pool[k]) && fresh(pool[k].operations)
  {
    pool := [];
    for i := 0 to n
      invariant |pool| == i
      invariant forall k | 0 <= k < |pool| :: fresh(pool[k]) && fresh(pool[k].operations)
      invariant Holds(pool, Empty(i))
    {
      var m := new NodeObjectPropertyMap();
      pool := pool + [m];
    }
  }

  /** The objects themselves go through exactly the values and replies of Run. */
  method Execute(n: nat, ops: seq<Op>) returns (pool: seq<NodeObjectPropertyMap>, replies: seq<Reply>)
    requires AllInPool(ops, n)
    ensures Holds(pool, Run(Empty(n), ops).0)
    ensures replies == Run(Empty(n), ops).1
  {
    pool := NewPool(n);
    replies := [];
    for i := 0 to |ops|
      invariant AllInPool(ops[..i], n)
      invariant forall k | 0 <= k < |pool| :: fresh(pool[k]) && fresh(pool[k].operations)
      invariant Holds(pool, Run(Empty(n), ops[..i]).0)
      invariant replies == Run(Empty(n), ops[..i]).1
    {
      RunOne(n, ops, i);
      var reply;
      pool, reply := Apply(pool, ops[i], Run(Empty(n), ops[..i]).0);
      replies := replies + [reply];
    }
    assert ops[..|ops|] == ops;
  }

  method Apply(pool: seq<NodeObjectPropertyMap>, o: Op, ghost values: seq<MapValue>)
    returns (after: seq<NodeObjectPropertyMap>, reply: Reply)
    requires Holds(pool, values) && InPool(o, |values|)
    modifies pool[o.k], pool[o.k].operations
    ensures Holds(after, values[o.k := Next(values, o).0])
    ensures reply == Next(values, o).1
    ensures forall k | 0 <= k < |after| && k != o.k :: after[k] == pool[k]
    ensures after[o.k] == pool[o.k] || (fresh(after[o.k]) && fresh(after[o.k].operations))
  {
    var m;
    assert Carries(pool[o.k], values[o.k]) && Carries(pool[SourceSlot(o)], values[SourceSlot(o)]);
    m, reply := ApplyTo(pool[o.k], pool[SourceSlot(o)], o);
    after := pool[o.k := m];
    forall k | 0 <= k < |pool| && k != o.k
      ensures Carries(pool[k], values[k]) && m != pool[k] && m.operations != pool[k].operations
    {
      assert old(Carries(pool[k], values[k]));
    }
    ApartUpdate(pool, o.k, m);
  }

  lemma ApartUpdate(pool: seq<NodeObjectPropertyMap>, k: nat, m: NodeObjectPropertyMap)
    requires k < |pool| && Apart(pool)
    requires forall j | 0 <= j < |pool| && j != k :: m != pool[j] && m.operations != pool[j].operations
    ensures Apart(pool[k := m])
  {
  }

  method ApplyTo(m: NodeObjectPropertyMap, src: NodeObjectPropertyMap, o: Op)
    returns (after: NodeObjectPropertyMap, reply: Reply)
    requires m.Valid() && src.Valid()
    modifies m, m.operations
    ensures after.Valid() && (after.Value(), reply) == NextOf(old(m.Value()), old(src.Value()), o)
    ensures after == m || (fresh(after) && fresh(after.operations))
  {
    after := m;
    match o {
      case New(_) =>
        after := new NodeObjectPropertyMap();
        reply := Changed(true);
      case EnableOp(_, op) =>
        var r := m.EnableOperation(op);
        reply := ReplyOf(r);
      case DisableOp(_, op) =>
        var r := m.DisableOperation(op);
        reply := ReplyOf(r);
      case DisableAllOp(_) =>
        var r := m.DisableAll();
        reply := ReplyOf(r);
      case CopyOp(_, _) =>
        m.CopyFrom(src);
        reply := Changed(true);
      case ParseOp(_, wire) =>
        var r := NodeObjectPropertyMap.FromBytes(wire);
        if r.Ok? {
          after, reply := r.value, Changed(true);
        } else {
          reply := Refused;
        }
    }
  }

  /** Decoding a map and parsing the result: refused exactly when the count is not the number
      of codes, and otherwise a new map with the same eight rows and the same count. */
  method DecodeThenParse(m: NodeObjectPropertyMap) returns (r: Outcome<NodeObjectPropertyMap, MiddlewareError>)
    requires m.Valid()
    ensures !r.Panic? && (r.Ok? <==> m.operationsCount == |m.Codes()|)
    ensures r.Ok? ==> fresh(r.value) && r.value.operations.Length == 8
    ensures r.Ok? ==> r.value.operations[..] == m.operations[..] && r.value.operationsCount == m.operationsCount
  {
    var wire := m.Decode();
    WireRoundTrip(m.Value());
    r := NodeObjectPropertyMap.FromBytes(wire);
    if r.Ok? {
      RowsDetermined(r.value.operations[..], m.operations[..]);
    }
  }
}
