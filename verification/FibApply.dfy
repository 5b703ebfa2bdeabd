/** Applying emissions: to the forwarding table and to the inherited-route records, pair by pair. */
module FibApply {
  import opened Wrappers
  import opened Names
  import opened Routes
  import opened RibTree
  import opened FibOps

  type Fib = map<(Name, nat), nat>

  function Get(fib: Fib, d: Name, f: nat): (c: Option<nat>) {
    if (d, f) in fib then Some(fib[(d, f)]) else None
  }

  function ApplyOp(fib: Fib, op: Op): (r: Fib) {
    match op
    case AddHop(n, f, c) => fib[(n, f) := c]
    case Inherit(n, r) => fib[(n, r.faceId) := r.cost]
    case RemoveHop(n, f) => fib - {(n, f)}
    case Disinherit(n, r) => fib - {(n, r.faceId)}
  }

  function ApplyOps(fib: Fib, ops: seq<Op>): (r: Fib) {
    if ops == [] then fib else ApplyOp(ApplyOps(fib, ops[..|ops| - 1]), ops[|ops| - 1])
  }

  /** The next hop a single pair has after its own emissions. */
  function Effect(before: Option<nat>, ops: seq<Op>): (after: Option<nat>) {
    if ops == [] then before
    else
      match ops[|ops| - 1]
      case AddHop(_, _, c) => Some(c)
      case Inherit(_, r) => Some(r.cost)
      case RemoveHop(_, _) => None
      case Disinherit(_, _) => None
  }

  /** Each pair of the forwarding table sees only the emissions about it. */
  lemma {:induction false} GetAfterOps(fib: Fib, ops: seq<Op>, d: Name, f: nat)
    ensures Get(ApplyOps(fib, ops), d, f) == Effect(Get(fib, d, f), Project(ops, d, f))
  {
    if ops != [] {
      var front, last := ops[..|ops| - 1], ops[|ops| - 1];
      GetAfterOps(fib, front, d, f);
      var p := Project(front, d, f);
      if last.On(d, f) {
        assert (p + [last])[|p + [last]| - 1] == last;
      } else {
        assert p + [] == p;
      }
    }
  }

  // ----- records -----

  /** `modifyInheritedRoutes` for one emission; an erasure without a record is not defined in the source and
      changes nothing here, see `Clean`. */
  ghost function ApplyRecord(t: Table, op: Op): (u: Table) {
    if op.name !in t then t
    else
      var e := t[op.name];
      match op
      case Inherit(n, r) => t[n := e.(inherited := e.inherited + [r])]
      case Disinherit(n, r) => t[n := e.(inherited := RemoveFirst(e.inherited, r.faceId))]
      case _ => t
  }

  ghost function ApplyRecords(t: Table, ops: seq<Op>): (u: Table)
    ensures u.Keys == t.Keys
  {
    if ops == [] then t else ApplyRecord(ApplyRecords(t, ops[..|ops| - 1]), ops[|ops| - 1])
  }

  /** Every record update finds its entry, and every erasure finds a record to erase. */
  ghost predicate Clean(t: Table, ops: seq<Op>) {
    ops == [] ||
    (var front, last := ops[..|ops| - 1], ops[|ops| - 1];
     && Clean(t, front)
     && (last.Inherit? || last.Disinherit? ==> last.name in t)
     && (last.Disinherit? ==> last.name in t && HasRecord(ApplyRecords(t, front)[last.name], last.Face())))
  }

  function CountOn(rs: seq<Route>, f: nat): (n: nat)
    ensures n > 0 <==> HasFace(rs, f)
  {
    if rs == [] then 0
    else
      assert rs == [rs[0]] + rs[1..];
      CountOn(rs[1..], f) + if rs[0].faceId == f then 1 else 0
  }

  lemma {:induction false} CountAppend(rs: seq<Route>, r: Route, f: nat)
    ensures CountOn(rs + [r], f) == CountOn(rs, f) + if r.faceId == f then 1 else 0
  {
    if rs == [] {
      assert (rs + [r])[1..] == [];
    } else {
      assert (rs + [r])[1..] == rs[1..] + [r];
      CountAppend(rs[1..], r, f);
    }
  }

  lemma {:induction false} CountRemoveFirst(rs: seq<Route>, f: nat, g: nat)
    ensures CountOn(RemoveFirst(rs, f), g) == if f == g && CountOn(rs, g) > 0 then CountOn(rs, g) - 1 else CountOn(rs, g)
  {
    if rs != [] && rs[0].faceId != f {
      CountRemoveFirst(rs[1..], f, g);
      assert ([rs[0]] + RemoveFirst(rs[1..], f))[1..] == RemoveFirst(rs[1..], f);
    } else if rs != [] && f != g {
      assert rs[0].faceId != g;
    }
  }

  /** The number of records a single pair has after its own emissions. */
  function CountEffect(before: nat, ops: seq<Op>): (after: nat) {
    if ops == [] then before
    else
      CountOne(CountEffect(before, ops[..|ops| - 1]), ops[|ops| - 1])
  }

  function CountOne(before: nat, op: Op): (after: nat) {
    match op
    case Inherit(_, _) => before + 1
    case Disinherit(_, _) => if before > 0 then before - 1 else 0
    case _ => before
  }

  /** One emission changes the records of its own pair. */
  lemma RecordsAfterOne(t: Table, op: Op, d: Name, f: nat)
    requires d in t
    ensures var e := ApplyRecord(t, op)[d];
      && e == t[d].(inherited := e.inherited)
      && CountOn(e.inherited, f) == var n := CountOn(t[d].inherited, f); if op.On(d, f) then CountOne(n, op) else n
  {
    var e := t[d];
    if op.name == d {
      match op {
        case Inherit(_, r) => CountAppend(e.inherited, r, f);
        case Disinherit(_, r) => CountRemoveFirst(e.inherited, r.faceId, f);
        case _ =>
      }
    }
  }

  /** An entry keeps everything but its records, and its records see only the emissions about their pair. */
  lemma {:induction false} RecordsAfterOps(t: Table, ops: seq<Op>, d: Name, f: nat)
    requires d in t
    ensures var e := ApplyRecords(t, ops)[d];
      && e == t[d].(inherited := e.inherited)
      && CountOn(e.inherited, f) == CountEffect(CountOn(t[d].inherited, f), Project(ops, d, f))
  {
    if ops != [] {
      var front, last := ops[..|ops| - 1], ops[|ops| - 1];
      RecordsAfterOps(t, front, d, f);
      RecordsAfterOne(ApplyRecords(t, front), last, d, f);
      var p := Project(front, d, f);
      if last.On(d, f) {
        assert (p + [last])[..|p + [last]| - 1] == p;
      } else {
        assert p + [] == p;
      }
    }
  }

  /** A pair's emissions never erase more records than there are. */
  predicate CleanAt(before: nat, ops: seq<Op>) {
    ops == [] ||
    (var front, last := ops[..|ops| - 1], ops[|ops| - 1];
     CleanAt(before, front) && (last.Disinherit? ==> CountEffect(before, front) > 0))
  }

  function Records(t: Table, d: Name, f: nat): (n: nat) {
    if d in t then CountOn(t[d].inherited, f) else 0
  }

  lemma CleanPrefix(before: nat, front: seq<Op>, last: Op, d: Name, f: nat)
    requires CleanAt(before, Project(front + [last], d, f))
    ensures CleanAt(before, Project(front, d, f))
  {
    var ops, p := front + [last], Project(front, d, f);
    assert ops[..|ops| - 1] == front;
    if last.On(d, f) {
      assert (p + [last])[..|p + [last]| - 1] == p;
    } else {
      assert p + [] == p;
    }
  }

  /** If every pair is clean on its own, so is the whole list. */
  lemma {:induction false} CleanFromPairs(t: Table, ops: seq<Op>)
    requires forall op | op in ops && (op.Inherit? || op.Disinherit?) :: op.name in t
    requires forall d, f :: CleanAt(Records(t, d, f), Project(ops, d, f))
    ensures Clean(t, ops)
  {
    if ops != [] {
      var front, last := ops[..|ops| - 1], ops[|ops| - 1];
      assert ops == front + [last];
      forall d, f ensures CleanAt(Records(t, d, f), Project(front, d, f)) {
        assert CleanAt(Records(t, d, f), Project(ops, d, f));
        CleanPrefix(Records(t, d, f), front, last, d, f);
      }
      CleanFromPairs(t, front);
      assert last in ops;
      if last.Disinherit? {
        assert CleanAt(Records(t, last.name, last.Face()), Project(ops, last.name, last.Face()));
        LastFindsRecord(t, front, last);
      }
    }
  }

  /** An erasure that is clean for its pair finds a record. */
  lemma LastFindsRecord(t: Table, front: seq<Op>, last: Op)
    requires last.Disinherit? && last.name in t
    requires CleanAt(Records(t, last.name, last.Face()), Project(front + [last], last.name, last.Face()))
    ensures HasRecord(ApplyRecords(t, front)[last.name], last.Face())
  {
    var d, f, ops := last.name, last.Face(), front + [last];
    var p := Project(front, d, f);
    assert ops[..|ops| - 1] == front && last.On(d, f) && Project(ops, d, f) == p + [last];
    assert (p + [last])[..|p + [last]| - 1] == p;
    RecordsAfterOps(t, front, d, f);
  }
}
