/**
 The list of inherited-route updates that the FIB updater hands back to the RIB, and what applying it means.
 */
module FibRecords {
  import opened Routes
  import opened RibTree
  import opened FibOps
  import opened FibCompute
  import opened FibApply

  /** The inherited-route updates of emissions, in order. */
  function RecordsOf(ops: seq<Op>): (rs: seq<RibUpdate>) {
    if ops == [] then []
    else
      RecordsOf(ops[..|ops| - 1]) + RecordOf(ops[|ops| - 1])
  }

  function RecordOf(op: Op): (rs: seq<RibUpdate>) {
    match op
    case Inherit(n, r) => [Register(n, r)]
    case Disinherit(n, r) => [Unregister(n, r)]
    case _ => []
  }

  /** One update of `modifyInheritedRoutes`. */
  ghost function ModifyOne(t: Table, u: RibUpdate): (r: Table)
    requires u.name in t
  {
    var e := t[u.name];
    match u
    case Register(n, r) => t[n := e.(inherited := e.inherited + [r])]
    case Unregister(n, r) => t[n := e.(inherited := RemoveFirst(e.inherited, r.faceId))]
    case RemoveFace(n, r) => t
  }

  /** The assertion of the source holds, and `removeInheritedRoute` does not erase past the end. */
  ghost predicate CanModify(t: Table, u: RibUpdate) {
    u.name in t && (u.Unregister? ==> HasRecord(t[u.name], u.route.faceId))
  }

  ghost predicate CanModifyAll(t: Table, us: seq<RibUpdate>)
    decreases |us|
  {
    us == [] || (CanModify(t, us[0]) && CanModifyAll(ModifyOne(t, us[0]), us[1..]))
  }

  /** `modifyInheritedRoutes`. */
  ghost function ModifyAll(t: Table, us: seq<RibUpdate>): (r: Table)
    requires CanModifyAll(t, us)
    decreases |us|
  {
    if us == [] then t else ModifyAll(ModifyOne(t, us[0]), us[1..])
  }

  lemma {:induction false} ModifySnoc(t: Table, us: seq<RibUpdate>, u: RibUpdate)
    requires CanModifyAll(t, us) && CanModify(ModifyAll(t, us), u)
    ensures CanModifyAll(t, us + [u])
    ensures ModifyAll(t, us + [u]) == ModifyOne(ModifyAll(t, us), u)
    decreases |us|
  {
    if us == [] {
      assert us + [u] == [u] && [u][1..] == [];
    } else {
      assert (us + [u])[1..] == us[1..] + [u];
      ModifySnoc(ModifyOne(t, us[0]), us[1..], u);
    }
  }

  /** The list does what the emissions say. */
  lemma {:induction false} RecordsAreApplied(t: Table, ops: seq<Op>)
    requires Clean(t, ops)
    ensures CanModifyAll(t, RecordsOf(ops)) && ModifyAll(t, RecordsOf(ops)) == ApplyRecords(t, ops)
  {
    if ops != [] {
      var front, last := ops[..|ops| - 1], ops[|ops| - 1];
      RecordsAreApplied(t, front);
      match last {
        case Inherit(n, r) => ModifySnoc(t, RecordsOf(front), Register(n, r));
        case Disinherit(n, r) => ModifySnoc(t, RecordsOf(front), Unregister(n, r));
        case _ => assert RecordsOf(ops) == RecordsOf(front);
      }
    }
  }

  /** Emissions with the given inherited-route updates. */
  function OpsOf(us: seq<RibUpdate>): (ops: seq<Op>) {
    if us == [] then []
    else
      match us[0]
      case Register(n, r) => [Inherit(n, r)] + OpsOf(us[1..])
      case Unregister(n, r) => [Disinherit(n, r)] + OpsOf(us[1..])
      case RemoveFace(n, r) => OpsOf(us[1..])
  }

  lemma {:induction false} ApplyRecordsFirst(t: Table, op: Op, ops: seq<Op>)
    ensures ApplyRecords(t, [op] + ops) == ApplyRecords(ApplyRecord(t, op), ops)
  {
    if ops == [] {
      assert [op] + ops == [op] && [op][..0] == [];
    } else {
      assert ([op] + ops)[..|[op] + ops| - 1] == [op] + ops[..|ops| - 1];
      ApplyRecordsFirst(t, op, ops[..|ops| - 1]);
    }
  }

  /** Whatever the list of inherited-route updates is, applying it does what some emissions do. */
  lemma {:induction false} OpsApply(t: Table, us: seq<RibUpdate>)
    requires CanModifyAll(t, us)
    ensures ModifyAll(t, us) == ApplyRecords(t, OpsOf(us))
    decreases |us|
  {
    if us != [] {
      OpsApply(ModifyOne(t, us[0]), us[1..]);
      match us[0] {
        case Register(n, r) => ApplyRecordsFirst(t, Inherit(n, r), OpsOf(us[1..]));
        case Unregister(n, r) => ApplyRecordsFirst(t, Disinherit(n, r), OpsOf(us[1..]));
        case RemoveFace(_, _) =>
      }
    }
  }
}
