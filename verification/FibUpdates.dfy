/**
 The two update lists of the FIB updater: replacing earlier updates of a pair keeps the meaning of the raw
 sequence, whatever order each list is applied in.
 */
module FibUpdates {
  import opened Wrappers
  import opened Names
  import opened FibOps
  import opened FibApply

  datatype Action = AddNextHop | RemoveNextHop

  datatype FibUpdate = FibUpdate(name: Name, faceId: nat, cost: nat, action: Action) {
    predicate On(n: Name, f: nat) { name == n && faceId == f }
  }

  /** The FIB update of an emission; a removal carries the default cost. */
  function UpdateOf(op: Op): (u: FibUpdate) {
    match op
    case AddHop(n, f, c) => FibUpdate(n, f, c, AddNextHop)
    case Inherit(n, r) => FibUpdate(n, r.faceId, r.cost, AddNextHop)
    case RemoveHop(n, f) => FibUpdate(n, f, 0, RemoveNextHop)
    case Disinherit(n, r) => FibUpdate(n, r.faceId, 0, RemoveNextHop)
  }

  function UpdatesOf(ops: seq<Op>): (us: seq<FibUpdate>)
    ensures |us| == |ops|
  {
    if ops == [] then [] else UpdatesOf(ops[..|ops| - 1]) + [UpdateOf(ops[|ops| - 1])]
  }

  function Apply(fib: Fib, u: FibUpdate): (r: Fib) {
    if u.action == AddNextHop then fib[(u.name, u.faceId) := u.cost] else fib - {(u.name, u.faceId)}
  }

  function ApplyAll(fib: Fib, us: seq<FibUpdate>): (r: Fib) {
    if us == [] then fib else Apply(ApplyAll(fib, us[..|us| - 1]), us[|us| - 1])
  }

  lemma ApplyAllSnoc(fib: Fib, us: seq<FibUpdate>, u: FibUpdate)
    ensures ApplyAll(fib, us + [u]) == Apply(ApplyAll(fib, us), u)
  {
    assert (us + [u])[..|us|] == us;
  }

  lemma {:induction false} ApplyAllIsApplyOps(fib: Fib, ops: seq<Op>)
    ensures ApplyAll(fib, UpdatesOf(ops)) == ApplyOps(fib, ops)
  {
    if ops != [] {
      ApplyAllIsApplyOps(fib, ops[..|ops| - 1]);
      ApplyAllSnoc(fib, UpdatesOf(ops[..|ops| - 1]), UpdateOf(ops[|ops| - 1]));
    }
  }

  // ----- the lists -----

  /** The position of the update of a pair, or the length. */
  function Find(us: seq<FibUpdate>, n: Name, f: nat): (i: nat)
    ensures i <= |us|
    ensures i < |us| ==> us[i].On(n, f)
    ensures forall j | 0 <= j < i :: !us[j].On(n, f)
  {
    if us == [] || us[0].On(n, f) then 0 else 1 + Find(us[1..], n, f)
  }

  /** `addFibUpdate` on the list it selects. */
  function Put(us: seq<FibUpdate>, u: FibUpdate): (r: seq<FibUpdate>) {
    var i := Find(us, u.name, u.faceId);
    if i < |us| then us[i := us[i].(action := u.action, cost := u.cost)] else us + [u]
  }

  /** The list for the batch face, if `batch`, and else the one for the other faces. */
  function ListOf(batchFace: nat, us: seq<FibUpdate>, batch: bool): (r: seq<FibUpdate>) {
    if us == [] then []
    else
      var r := ListOf(batchFace, us[..|us| - 1], batch);
      var last := us[|us| - 1];
      if (last.faceId == batchFace) == batch then Put(r, last) else r
  }

  /** No pair occurs twice. */
  predicate OnePerPair(us: seq<FibUpdate>) {
    forall i, j | 0 <= i < j < |us| :: us[i].name != us[j].name || us[i].faceId != us[j].faceId
  }

  /** The update that decides a pair: the last one about it. */
  function Last(us: seq<FibUpdate>, n: Name, f: nat): (u: Option<FibUpdate>)
    ensures u.Some? ==> u.value in us && u.value.On(n, f)
    ensures u.None? ==> forall x | x in us :: !x.On(n, f)
  {
    if us == [] then None
    else
      var front, last := us[..|us| - 1], us[|us| - 1];
      assert us == front + [last];
      if last.On(n, f) then Some(last) else Last(front, n, f)
  }

  function Outcome(before: Option<nat>, u: Option<FibUpdate>): (after: Option<nat>) {
    if u.None? then before else if u.value.action == AddNextHop then Some(u.value.cost) else None
  }

  lemma {:induction false} GetAfterAll(fib: Fib, us: seq<FibUpdate>, n: Name, f: nat)
    ensures Get(ApplyAll(fib, us), n, f) == Outcome(Get(fib, n, f), Last(us, n, f))
  {
    if us != [] { GetAfterAll(fib, us[..|us| - 1], n, f); }
  }

  /** With one update per pair, membership decides. */
  lemma LastIsMember(us: seq<FibUpdate>, u: FibUpdate)
    requires OnePerPair(us) && u in us
    ensures Last(us, u.name, u.faceId) == Some(u)
  {
    var x := Last(us, u.name, u.faceId).value;
    var i :| 0 <= i < |us| && us[i] == u;
    var j :| 0 <= j < |us| && us[j] == x;
    assert i == j;
  }

  lemma PutKeepsOnePerPair(us: seq<FibUpdate>, u: FibUpdate)
    requires OnePerPair(us)
    ensures OnePerPair(Put(us, u))
  {
  }

  lemma LastAfterPut(us: seq<FibUpdate>, u: FibUpdate, n: Name, f: nat)
    requires OnePerPair(us)
    ensures Last(Put(us, u), n, f) == if u.On(n, f) then Some(u) else Last(us, n, f)
  {
    var r := Put(us, u);
    PutKeepsOnePerPair(us, u);
    var i := Find(us, u.name, u.faceId);
    if i < |us| {
      assert r[i] == u;
      if u.On(n, f) {
        LastIsMember(r, u);
      } else {
        var x := Last(us, n, f);
        if x.Some? {
          var j :| 0 <= j < |us| && us[j] == x.value;
          assert r[j] == x.value;
          LastIsMember(r, x.value);
        } else {
          forall j | 0 <= j < |r| ensures !r[j].On(n, f) { assert us[j] in us; }
        }
      }
    } else {
      assert r[..|r| - 1] == us;
    }
  }

  /** Each list holds the deciding update of every pair on its faces, once, and nothing else. */
  lemma {:induction false} ListOfKeepsLast(batchFace: nat, us: seq<FibUpdate>, batch: bool, n: Name, f: nat)
    ensures OnePerPair(ListOf(batchFace, us, batch))
    ensures Last(ListOf(batchFace, us, batch), n, f) == if (f == batchFace) == batch then Last(us, n, f) else None
  {
    if us != [] {
      var front, last := us[..|us| - 1], us[|us| - 1];
      ListOfKeepsLast(batchFace, front, batch, n, f);
      var r := ListOf(batchFace, front, batch);
      if (last.faceId == batchFace) == batch {
        PutKeepsOnePerPair(r, last);
        LastAfterPut(r, last, n, f);
      }
    }
  }

  // ----- any order -----

  predicate Reordered(us: seq<FibUpdate>, vs: seq<FibUpdate>) { multiset(us) == multiset(vs) }

  lemma LastAnyOrder(us: seq<FibUpdate>, vs: seq<FibUpdate>, n: Name, f: nat)
    requires OnePerPair(us) && Reordered(us, vs)
    ensures Last(vs, n, f) == Last(us, n, f)
  {
    var x, y := Last(vs, n, f), Last(us, n, f);
    if y.Some? { assert y.value in multiset(us); }
    if x.Some? {
      assert x.value in multiset(vs);
      LastIsMember(us, x.value);
    }
  }

  lemma {:induction false} ApplyAllConcat(fib: Fib, a: seq<FibUpdate>, b: seq<FibUpdate>)
    ensures ApplyAll(fib, a + b) == ApplyAll(ApplyAll(fib, a), b)
  {
    if b == [] {
      assert a + b == a;
    } else {
      assert (a + b)[..|a + b| - 1] == a + b[..|b| - 1];
      ApplyAllConcat(fib, a, b[..|b| - 1]);
    }
  }

  /** The batch list in any order, then the other list in any order, does what the raw sequence does. */
  lemma ListsKeepMeaning(batchFace: nat, us: seq<FibUpdate>, p: seq<FibUpdate>, q: seq<FibUpdate>, fib: Fib)
    requires Reordered(ListOf(batchFace, us, true), p) && Reordered(ListOf(batchFace, us, false), q)
    ensures ApplyAll(ApplyAll(fib, p), q) == ApplyAll(fib, us)
  {
    var a, b := ApplyAll(ApplyAll(fib, p), q), ApplyAll(fib, us);
    forall n, f ensures Get(a, n, f) == Get(b, n, f) {
      GetAfterAll(ApplyAll(fib, p), q, n, f);
      GetAfterAll(fib, p, n, f);
      GetAfterAll(fib, us, n, f);
      ListOfKeepsLast(batchFace, us, true, n, f);
      ListOfKeepsLast(batchFace, us, false, n, f);
      LastAnyOrder(ListOf(batchFace, us, true), p, n, f);
      LastAnyOrder(ListOf(batchFace, us, false), q, n, f);
    }
    SameGets(a, b);
  }

  lemma SameGets(a: Fib, b: Fib)
    requires forall n, f :: Get(a, n, f) == Get(b, n, f)
    ensures a == b
  {
    forall k ensures k in a <==> k in b {
      assert k == (k.0, k.1);
      assert Get(a, k.0, k.1) == Get(b, k.0, k.1);
    }
    forall k | k in a ensures a[k] == b[k] {
      assert k == (k.0, k.1);
      assert Get(a, k.0, k.1) == Get(b, k.0, k.1);
    }
  }
}
