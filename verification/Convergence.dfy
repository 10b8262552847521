/** Reconciling every object, in any order, makes the shared collision map the brute-force one; and
    updates the event filter drops change no report. */
module Convergence {
  import opened Addresses
  import opened MacMaps
  import opened Collisions
  import opened Detection

  // ---- one reconcile --------------------------------------------------------------------------

  function FindVmi(s: seq<Vmi>, r: Ref): (x: Option<Vmi>)
    ensures x.Some? ==> x.value in s && x.value.AsRef() == r
    ensures x.None? ==> forall y :: y in s ==> y.AsRef() != r
  {
    if s == [] then None else if s[0].AsRef() == r then Some(s[0]) else FindVmi(s[1..], r)
  }

  function FindPod(s: seq<Pod>, r: Ref): (x: Option<Pod>)
    ensures x.Some? ==> x.value in s && x.value.AsRef() == r
    ensures x.None? ==> forall y :: y in s ==> y.AsRef() != r
  {
    if s == [] then None else if s[0].AsRef() == r then Some(s[0]) else FindPod(s[1..], r)
  }

  /** A reconcile of r leaves the map alone: r is in the cluster and unmanaged or of unknown
      management, or it is a launcher pod, or a running pod without addresses. */
  predicate Skipped(cl: Cluster, r: Ref) {
    if r.kind.VmiKind? then
      var x := FindVmi(cl.vmis, r);
      x.Some? && cl.vmManaged(x.value.ns) != Some(true)
    else
      var x := FindPod(cl.pods, r);
      x.Some? && (x.value.launcher || cl.podManaged(x.value.ns) != Some(true)
                  || (x.value.phase == RUNNING && PodMacs(x.value) == {}))
  }

  /** What a reconcile of the object named r pushes into the collision map; nothing when it skips. */
  function Pushed(cl: Cluster, r: Ref): (p: Option<CollisionMap>)
    ensures p.None? <==> Skipped(cl, r)
  {
    if r.kind.VmiKind? then
      var x := FindVmi(cl.vmis, r);
      if x.None? then Some(map[])
      else if cl.vmManaged(x.value.ns) != Some(true) then None
      else if x.value.phase != RUNNING || VmiMacs(x.value) == {} then Some(map[])
      else Some(VmiReport(cl, x.value))
    else
      var x := FindPod(cl.pods, r);
      if x.None? then Some(map[])
      else if x.value.launcher || cl.podManaged(x.value.ns) != Some(true) then None
      else if x.value.phase != RUNNING then Some(map[])
      else if PodMacs(x.value) == {} then None
      else Some(PodReport(cl, x.value))
  }

  function Reconcile(cl: Cluster, C: CollisionMap, r: Ref): CollisionMap {
    var report := Pushed(cl, r);
    if report.None? then C else UpdateMap(C, r, report.value)
  }

  function ReconcileAll(cl: Cluster, C: CollisionMap, order: seq<Ref>): CollisionMap {
    if order == [] then C
    else Reconcile(cl, ReconcileAll(cl, C, order[..|order| - 1]), order[|order| - 1])
  }

  // ---- brute force ----------------------------------------------------------------------------

  /** r names a running, managed object that has address m. */
  ghost predicate Holder(cl: Cluster, m: Mac, r: Ref) {
    exists o: Object :: o.Live(cl) && o.AsRef() == r && m in o.Macs()
  }

  /** At least two different objects hold m. */
  ghost predicate Crowded(cl: Cluster, m: Mac) {
    exists a, b :: Holder(cl, m, a) && Holder(cl, m, b) && a != b
  }

  /** The list at m names exactly the holders, each once. */
  ghost predicate ListsHolders(cl: Cluster, C: CollisionMap, m: Mac) {
    m in C && Distinct(C[m]) && forall r :: r in C[m] <==> Holder(cl, m, r)
  }

  ghost predicate NoSharedMigrations(cl: Cluster) {
    forall x, y :: x in cl.vmis && y in cl.vmis ==> PassesMigration(x, y)
  }

  /** A sound snapshot, without KubeVirt only of pods, in which no migration excuses a collision. */
  ghost predicate Settled(cl: Cluster) {
    Sound(cl) && (cl.kubevirt || cl.vmis == []) && NoSharedMigrations(cl)
  }

  lemma HoldersHaveNamespaces(cl: Cluster, m: Mac, r: Ref)
    requires Sound(cl) && Holder(cl, m, r)
    ensures '/' !in r.ns
  {
  }

  lemma Answered(o: Option<bool>)
    requires o.Some? && o != Some(false)
    ensures o == Some(true)
  {
    assert o == Some(if o.value then true else false);
  }

  lemma VmiSeesLive(cl: Cluster, x: Vmi, m: Mac, y: Vmi)
    requires Sound(cl) && LiveVmi(cl, x) && y in cl.vmis && VmiSeesVmi(cl, x, m, y)
    ensures OfVmi(y).Live(cl)
  {
    if cl.vmManaged(y.ns) != Some(true) {
      Answered(cl.vmManaged(y.ns));
    }
  }

  lemma VmiSeesLivePod(cl: Cluster, m: Mac, p: Pod)
    requires Sound(cl) && p in cl.pods && VmiSeesPod(cl, m, p)
    ensures OfPod(p).Live(cl)
  {
    Answered(cl.podManaged(p.ns));
  }

  lemma PodSeesLivePod(cl: Cluster, x: Pod, m: Mac, p: Pod)
    requires Sound(cl) && LivePod(cl, x) && p in cl.pods && PodSeesPod(cl, x, m, p)
    ensures OfPod(p).Live(cl)
  {
    if cl.podManaged(p.ns) != Some(true) {
      Answered(cl.podManaged(p.ns));
    }
  }

  lemma PodSeesLiveVmi(cl: Cluster, m: Mac, y: Vmi)
    requires Sound(cl) && y in cl.vmis && PodSeesVmi(cl, m, y)
    ensures OfVmi(y).Live(cl)
  {
    if cl.vmManaged(y.ns) != Some(true) {
      Answered(cl.vmManaged(y.ns));
    }
  }

  lemma VmiReportsLive(cl: Cluster, x: Vmi, m: Mac, r: Ref)
    requires Sound(cl) && LiveVmi(cl, x) && r in VmiColliders(cl, x, m)
    ensures exists y: Object :: y.Live(cl) && y.AsRef() == r
  {
    VmiCollidersIff(cl, x, m, r);
    if exists y :: y in cl.vmis && y.AsRef() == r && VmiSeesVmi(cl, x, m, y) {
      var y :| y in cl.vmis && y.AsRef() == r && VmiSeesVmi(cl, x, m, y);
      VmiSeesLive(cl, x, m, y);
      assert OfVmi(y).AsRef() == r;
    } else {
      var p :| p in cl.pods && p.AsRef() == r && VmiSeesPod(cl, m, p);
      VmiSeesLivePod(cl, m, p);
      assert OfPod(p).AsRef() == r;
    }
  }

  lemma PodReportsLive(cl: Cluster, x: Pod, m: Mac, r: Ref)
    requires Sound(cl) && LivePod(cl, x) && r in PodColliders(cl, x, m)
    ensures exists y: Object :: y.Live(cl) && y.AsRef() == r
  {
    PodCollidersIff(cl, x, m, r);
    if exists p :: p in cl.pods && p.AsRef() == r && PodSeesPod(cl, x, m, p) {
      var p :| p in cl.pods && p.AsRef() == r && PodSeesPod(cl, x, m, p);
      PodSeesLivePod(cl, x, m, p);
      assert OfPod(p).AsRef() == r;
    } else {
      var y :| y in cl.vmis && y.AsRef() == r && PodSeesVmi(cl, m, y);
      PodSeesLiveVmi(cl, m, y);
      assert OfVmi(y).AsRef() == r;
    }
  }

  /** Everything a live object reports is live. */
  lemma SeenIsLive(cl: Cluster, x: Object, m: Mac, r: Ref)
    requires Sound(cl) && x.Live(cl) && m in x.Report(cl) && r in x.Report(cl)[m]
    ensures exists y: Object :: y.Live(cl) && y.AsRef() == r
  {
    match x
    case OfVmi(v) => VmiReportsLive(cl, v, m, r);
    case OfPod(p) => PodReportsLive(cl, p, m, r);
  }

  /** A live object's report at one of its addresses lists exactly the other holders. */
  lemma ReportListsOthers(cl: Cluster, x: Object, m: Mac, r: Ref)
    requires Settled(cl) && x.Live(cl)
    ensures m in x.Report(cl) && r in x.Report(cl)[m] <==> m in x.Macs() && Holder(cl, m, r) && r != x.AsRef()
  {
    if m in x.Report(cl) && r in x.Report(cl)[m] {
      SeenIsLive(cl, x, m, r);
      var y: Object :| y.Live(cl) && y.AsRef() == r;
      ReportsIff(cl, x, y, m);
    }
    if m in x.Macs() && Holder(cl, m, r) && r != x.AsRef() {
      var y: Object :| y.Live(cl) && y.AsRef() == r && m in y.Macs();
      ReportsIff(cl, x, y, m);
    }
  }

  // ---- reports have no repetitions ------------------------------------------------------------

  lemma {:induction false} FilterDistinct<T(!new)>(s: seq<T>, p: T -> bool)
    requires Distinct(s)
    ensures Distinct(Filter(s, p))
  {
    if s != [] {
      FilterDistinct(s[1..], p);
      FilterIff(s[1..], p);
      var f := Filter(s[1..], p);
      assert s[0] !in s[1..];
      assert s[0] !in f;
      if p(s[0]) {
        assert Filter(s, p) == [s[0]] + f;
      } else {
        assert Filter(s, p) == f;
      }
    }
  }

  lemma VmiRefsDistinct(cl: Cluster, p: Vmi -> bool)
    requires Sound(cl)
    ensures Distinct(VmiRefs(Filter(cl.vmis, p)))
  {
    FilterDistinct(cl.vmis, p);
    FilterIff(cl.vmis, p);
    var f := Filter(cl.vmis, p);
    assert forall k :: 0 <= k < |f| ==> f[k] in cl.vmis;
  }

  lemma PodRefsDistinct(cl: Cluster, p: Pod -> bool)
    requires Sound(cl)
    ensures Distinct(PodRefs(Filter(cl.pods, p)))
  {
    FilterDistinct(cl.pods, p);
    FilterIff(cl.pods, p);
    var f := Filter(cl.pods, p);
    assert forall k :: 0 <= k < |f| ==> f[k] in cl.pods;
  }

  lemma ConcatDistinct(a: seq<Ref>, b: seq<Ref>)
    requires Distinct(a) && Distinct(b) && forall r :: r in a ==> r !in b
    ensures Distinct(a + b)
  {
    forall i, j | 0 <= i < j < |a + b| ensures (a + b)[i] != (a + b)[j] {
      if i < |a| && j >= |a| {
        assert a[i] in a && b[j - |a|] in b;
      }
    }
  }

  /** The list a live object reports at an address is non-empty, unrepeated and omits the object. */
  lemma ReportAt(cl: Cluster, x: Object, m: Mac)
    requires Sound(cl) && x.Live(cl) && m in x.Report(cl)
    ensures x.Report(cl)[m] != [] && Distinct(x.Report(cl)[m]) && x.AsRef() !in x.Report(cl)[m]
  {
    match x
    case OfVmi(v) =>
      var a, b := Filter(cl.vmis, y => VmiSeesVmi(cl, v, m, y)), Filter(cl.pods, p => VmiSeesPod(cl, m, p));
      VmiRefsDistinct(cl, y => VmiSeesVmi(cl, v, m, y));
      PodRefsDistinct(cl, p => VmiSeesPod(cl, m, p));
      ConcatDistinct(VmiRefs(a), PodRefs(b));
      VmiCollidersIff(cl, v, m, v.AsRef());
    case OfPod(q) =>
      var a, b := Filter(cl.pods, p => PodSeesPod(cl, q, m, p)), Filter(cl.vmis, y => PodSeesVmi(cl, m, y));
      PodRefsDistinct(cl, p => PodSeesPod(cl, q, m, p));
      VmiRefsDistinct(cl, y => PodSeesVmi(cl, m, y));
      ConcatDistinct(PodRefs(a), VmiRefs(b));
      PodCollidersIff(cl, q, m, q.AsRef());
  }

  /** Reports meet what the gauge theorem asks of them. */
  lemma ReportProper(cl: Cluster, x: Object)
    requires Sound(cl) && x.Live(cl)
    ensures ProperReport(x.AsRef(), x.Report(cl))
  {
    forall m | m in x.Report(cl)
      ensures x.Report(cl)[m] != [] && Distinct(x.Report(cl)[m]) && x.AsRef() !in x.Report(cl)[m]
    {
      ReportAt(cl, x, m);
    }
  }

  // ---- one reconcile at one address -----------------------------------------------------------

  /** A live object is not skipped once it has an address, and pushes its report. */
  lemma LivePushes(cl: Cluster, x: Object, m: Mac)
    requires Sound(cl) && x.Live(cl) && m in x.Macs()
    ensures Pushed(cl, x.AsRef()) == Some(x.Report(cl))
  {
    match x
    case OfVmi(v) => assert FindVmi(cl.vmis, v.AsRef()).value == v;
    case OfPod(p) => assert FindPod(cl.pods, p.AsRef()).value == p;
  }

  /** Whatever is pushed is empty or the report of a live object. */
  lemma PushedIsReport(cl: Cluster, r: Ref)
    requires Sound(cl) && Pushed(cl, r).Some? && Pushed(cl, r).value != map[]
    ensures exists x: Object :: x.Live(cl) && x.AsRef() == r && Pushed(cl, r).value == x.Report(cl)
  {
    if r.kind.VmiKind? {
      var v := FindVmi(cl.vmis, r).value;
      assert OfVmi(v).Live(cl) && OfVmi(v).AsRef() == r && Pushed(cl, r).value == OfVmi(v).Report(cl);
    } else {
      var p := FindPod(cl.pods, r).value;
      assert OfPod(p).Live(cl) && OfPod(p).AsRef() == r && Pushed(cl, r).value == OfPod(p).Report(cl);
    }
  }

  /** An address two objects hold is in the report of each of them. */
  lemma CrowdedIsReported(cl: Cluster, m: Mac, x: Object)
    requires Settled(cl) && x.Live(cl) && m in x.Macs() && Crowded(cl, m)
    ensures m in x.Report(cl)
  {
    var a, b :| Holder(cl, m, a) && Holder(cl, m, b) && a != b;
    ReportListsOthers(cl, x, m, if a == x.AsRef() then b else a);
  }

  /** A holder in front of its report is the list of all holders. */
  lemma FullList(cl: Cluster, m: Mac, x: Object, s: Ref)
    requires Settled(cl) && x.Live(cl) && m in x.Macs() && m in x.Report(cl)
    ensures s in [x.AsRef()] + x.Report(cl)[m] <==> Holder(cl, m, s)
  {
    ReportListsOthers(cl, x, m, s);
  }

  lemma ConsDistinct(r: Ref, rest: seq<Ref>)
    requires Distinct(rest) && r !in rest
    ensures Distinct([r] + rest)
  {
  }

  /** Reconciling a holder of a crowded address makes the list there exact. */
  lemma HolderFixes(cl: Cluster, C: CollisionMap, m: Mac, r: Ref)
    requires Settled(cl) && Holder(cl, m, r) && Crowded(cl, m)
    ensures ListsHolders(cl, Reconcile(cl, C, r), m)
  {
    var x: Object :| x.Live(cl) && x.AsRef() == r && m in x.Macs();
    LivePushes(cl, x, m);
    CrowdedIsReported(cl, m, x);
    ReportedIsListed(cl, C, x, m);
    ReportAt(cl, x, m);
    ConsDistinct(r, x.Report(cl)[m]);
    forall s ensures s in [r] + x.Report(cl)[m] <==> Holder(cl, m, s) {
      FullList(cl, m, x, s);
    }
  }

  lemma ReportedIsListed(cl: Cluster, C: CollisionMap, x: Object, m: Mac)
    requires Pushed(cl, x.AsRef()) == Some(x.Report(cl)) && m in x.Report(cl)
    ensures m in Reconcile(cl, C, x.AsRef()) && Reconcile(cl, C, x.AsRef())[m] == [x.AsRef()] + x.Report(cl)[m]
  {
  }

  /** A live object that reports m holds m, and so does someone else. */
  lemma ReporterHolds(cl: Cluster, m: Mac, x: Object)
    requires Settled(cl) && x.Live(cl) && m in x.Report(cl)
    ensures Holder(cl, m, x.AsRef()) && Crowded(cl, m)
  {
    ReportAt(cl, x, m);
    var y := x.Report(cl)[m][0];
    ReportListsOthers(cl, x, m, y);
    assert Holder(cl, m, y) && y != x.AsRef();
  }

  /** So whoever pushes a list at m holds m, and so does someone else. */
  lemma PusherHolds(cl: Cluster, m: Mac, r: Ref)
    requires Settled(cl) && Pushed(cl, r).Some? && m in Pushed(cl, r).value
    ensures Holder(cl, m, r) && Crowded(cl, m)
  {
    PushedIsReport(cl, r);
    var x: Object :| x.Live(cl) && x.AsRef() == r && Pushed(cl, r).value == x.Report(cl);
    ReporterHolds(cl, m, x);
  }

  /** An address that is not crowded gets no list from anyone. */
  lemma NotPushedAt(cl: Cluster, m: Mac, r: Ref)
    requires Settled(cl) && Pushed(cl, r).Some?
    requires !(Holder(cl, m, r) && Crowded(cl, m))
    ensures m !in Pushed(cl, r).value
  {
    if m in Pushed(cl, r).value {
      PusherHolds(cl, m, r);
    }
  }

  /** Reconciling a non-holder keeps the list of an address free of it: only its own mention goes. */
  lemma NonHolderRemoves(cl: Cluster, C: CollisionMap, m: Mac, r: Ref)
    requires Settled(cl) && Pushed(cl, r).Some?
    requires !(Holder(cl, m, r) && Crowded(cl, m))
    ensures m in Reconcile(cl, C, r) <==> m in C && |Without(C[m], r.Key())| > 1
    ensures m in Reconcile(cl, C, r) ==> Reconcile(cl, C, r)[m] == Without(C[m], r.Key())
  {
    NotPushedAt(cl, m, r);
  }

  lemma TwoListed(cl: Cluster, C: CollisionMap, m: Mac)
    requires ListsHolders(cl, C, m) && Crowded(cl, m)
    ensures |C[m]| >= 2
  {
    var a, b :| Holder(cl, m, a) && Holder(cl, m, b) && a != b;
    var i :| 0 <= i < |C[m]| && C[m][i] == a;
    var j :| 0 <= j < |C[m]| && C[m][j] == b;
  }

  /** Reconciling anything keeps a correct list correct. */
  lemma StaysExact(cl: Cluster, C: CollisionMap, m: Mac, r: Ref)
    requires Settled(cl) && Crowded(cl, m) && '/' !in r.ns
    requires ListsHolders(cl, C, m)
    ensures ListsHolders(cl, Reconcile(cl, C, r), m)
  {
    if Holder(cl, m, r) {
      HolderFixes(cl, C, m, r);
    } else if Pushed(cl, r).Some? {
      NonHolderRemoves(cl, C, m, r);
      TwoListed(cl, C, m);
      forall s | s in C[m] ensures s.Key() != r.Key() {
        HoldersHaveNamespaces(cl, m, s);
        if s.Key() == r.Key() {
          KeyInjective(s, r);
        }
      }
      WithoutAbsent(C[m], r.Key());
    }
  }

  // ---- whole sweeps ---------------------------------------------------------------------------

  /** What is left of the list of an address nobody has fixed: the objects not yet reconciled and the
      skipped ones, in their order. */
  function Leftovers(cl: Cluster, C0: CollisionMap, m: Mac, done: seq<Ref>): seq<Ref> {
    if m in C0 then Filter(C0[m], r => r !in done || Skipped(cl, r)) else []
  }

  /** The list at m is s, which counts only from two objects on. */
  predicate ListIs(C: CollisionMap, m: Mac, s: seq<Ref>) {
    (m in C <==> |s| >= 2) && (m in C ==> C[m] == s)
  }

  /** Taking an object out by its key is filtering, when keys identify objects. */
  lemma {:induction false} WithoutFilter(s: seq<Ref>, p: Ref -> bool, q: Ref -> bool, r: Ref)
    requires Slashless(s) && '/' !in r.ns
    requires forall x :: x in s ==> (q(x) <==> p(x) && x != r)
    ensures Without(Filter(s, p), r.Key()) == Filter(s, q)
  {
    if s != [] {
      WithoutFilter(s[1..], p, q, r);
      assert s[0] in s;
      if s[0].Key() == r.Key() {
        KeyInjective(s[0], r);
      }
      WithoutSplit(if p(s[0]) then [s[0]] else [], Filter(s[1..], p), r.Key());
    }
  }

  lemma {:induction false} FilterShrinks<T(!new)>(s: seq<T>, p: T -> bool, q: T -> bool)
    requires forall x :: x in s && q(x) ==> p(x)
    ensures |Filter(s, q)| <= |Filter(s, p)|
  {
    if s != [] {
      FilterShrinks(s[1..], p, q);
      assert s[0] in s;
    }
  }

  lemma {:induction false} FilterAll<T(!new)>(s: seq<T>, p: T -> bool)
    requires forall x :: x in s ==> p(x)
    ensures Filter(s, p) == s
  {
    if s != [] {
      FilterAll(s[1..], p);
      assert s[0] in s && s == [s[0]] + s[1..];
    }
  }

  lemma LeftoversStep(cl: Cluster, C: CollisionMap, C0: CollisionMap, m: Mac, done: seq<Ref>, r: Ref)
    requires Settled(cl) && !(Holder(cl, m, r) && Crowded(cl, m))
    requires '/' !in r.ns && (m in C0 ==> Slashless(C0[m]))
    requires ListIs(C, m, Leftovers(cl, C0, m, done))
    ensures ListIs(Reconcile(cl, C, r), m, Leftovers(cl, C0, m, done + [r]))
  {
    if m in C0 {
      var p, q := (x: Ref) => x !in done || Skipped(cl, x), (x: Ref) => x !in done + [r] || Skipped(cl, x);
      if Skipped(cl, r) {
        FilterSame(C0[m], p, q);
      } else {
        LeftoversRemoved(cl, C0, m, done, r);
        NonHolderRemoves(cl, C, m, r);
        FilterShrinks(C0[m], p, q);
      }
    } else if Pushed(cl, r).Some? {
      NonHolderRemoves(cl, C, m, r);
    }
  }

  lemma LeftoversRemoved(cl: Cluster, C0: CollisionMap, m: Mac, done: seq<Ref>, r: Ref)
    requires m in C0 && Slashless(C0[m]) && '/' !in r.ns && !Skipped(cl, r)
    ensures Without(Leftovers(cl, C0, m, done), r.Key()) == Leftovers(cl, C0, m, done + [r])
  {
    WithoutFilter(C0[m], x => x !in done || Skipped(cl, x), x => x !in done + [r] || Skipped(cl, x), r);
  }

  /** The provisos of convergence: a kept map, and a sweep over every live object and every object
      of the map. */
  ghost predicate Sweep(cl: Cluster, C0: CollisionMap, order: seq<Ref>) {
    && Settled(cl)
    && (forall m :: m in C0 ==> |C0[m]| >= 2)
    && (forall r :: r in order ==> '/' !in r.ns)
    && (forall x: Object :: x.Live(cl) ==> x.AsRef() in order)
    && (forall m, r :: m in C0 && r in C0[m] ==> r in order)
  }

  /** Some holder of the crowded address m is among the first k of the sweep. */
  ghost predicate Fixed(cl: Cluster, m: Mac, order: seq<Ref>, k: nat) {
    Crowded(cl, m) && exists j :: 0 <= j < k && j < |order| && Holder(cl, m, order[j])
  }

  /** After the first k reconciles of a sweep a crowded address is exact if one of its holders was
      among them; any other address only has leftovers. */
  ghost predicate SweptTo(cl: Cluster, C0: CollisionMap, order: seq<Ref>, k: nat, m: Mac)
    requires k <= |order|
  {
    var C := ReconcileAll(cl, C0, order[..k]);
    if Fixed(cl, m, order, k) then ListsHolders(cl, C, m) else ListIs(C, m, Leftovers(cl, C0, m, order[..k]))
  }

  lemma SweepStart(cl: Cluster, C0: CollisionMap, order: seq<Ref>, m: Mac)
    requires Sweep(cl, C0, order)
    ensures SweptTo(cl, C0, order, 0, m)
  {
    if m in C0 {
      FilterAll(C0[m], r => r !in order[..0] || Skipped(cl, r));
    }
  }

  lemma {:induction false} SweepAt(cl: Cluster, C0: CollisionMap, order: seq<Ref>, k: nat, m: Mac)
    requires Sweep(cl, C0, order) && k <= |order|
    ensures SweptTo(cl, C0, order, k, m)
  {
    if k == 0 {
      SweepStart(cl, C0, order, m);
    } else {
      SweepAt(cl, C0, order, k - 1, m);
      SweepStep(cl, C0, order, k, m);
    }
  }

  /** One more reconcile, when the address is exact already or becomes so. */
  lemma SweepStep(cl: Cluster, C0: CollisionMap, order: seq<Ref>, k: nat, m: Mac)
    requires Sweep(cl, C0, order) && 0 < k <= |order|
    requires SweptTo(cl, C0, order, k - 1, m)
    ensures SweptTo(cl, C0, order, k, m)
  {
    ReconcileLast(cl, C0, order, k);
    FixedStep(cl, m, order, k);
    var r, C := order[k - 1], ReconcileAll(cl, C0, order[..k - 1]);
    assert '/' !in r.ns;
    if Fixed(cl, m, order, k - 1) {
      StaysExact(cl, C, m, r);
    } else if Fixed(cl, m, order, k) {
      HolderFixes(cl, C, m, r);
    } else {
      ListedSlashless(cl, C0, order, m);
      LeftoversStep(cl, C, C0, m, order[..k - 1], r);
    }
  }

  lemma ReconcileLast(cl: Cluster, C0: CollisionMap, order: seq<Ref>, k: nat)
    requires 0 < k <= |order|
    ensures ReconcileAll(cl, C0, order[..k]) == Reconcile(cl, ReconcileAll(cl, C0, order[..k - 1]), order[k - 1])
    ensures order[..k - 1] + [order[k - 1]] == order[..k]
  {
    assert order[..k][..k - 1] == order[..k - 1];
  }

  lemma FixedStep(cl: Cluster, m: Mac, order: seq<Ref>, k: nat)
    requires 0 < k <= |order|
    ensures Fixed(cl, m, order, k) <==> Fixed(cl, m, order, k - 1) || (Crowded(cl, m) && Holder(cl, m, order[k - 1]))
  {
  }

  lemma ListedSlashless(cl: Cluster, C0: CollisionMap, order: seq<Ref>, m: Mac)
    requires Sweep(cl, C0, order)
    ensures m in C0 ==> Slashless(C0[m])
  {
    if m in C0 {
      forall k | 0 <= k < |C0[m]| ensures '/' !in C0[m][k].ns {
        assert C0[m][k] in C0[m];
      }
    }
  }

  /** The map after a sweep in any order: a crowded address lists exactly its holders; any other
      address keeps the skipped objects its list had, when there are two or more. */
  lemma SweepResult(cl: Cluster, C0: CollisionMap, order: seq<Ref>, m: Mac)
    requires Sweep(cl, C0, order)
    ensures Crowded(cl, m) ==> ListsHolders(cl, ReconcileAll(cl, C0, order), m)
    ensures !Crowded(cl, m) ==> ListIs(ReconcileAll(cl, C0, order), m, StaleAt(cl, C0, m))
  {
    var n := |order|;
    assert order[..n] == order;
    SweepAt(cl, C0, order, n, m);
    if Crowded(cl, m) {
      var a, b :| Holder(cl, m, a) && Holder(cl, m, b) && a != b;
      var x: Object :| x.Live(cl) && x.AsRef() == a && m in x.Macs();
      var j :| 0 <= j < n && order[j] == a;
      assert Fixed(cl, m, order, n);
    } else if m in C0 {
      FilterSame(C0[m], r => r !in order || Skipped(cl, r), r => Skipped(cl, r));
    }
  }

  /** The skipped objects of the list at m. */
  function StaleAt(cl: Cluster, C0: CollisionMap, m: Mac): seq<Ref> {
    if m in C0 then Filter(C0[m], r => Skipped(cl, r)) else []
  }

  /** m is as in the brute-force map: listed exactly if crowded, and then with exactly its holders. */
  ghost predicate BruteForceAt(cl: Cluster, C: CollisionMap, m: Mac) {
    (m in C <==> Crowded(cl, m)) && (m in C ==> ListsHolders(cl, C, m))
  }

  lemma ConvergesAt(cl: Cluster, C0: CollisionMap, order: seq<Ref>, m: Mac)
    requires Sweep(cl, C0, order)
    ensures BruteForceAt(cl, ReconcileAll(cl, C0, order), m) <==> Crowded(cl, m) || |StaleAt(cl, C0, m)| < 2
  {
    SweepResult(cl, C0, order, m);
  }

  /** The map is the brute-force one. */
  ghost predicate BruteForce(cl: Cluster, C: CollisionMap) {
    forall m :: BruteForceAt(cl, C, m)
  }

  /** Fewer than two skipped objects are listed at any address that is not crowded. */
  ghost predicate FewSkipped(cl: Cluster, C0: CollisionMap) {
    forall m :: Crowded(cl, m) || |StaleAt(cl, C0, m)| < 2
  }

  /** Order-independent convergence, exactly: after a sweep in any order the map is the brute-force
      one if and only if no uncrowded address began with two or more skipped objects in its list. */
  lemma ConvergesIff(cl: Cluster, C0: CollisionMap, order: seq<Ref>)
    requires Sweep(cl, C0, order)
    ensures BruteForce(cl, ReconcileAll(cl, C0, order)) <==> FewSkipped(cl, C0)
  {
    var C := ReconcileAll(cl, C0, order);
    if FewSkipped(cl, C0) {
      forall m ensures BruteForceAt(cl, C, m) {
        ConvergesAt(cl, C0, order, m);
      }
    } else {
      var m :| !(Crowded(cl, m) || |StaleAt(cl, C0, m)| < 2);
      ConvergesAt(cl, C0, order, m);
      assert !BruteForceAt(cl, C, m);
    }
  }

  // ---- the gauge ------------------------------------------------------------------------------

  /** The gauge after a reconcile of r. */
  function GaugeAfter(cl: Cluster, r: Ref, C: CollisionMap, g: map<Mac, int>): map<Mac, int> {
    if Skipped(cl, r) then g else UpdateGauge(g, C.Keys, Reconcile(cl, C, r))
  }

  /** Reconciles of any object keep map and gauge in agreement. */
  lemma ReconcileAgrees(cl: Cluster, r: Ref, C: CollisionMap, g: map<Mac, int>)
    requires Sound(cl) && Agrees(C, g)
    ensures Agrees(Reconcile(cl, C, r), GaugeAfter(cl, r, C, g))
  {
    if !Skipped(cl, r) {
      PushedProper(cl, r);
      UpdateAgrees(C, g, r, Pushed(cl, r).value);
    }
  }

  lemma PushedProper(cl: Cluster, r: Ref)
    requires Sound(cl) && !Skipped(cl, r)
    ensures ProperReport(r, Pushed(cl, r).value)
  {
    if Pushed(cl, r).value != map[] {
      PushedIsReport(cl, r);
      var x: Object :| x.Live(cl) && x.AsRef() == r && Pushed(cl, r).value == x.Report(cl);
      ReportProper(cl, x);
    }
  }

  // ---- a map that does not converge -----------------------------------------------------------

  /** Two running pods that lost their addresses stay listed through every sweep. */
  lemma PodsWithoutAddressesStay(m: Mac)
    ensures var p := Pod("a", "p", "1", RUNNING, false, false, None);
            var q := Pod("a", "q", "2", RUNNING, false, false, None);
            var cl := Cluster([], [p, q], ns => Some(true), ns => Some(true), true);
            var C0: CollisionMap := map[m := [p.AsRef(), q.AsRef()]];
            Sweep(cl, C0, C0[m]) && !Crowded(cl, m) && !BruteForce(cl, ReconcileAll(cl, C0, C0[m]))
  {
    var p, q := Pod("a", "p", "1", RUNNING, false, false, None), Pod("a", "q", "2", RUNNING, false, false, None);
    var cl := Cluster([], [p, q], ns => Some(true), ns => Some(true), true);
    var C0: CollisionMap := map[m := [p.AsRef(), q.AsRef()]];
    var order := C0[m];
    assert p.AsRef() != q.AsRef() && order[0] == p.AsRef() && order[1] == q.AsRef();
    assert cl.pods[0] == p && cl.pods[1] == q;
    assert forall x: Object :: x.Live(cl) ==> x.AsRef() in order && x.Macs() == {};
    assert Sweep(cl, C0, order);
    FilterAll(C0[m], r => Skipped(cl, r));
    ConvergesIff(cl, C0, order);
    assert !(Crowded(cl, m) || |StaleAt(cl, C0, m)| < 2);
  }

  // ---- the event filter -----------------------------------------------------------------------

  /** collisionRelevantChanges on an update: phase, set of addresses, or migration UIDs changed. */
  predicate Relevant(old_: Vmi, new_: Vmi) {
    || old_.phase != new_.phase
    || VmiMacs(old_) != VmiMacs(new_)
    || SourceUid(old_) != SourceUid(new_) || TargetUid(old_) != TargetUid(new_)
  }

  predicate SameObject(a: Vmi, b: Vmi) {
    a.AsRef() == b.AsRef() && a.uid == b.uid
  }

  lemma {:induction false} FilteredRefsSame(s: seq<Vmi>, i: nat, w: Vmi, p: Vmi -> bool, q: Vmi -> bool)
    requires i < |s| && s[i].AsRef() == w.AsRef() && p(s[i]) == q(w)
    requires forall k :: 0 <= k < |s| ==> p(s[k]) == q(s[k])
    ensures VmiRefs(Filter(s, p)) == VmiRefs(Filter(s[i := w], q))
  {
    var t := s[i := w];
    if i == 0 {
      FilterSame(s[1..], p, q);
      assert t[1..] == s[1..];
      RefsCons(s[0], Filter(s[1..], p));
      RefsCons(w, Filter(s[1..], p));
    } else {
      FilteredRefsSame(s[1..], i - 1, w, p, q);
      assert t[1..] == s[1..][i - 1 := w];
      RefsCons(s[0], Filter(s[1..], p));
      RefsCons(s[0], Filter(t[1..], q));
    }
  }

  lemma RefsCons(x: Vmi, rest: seq<Vmi>)
    ensures VmiRefs([x] + rest) == [x.AsRef()] + VmiRefs(rest)
  {
    var all, tail := VmiRefs([x] + rest), VmiRefs(rest);
    forall k | 0 <= k < |tail| ensures all[k + 1] == tail[k] {
      assert ([x] + rest)[k + 1] == rest[k];
    }
    Consed(all, x.AsRef(), tail);
  }

  lemma Consed<T>(s: seq<T>, h: T, t: seq<T>)
    requires |s| == |t| + 1 && s[0] == h && forall k :: 0 <= k < |t| ==> s[k + 1] == t[k]
    ensures s == [h] + t
  {
  }

  lemma {:induction false} FilterSame<T>(s: seq<T>, p: T -> bool, q: T -> bool)
    requires forall k :: 0 <= k < |s| ==> p(s[k]) == q(s[k])
    ensures Filter(s, p) == Filter(s, q)
  {
    if s != [] {
      FilterSame(s[1..], p, q);
    }
  }

  lemma {:induction false} FindSame(s: seq<Vmi>, i: nat, w: Vmi, r: Ref)
    requires i < |s| && s[i].AsRef() == w.AsRef()
    ensures FindVmi(s[i := w], r) == FindVmi(s, r)
            || (FindVmi(s, r) == Some(s[i]) && FindVmi(s[i := w], r) == Some(w))
  {
    if i > 0 {
      assert s[i := w][1..] == s[1..][i - 1 := w];
      FindSame(s[1..], i - 1, w, r);
    } else {
      assert s[i := w][1..] == s[1..];
    }
  }

  /** What one VMI sees is the same through the old and the new state of another, or of itself. */
  lemma CollidersSame(cl: Cluster, i: nat, w: Vmi, x: Vmi, x': Vmi, m: Mac)
    requires i < |cl.vmis| && SameObject(cl.vmis[i], w) && !Relevant(cl.vmis[i], w)
    requires x' == x || (x == cl.vmis[i] && x' == w)
    ensures VmiColliders(cl, x, m) == VmiColliders(cl.(vmis := cl.vmis[i := w]), x', m)
  {
    var cl' := cl.(vmis := cl.vmis[i := w]);
    FilteredRefsSame(cl.vmis, i, w, y => VmiSeesVmi(cl, x, m, y), y => VmiSeesVmi(cl', x', m, y));
    FilterSame(cl.pods, p => VmiSeesPod(cl, m, p), p => VmiSeesPod(cl', m, p));
  }

  lemma PodCollidersSame(cl: Cluster, i: nat, w: Vmi, x: Pod, m: Mac)
    requires i < |cl.vmis| && SameObject(cl.vmis[i], w) && !Relevant(cl.vmis[i], w)
    ensures PodColliders(cl, x, m) == PodColliders(cl.(vmis := cl.vmis[i := w]), x, m)
  {
    var cl' := cl.(vmis := cl.vmis[i := w]);
    FilteredRefsSame(cl.vmis, i, w, y => PodSeesVmi(cl, m, y), y => PodSeesVmi(cl', m, y));
    FilterSame(cl.pods, p => PodSeesPod(cl, x, m, p), p => PodSeesPod(cl', x, m, p));
  }

  lemma VmiReportSame(cl: Cluster, i: nat, w: Vmi, x: Vmi, x': Vmi)
    requires i < |cl.vmis| && SameObject(cl.vmis[i], w) && !Relevant(cl.vmis[i], w)
    requires x' == x || (x == cl.vmis[i] && x' == w)
    ensures VmiReport(cl, x) == VmiReport(cl.(vmis := cl.vmis[i := w]), x')
  {
    var cl' := cl.(vmis := cl.vmis[i := w]);
    forall m ensures VmiColliders(cl, x, m) == VmiColliders(cl', x', m) {
      CollidersSame(cl, i, w, x, x', m);
    }
  }

  lemma PodReportSame(cl: Cluster, i: nat, w: Vmi, x: Pod)
    requires i < |cl.vmis| && SameObject(cl.vmis[i], w) && !Relevant(cl.vmis[i], w)
    ensures PodReport(cl, x) == PodReport(cl.(vmis := cl.vmis[i := w]), x)
  {
    var cl' := cl.(vmis := cl.vmis[i := w]);
    forall m ensures PodColliders(cl, x, m) == PodColliders(cl', x, m) {
      PodCollidersSame(cl, i, w, x, m);
    }
  }

  /** Soundness of the event filter: when an update of a VMI is filtered out, then in every cluster
      every reconcile, of any VMI or pod, pushes the same with the new VMI as with the old one. */
  lemma FilteredUpdateChangesNothing(cl: Cluster, i: nat, w: Vmi, r: Ref)
    requires i < |cl.vmis| && SameObject(cl.vmis[i], w) && !Relevant(cl.vmis[i], w)
    ensures Pushed(cl.(vmis := cl.vmis[i := w]), r) == Pushed(cl, r)
  {
    if r.kind.VmiKind? {
      FindSame(cl.vmis, i, w, r);
      var x, x' := FindVmi(cl.vmis, r), FindVmi(cl.vmis[i := w], r);
      if x.Some? {
        VmiReportSame(cl, i, w, x.value, x'.value);
      }
    } else {
      var x := FindPod(cl.pods, r);
      if x.Some? {
        PodReportSame(cl, i, w, x.value);
      }
    }
  }
}
