/** What the collision controllers report against a fixed cluster snapshot
    (pkg/controller/maccollision: vmi_controller.go, pod_controller.go, vmi_candidates.go,
    pod_candidates.go, migration.go, cache.go, predicates.go). */
module Detection {
  import opened Addresses
  import opened MacMaps
  import opened VmOperations
  import opened Collisions

  const RUNNING := "Running"

  datatype Migration = Migration(source: Option<string>, target: Option<string>)

  datatype StatusInterface = StatusInterface(name: string, mac: MacText)

  datatype Vmi = Vmi(ns: string, name: string, uid: string, phase: string, interfaces: seq<Interface>,
                     networks: seq<Network>, status: seq<StatusInterface>, migration: Option<Migration>) {
    function AsRef(): Ref {
      Ref(VmiKind, ns, name)
    }
  }

  /** A pod; `requests` are the addresses of its network annotation, nothing when that does not parse. */
  datatype Pod = Pod(ns: string, name: string, uid: string, phase: string, launcher: bool,
                     hasStatus: bool, requests: Option<seq<MacText>>) {
    function AsRef(): Ref {
      Ref(PodKind, ns, name)
    }
  }

  /** The snapshot. The managed functions answer per namespace, or fail. */
  datatype Cluster = Cluster(vmis: seq<Vmi>, pods: seq<Pod>, vmManaged: string -> Option<bool>,
                             podManaged: string -> Option<bool>, kubevirt: bool)

  function Filter<T>(s: seq<T>, p: T -> bool): seq<T> {
    if s == [] then [] else if p(s[0]) then [s[0]] + Filter(s[1..], p) else Filter(s[1..], p)
  }

  function VmiRefs(s: seq<Vmi>): (refs: seq<Ref>)
    ensures |refs| == |s| && forall k :: 0 <= k < |s| ==> refs[k] == s[k].AsRef()
  {
    seq(|s|, k requires 0 <= k < |s| => s[k].AsRef())
  }

  function PodRefs(s: seq<Pod>): (refs: seq<Ref>)
    ensures |refs| == |s| && forall k :: 0 <= k < |s| ==> refs[k] == s[k].AsRef()
  {
    seq(|s|, k requires 0 <= k < |s| => s[k].AsRef())
  }

  // ---- addresses of an object -----------------------------------------------------------------

  function ManagedNames(v: Vmi): set<string> {
    set k | 0 <= k < |v.interfaces| && Supported(v.interfaces[k], v.networks) :: v.interfaces[k].name
  }

  /** Status addresses of the interfaces the pool allocates for. */
  function VmiMacs(v: Vmi): set<Mac> {
    set k | 0 <= k < |v.status| && v.status[k].mac.Written? && v.status[k].name in ManagedNames(v) ::
        v.status[k].mac.mac
  }

  function PodMacs(p: Pod): set<Mac> {
    if !p.hasStatus || p.requests.None? then {}
    else set k | 0 <= k < |p.requests.value| && p.requests.value[k].Written? :: p.requests.value[k].mac
  }

  // ---- who is reported ------------------------------------------------------------------------

  function SourceUid(v: Vmi): string {
    if v.migration.Some? && v.migration.value.source.Some? then v.migration.value.source.value else ""
  }

  function TargetUid(v: Vmi): string {
    if v.migration.Some? && v.migration.value.target.Some? then v.migration.value.target.value else ""
  }

  /** y takes part in the same active migration as the reconciled VMI. */
  predicate SharesMigration(source: string, target: string, y: Vmi) {
    && y.migration.Some?
    && ((source != "" && source == SourceUid(y)) || (target != "" && target == TargetUid(y)))
  }

  /** The migration filter keeps y: at once when x has no migration of its own. */
  predicate PassesMigration(x: Vmi, y: Vmi) {
    (SourceUid(x) == "" && TargetUid(x) == "") || !SharesMigration(SourceUid(x), TargetUid(x), y)
  }

  /** The managed filter keeps namespaces known to be managed, managed ones and failing lookups. */
  predicate Admitted(known: set<string>, answer: string -> Option<bool>, ns: string) {
    ns in known || answer(ns) != Some(false)
  }

  predicate VmiSeesVmi(cl: Cluster, x: Vmi, m: Mac, y: Vmi) {
    && m in VmiMacs(y) && y.phase == RUNNING && y.uid != x.uid
    && PassesMigration(x, y) && Admitted({x.ns}, cl.vmManaged, y.ns)
  }

  predicate VmiSeesPod(cl: Cluster, m: Mac, p: Pod) {
    m in PodMacs(p) && p.phase == RUNNING && !p.launcher && Admitted({""}, cl.podManaged, p.ns)
  }

  predicate PodSeesPod(cl: Cluster, x: Pod, m: Mac, p: Pod) {
    m in PodMacs(p) && p.phase == RUNNING && p.uid != x.uid && !p.launcher && Admitted({x.ns}, cl.podManaged, p.ns)
  }

  predicate PodSeesVmi(cl: Cluster, m: Mac, y: Vmi) {
    cl.kubevirt && m in VmiMacs(y) && y.phase == RUNNING && Admitted({}, cl.vmManaged, y.ns)
  }

  function VmiColliders(cl: Cluster, x: Vmi, m: Mac): seq<Ref> {
    VmiRefs(Filter(cl.vmis, y => VmiSeesVmi(cl, x, m, y))) + PodRefs(Filter(cl.pods, p => VmiSeesPod(cl, m, p)))
  }

  function PodColliders(cl: Cluster, x: Pod, m: Mac): seq<Ref> {
    PodRefs(Filter(cl.pods, p => PodSeesPod(cl, x, m, p))) + VmiRefs(Filter(cl.vmis, y => PodSeesVmi(cl, m, y)))
  }

  function VmiReport(cl: Cluster, x: Vmi): CollisionMap {
    map m | m in VmiMacs(x) && VmiColliders(cl, x, m) != [] :: VmiColliders(cl, x, m)
  }

  function PodReport(cl: Cluster, x: Pod): CollisionMap {
    map m | m in PodMacs(x) && PodColliders(cl, x, m) != [] :: PodColliders(cl, x, m)
  }

  // ---- lists ----------------------------------------------------------------------------------

  lemma {:induction false} FilterIff<T>(s: seq<T>, p: T -> bool)
    ensures forall x :: x in Filter(s, p) <==> x in s && p(x)
  {
    if s != [] {
      FilterIff(s[1..], p);
    }
  }

  lemma VmiRefsIff(s: seq<Vmi>, r: Ref)
    ensures r in VmiRefs(s) <==> exists y :: y in s && y.AsRef() == r
  {
    if r in VmiRefs(s) {
      var k :| 0 <= k < |s| && VmiRefs(s)[k] == r;
      assert s[k] in s;
    }
    if y :| y in s && y.AsRef() == r {
      var k :| 0 <= k < |s| && s[k] == y;
      assert VmiRefs(s)[k] == r;
    }
  }

  lemma PodRefsIff(s: seq<Pod>, r: Ref)
    ensures r in PodRefs(s) <==> exists y :: y in s && y.AsRef() == r
  {
    if r in PodRefs(s) {
      var k :| 0 <= k < |s| && PodRefs(s)[k] == r;
      assert s[k] in s;
    }
    if y :| y in s && y.AsRef() == r {
      var k :| 0 <= k < |s| && s[k] == y;
      assert PodRefs(s)[k] == r;
    }
  }

  lemma VmiCollidersIff(cl: Cluster, x: Vmi, m: Mac, r: Ref)
    ensures r in VmiColliders(cl, x, m) <==>
            || (exists y :: y in cl.vmis && y.AsRef() == r && VmiSeesVmi(cl, x, m, y))
            || (exists p :: p in cl.pods && p.AsRef() == r && VmiSeesPod(cl, m, p))
  {
    FilterIff(cl.vmis, y => VmiSeesVmi(cl, x, m, y));
    FilterIff(cl.pods, p => VmiSeesPod(cl, m, p));
    VmiRefsIff(Filter(cl.vmis, y => VmiSeesVmi(cl, x, m, y)), r);
    PodRefsIff(Filter(cl.pods, p => VmiSeesPod(cl, m, p)), r);
  }

  lemma PodCollidersIff(cl: Cluster, x: Pod, m: Mac, r: Ref)
    ensures r in PodColliders(cl, x, m) <==>
            || (exists p :: p in cl.pods && p.AsRef() == r && PodSeesPod(cl, x, m, p))
            || (exists y :: y in cl.vmis && y.AsRef() == r && PodSeesVmi(cl, m, y))
  {
    FilterIff(cl.pods, p => PodSeesPod(cl, x, m, p));
    FilterIff(cl.vmis, y => PodSeesVmi(cl, m, y));
    PodRefsIff(Filter(cl.pods, p => PodSeesPod(cl, x, m, p)), r);
    VmiRefsIff(Filter(cl.vmis, y => PodSeesVmi(cl, m, y)), r);
  }

  // ---- symmetry -------------------------------------------------------------------------------

  /** A snapshot as the API server gives it: names and UIDs identify objects of a kind, namespaces
      are proper names, and the managed answers do not fail. */
  ghost predicate Sound(cl: Cluster) {
    && (forall x, y :: x in cl.vmis && y in cl.vmis && (x.uid == y.uid || x.AsRef() == y.AsRef()) ==> x == y)
    && (forall x, y :: x in cl.pods && y in cl.pods && (x.uid == y.uid || x.AsRef() == y.AsRef()) ==> x == y)
    && Distinct(cl.vmis) && Distinct(cl.pods)
    && (forall x :: x in cl.vmis ==> x.ns != "" && '/' !in x.ns && cl.vmManaged(x.ns).Some?)
    && (forall x :: x in cl.pods ==> x.ns != "" && '/' !in x.ns && cl.podManaged(x.ns).Some?)
  }

  /** A VMI that takes part in collision detection. */
  predicate LiveVmi(cl: Cluster, x: Vmi) {
    x in cl.vmis && x.phase == RUNNING && cl.vmManaged(x.ns) == Some(true)
  }

  predicate LivePod(cl: Cluster, p: Pod) {
    p in cl.pods && p.phase == RUNNING && !p.launcher && cl.podManaged(p.ns) == Some(true)
  }

  /** An object of either kind that is running, managed and tracked for itself. */
  datatype Object = OfVmi(vmi: Vmi) | OfPod(pod: Pod) {
    predicate Live(cl: Cluster) {
      match this
      case OfVmi(x) => LiveVmi(cl, x)
      case OfPod(p) => LivePod(cl, p)
    }

    function AsRef(): Ref {
      match this
      case OfVmi(x) => x.AsRef()
      case OfPod(p) => p.AsRef()
    }

    function Macs(): set<Mac> {
      match this
      case OfVmi(x) => VmiMacs(x)
      case OfPod(p) => PodMacs(p)
    }

    function Report(cl: Cluster): CollisionMap {
      match this
      case OfVmi(x) => VmiReport(cl, x)
      case OfPod(p) => PodReport(cl, p)
    }
  }

  /** x reports y for address m. */
  predicate Reports(cl: Cluster, x: Object, y: Object, m: Mac) {
    m in x.Report(cl) && y.AsRef() in x.Report(cl)[m]
  }

  /** x and y are kept apart by no migration (only VMIs migrate). */
  predicate Apart(x: Object, y: Object) {
    x.OfVmi? && y.OfVmi? ==> PassesMigration(x.vmi, y.vmi)
  }

  lemma MigrationSymmetric(x: Vmi, y: Vmi)
    ensures PassesMigration(x, y) == PassesMigration(y, x)
  {
  }

  /** One live object reports another exactly when both have the address, they are different
      objects and no shared migration excuses them: a condition symmetric in the two. */
  lemma ReportsIff(cl: Cluster, x: Object, y: Object, m: Mac)
    requires Sound(cl) && (cl.kubevirt || cl.vmis == []) && x.Live(cl) && y.Live(cl)
    ensures Reports(cl, x, y, m) <==> m in x.Macs() && m in y.Macs() && x.AsRef() != y.AsRef() && Apart(x, y)
  {
    match x
    case OfVmi(v) =>
      VmiCollidersIff(cl, v, m, y.AsRef());
      assert m in VmiMacs(v) && y.AsRef() in VmiColliders(cl, v, m) ==> VmiColliders(cl, v, m) != [];
    case OfPod(p) =>
      PodCollidersIff(cl, p, m, y.AsRef());
      assert m in PodMacs(p) && y.AsRef() in PodColliders(cl, p, m) ==> PodColliders(cl, p, m) != [];
  }

  /** Collision reports are symmetric. */
  lemma ReportsSymmetric(cl: Cluster, x: Object, y: Object, m: Mac)
    requires Sound(cl) && (cl.kubevirt || cl.vmis == []) && x.Live(cl) && y.Live(cl)
    ensures Reports(cl, x, y, m) <==> Reports(cl, y, x, m)
  {
    ReportsIff(cl, x, y, m);
    ReportsIff(cl, y, x, m);
    if x.OfVmi? && y.OfVmi? {
      MigrationSymmetric(x.vmi, y.vmi);
    }
  }
}
