/** What the collision controllers report and what a reconcile leaves in the shared map, told on the
    fields of VMIs and pods alone (pkg/controller/maccollision, pkg/pool-manager/vmi_collision.go). */
module ReportLaws {
  import opened Addresses
  import opened MacMaps
  import opened VmOperations
  import opened Collisions
  import opened Detection
  import opened Convergence
  import opened AdmissionLaws

  // ---- addresses ------------------------------------------------------------------------------

  /** The VMI's status shows m on an interface that gets its addresses from the pool. */
  ghost predicate VmiHas(v: Vmi, m: Mac) {
    exists k, j :: 0 <= k < |v.status| && v.status[k].mac.Written? && v.status[k].mac.mac == m
                   && 0 <= j < |v.interfaces| && v.interfaces[j].name == v.status[k].name
                   && Allocates(v.interfaces[j], v.networks)
  }

  lemma VmiMacsIff(v: Vmi, m: Mac)
    ensures m in VmiMacs(v) <==> VmiHas(v, m)
  {
    forall j | 0 <= j < |v.interfaces|
      ensures Allocates(v.interfaces[j], v.networks) <==> Supported(v.interfaces[j], v.networks)
    {
      AllocatesIff(v.interfaces[j], v.networks);
    }
    if m in VmiMacs(v) {
      var k :| 0 <= k < |v.status| && v.status[k].mac.Written? && v.status[k].name in ManagedNames(v)
               && v.status[k].mac.mac == m;
      var j :| 0 <= j < |v.interfaces| && Supported(v.interfaces[j], v.networks)
               && v.interfaces[j].name == v.status[k].name;
    }
    if k, j :| 0 <= k < |v.status| && v.status[k].mac.Written? && v.status[k].mac.mac == m
               && 0 <= j < |v.interfaces| && v.interfaces[j].name == v.status[k].name
               && Allocates(v.interfaces[j], v.networks) {
      assert v.status[k].name in ManagedNames(v);
    }
  }

  /** The pod is set up and its network annotation, which parses, asks for m. */
  ghost predicate PodHas(p: Pod, m: Mac) {
    p.hasStatus && p.requests.Some?
    && exists k :: 0 <= k < |p.requests.value| && p.requests.value[k].Written? && p.requests.value[k].mac == m
  }

  lemma PodMacsIff(p: Pod, m: Mac)
    ensures m in PodMacs(p) <==> PodHas(p, m)
  {
  }

  // ---- migrations -----------------------------------------------------------------------------

  ghost predicate MigratesFrom(v: Vmi, uid: string) {
    v.migration.Some? && v.migration.value.source == Some(uid)
  }

  ghost predicate MigratesTo(v: Vmi, uid: string) {
    v.migration.Some? && v.migration.value.target == Some(uid)
  }

  /** One proper migration UID is the source of both or the target of both. */
  ghost predicate MigrateTogether(x: Vmi, y: Vmi) {
    || (exists uid :: uid != "" && MigratesFrom(x, uid) && MigratesFrom(y, uid))
    || (exists uid :: uid != "" && MigratesTo(x, uid) && MigratesTo(y, uid))
  }

  lemma PassesIff(x: Vmi, y: Vmi)
    ensures PassesMigration(x, y) <==> !MigrateTogether(x, y)
  {
    if !PassesMigration(x, y) {
      if SourceUid(x) != "" && SourceUid(x) == SourceUid(y) {
        assert MigratesFrom(x, SourceUid(x)) && MigratesFrom(y, SourceUid(x));
      } else {
        assert MigratesTo(x, TargetUid(x)) && MigratesTo(y, TargetUid(x));
      }
    }
  }

  // ---- reports --------------------------------------------------------------------------------

  /** A VMI reports, at each of its addresses, the running VMIs of another UID that have the address,
      do not migrate together with it and are not known to be unmanaged, its own namespace passing
      unasked; and the running pods other than virt-launcher's that have it, on the same proviso. */
  lemma VmiReportLaw(cl: Cluster, x: Vmi, m: Mac, r: Ref)
    ensures m in VmiReport(cl, x) && r in VmiReport(cl, x)[m] <==>
            VmiHas(x, m) &&
            ((exists y :: y in cl.vmis && y.AsRef() == r && VmiHas(y, m) && y.phase == "Running" && y.uid != x.uid
                          && !MigrateTogether(x, y) && (y.ns == x.ns || cl.vmManaged(y.ns) != Some(false)))
             || (exists p :: p in cl.pods && p.AsRef() == r && PodHas(p, m) && p.phase == "Running" && !p.launcher
                             && (p.ns == "" || cl.podManaged(p.ns) != Some(false))))
  {
    VmiCollidersIff(cl, x, m, r);
    VmiMacsIff(x, m);
    forall y ensures VmiSeesVmi(cl, x, m, y) <==>
        VmiHas(y, m) && y.phase == "Running" && y.uid != x.uid && !MigrateTogether(x, y)
        && (y.ns == x.ns || cl.vmManaged(y.ns) != Some(false)) {
      VmiMacsIff(y, m);
      PassesIff(x, y);
    }
    forall p ensures VmiSeesPod(cl, m, p) <==>
        PodHas(p, m) && p.phase == "Running" && !p.launcher && (p.ns == "" || cl.podManaged(p.ns) != Some(false)) {
      PodMacsIff(p, m);
    }
  }

  /** A pod reports the running pods of another UID other than virt-launcher's that have the address
      and, where KubeVirt is in the cluster, the running VMIs that have it. */
  lemma PodReportLaw(cl: Cluster, x: Pod, m: Mac, r: Ref)
    ensures m in PodReport(cl, x) && r in PodReport(cl, x)[m] <==>
            PodHas(x, m) &&
            ((exists p :: p in cl.pods && p.AsRef() == r && PodHas(p, m) && p.phase == "Running" && p.uid != x.uid
                          && !p.launcher && (p.ns == x.ns || cl.podManaged(p.ns) != Some(false)))
             || (exists y :: y in cl.vmis && y.AsRef() == r && cl.kubevirt && VmiHas(y, m) && y.phase == "Running"
                             && cl.vmManaged(y.ns) != Some(false)))
  {
    PodCollidersIff(cl, x, m, r);
    PodMacsIff(x, m);
    forall p ensures PodSeesPod(cl, x, m, p) <==>
        PodHas(p, m) && p.phase == "Running" && p.uid != x.uid && !p.launcher
        && (p.ns == x.ns || cl.podManaged(p.ns) != Some(false)) {
      PodMacsIff(p, m);
    }
    forall y ensures PodSeesVmi(cl, m, y) <==>
        cl.kubevirt && VmiHas(y, m) && y.phase == "Running" && cl.vmManaged(y.ns) != Some(false) {
      VmiMacsIff(y, m);
    }
  }

  /** The VMI is in the cluster, running and in a managed namespace. */
  ghost predicate Runs(cl: Cluster, v: Vmi) {
    v in cl.vmis && v.phase == "Running" && cl.vmManaged(v.ns) == Some(true)
  }

  /** One running managed VMI reports another at an address exactly when both have it and no proper
      migration UID is the source of both or the target of both. */
  lemma VmisReportEachOther(cl: Cluster, x: Vmi, y: Vmi, m: Mac)
    requires Sound(cl) && cl.kubevirt && Runs(cl, x) && Runs(cl, y) && x != y
    ensures m in VmiReport(cl, x) && y.AsRef() in VmiReport(cl, x)[m] <==>
            VmiHas(x, m) && VmiHas(y, m)
            && !exists uid :: uid != "" && ((MigratesFrom(x, uid) && MigratesFrom(y, uid))
                                            || (MigratesTo(x, uid) && MigratesTo(y, uid)))
  {
    VmiReportLaw(cl, x, m, y.AsRef());
    assert MigrateTogether(x, y) <==>
           exists uid :: uid != "" && ((MigratesFrom(x, uid) && MigratesFrom(y, uid))
                                       || (MigratesTo(x, uid) && MigratesTo(y, uid)));
  }

  /** A VMI lists VMIs before pods, a pod pods before VMIs. */
  lemma ReportOrder(cl: Cluster, x: Object, m: Mac, a: nat, b: nat)
    requires m in x.Report(cl) && a < b < |x.Report(cl)[m]|
    ensures x.OfVmi? && x.Report(cl)[m][b].kind.VmiKind? ==> x.Report(cl)[m][a].kind.VmiKind?
    ensures x.OfPod? && x.Report(cl)[m][b].kind.PodKind? ==> x.Report(cl)[m][a].kind.PodKind?
  {
  }

  /** The event filter drops exactly the updates that keep the phase, the addresses and the proper
      migration UIDs. */
  lemma DroppedIff(before: Vmi, after: Vmi)
    ensures !Relevant(before, after) <==>
            before.phase == after.phase
            && (forall m :: VmiHas(before, m) <==> VmiHas(after, m))
            && (forall uid :: uid != "" ==> (MigratesFrom(before, uid) <==> MigratesFrom(after, uid))
                                            && (MigratesTo(before, uid) <==> MigratesTo(after, uid)))
  {
    SourcesIff(before, after);
    TargetsIff(before, after);
    forall m ensures (m in VmiMacs(before) <==> VmiHas(before, m)) && (m in VmiMacs(after) <==> VmiHas(after, m)) {
      VmiMacsIff(before, m);
      VmiMacsIff(after, m);
    }
    if forall m :: VmiHas(before, m) <==> VmiHas(after, m) {
      assert VmiMacs(before) == VmiMacs(after);
    } else {
      var m :| !(VmiHas(before, m) <==> VmiHas(after, m));
      assert !(m in VmiMacs(before) <==> m in VmiMacs(after));
    }
  }

  lemma SourcesIff(before: Vmi, after: Vmi)
    ensures SourceUid(before) == SourceUid(after) <==>
            forall uid :: uid != "" ==> (MigratesFrom(before, uid) <==> MigratesFrom(after, uid))
  {
    var uid := if SourceUid(before) != "" then SourceUid(before) else SourceUid(after);
    assert uid != "" ==> (MigratesFrom(before, uid) <==> SourceUid(before) == uid);
    assert uid != "" ==> (MigratesFrom(after, uid) <==> SourceUid(after) == uid);
  }

  lemma TargetsIff(before: Vmi, after: Vmi)
    ensures TargetUid(before) == TargetUid(after) <==>
            forall uid :: uid != "" ==> (MigratesTo(before, uid) <==> MigratesTo(after, uid))
  {
    var uid := if TargetUid(before) != "" then TargetUid(before) else TargetUid(after);
    assert uid != "" ==> (MigratesTo(before, uid) <==> TargetUid(before) == uid);
    assert uid != "" ==> (MigratesTo(after, uid) <==> TargetUid(after) == uid);
  }

  // ---- the shared map -------------------------------------------------------------------------

  lemma TwoOfDistinct(s: seq<Ref>)
    requires Distinct(s)
    ensures |s| > 1 <==> exists a, b :: a in s && b in s && a != b
  {
    if |s| > 1 {
      assert s[0] in s && s[1] in s && s[0] != s[1];
    }
  }

  /** After a push, a reported address lists the object in front of what it reports; at any other
      address the object is gone, the others stay, and the list with them if two are left. */
  lemma PushLaw(C: CollisionMap, ref: Ref, report: CollisionMap, m: Mac)
    requires '/' !in ref.ns && (m in C ==> Distinct(C[m]) && Slashless(C[m]))
    ensures var R := UpdateMap(C, ref, report);
            if m in report then m in R && R[m] == [ref] + report[m]
            else
              && (m in R <==> m in C && exists a, b :: a in C[m] && b in C[m] && a != b && a != ref && b != ref)
              && (m in R ==> forall r :: r in R[m] <==> r in C[m] && r != ref)
  {
    if m in C && m !in report {
      var rest := Without(C[m], ref.Key());
      WithoutIff(C[m], ref.Key());
      TwoOfDistinct(rest);
      forall r ensures r in rest <==> r in C[m] && r != ref {
        if r in C[m] && r.Key() == ref.Key() {
          var k :| 0 <= k < |C[m]| && C[m][k] == r;
          KeyInjective(r, ref);
        }
      }
    }
  }

  /** Every object of that name is one whose collisions are forgotten: a managed VMI that is not
      running or has no addresses, a managed pod that is not running. None need be there. */
  ghost predicate Forgotten(cl: Cluster, r: Ref) {
    if r.kind.VmiKind? then
      forall y :: y in cl.vmis && y.AsRef() == r ==>
        cl.vmManaged(y.ns) == Some(true) && (y.phase != "Running" || forall m :: !VmiHas(y, m))
    else
      forall p :: p in cl.pods && p.AsRef() == r ==>
        !p.launcher && cl.podManaged(p.ns) == Some(true) && p.phase != "Running"
  }

  lemma ForgottenPushesNothing(cl: Cluster, r: Ref)
    requires Forgotten(cl, r)
    ensures Pushed(cl, r) == Some(map[])
  {
    if r.kind.VmiKind? {
      var x := FindVmi(cl.vmis, r);
      if x.Some? && VmiMacs(x.value) != {} {
        var m :| m in VmiMacs(x.value);
        VmiMacsIff(x.value, m);
      }
    }
  }

  /** After a reconcile of a deleted object, of a VMI that is not running or has no addresses, or of
      a pod that is not running, no list mentions it, and every list keeps its other objects. */
  lemma ReconcileForgets(cl: Cluster, C: CollisionMap, r: Ref, m: Mac)
    requires Forgotten(cl, r) && '/' !in r.ns && (m in C ==> Distinct(C[m]) && Slashless(C[m]))
    ensures var R := Reconcile(cl, C, r);
            && (m in R ==> r !in R[m])
            && (m in R <==> m in C && exists a, b :: a in C[m] && b in C[m] && a != b && a != r && b != r)
            && (m in R ==> forall s :: s in R[m] <==> s in C[m] && s != r)
  {
    ForgottenPushesNothing(cl, r);
    PushLaw(C, r, map[], m);
  }

  /** A reconcile of an object whose namespace is not managed or of unknown management, of a
      virt-launcher pod, or of a running pod without addresses leaves the map as it is. */
  lemma ReconcileLeaves(cl: Cluster, C: CollisionMap, x: Object)
    requires Sound(cl)
    requires match x
             case OfVmi(v) => v in cl.vmis && cl.vmManaged(v.ns) != Some(true)
             case OfPod(p) => p in cl.pods && (p.launcher || cl.podManaged(p.ns) != Some(true)
                                               || (p.phase == "Running" && forall m :: !PodHas(p, m)))
    ensures Reconcile(cl, C, x.AsRef()) == C
  {
    match x
    case OfVmi(v) =>
      assert FindVmi(cl.vmis, v.AsRef()) == Some(v);
    case OfPod(p) =>
      assert FindPod(cl.pods, p.AsRef()) == Some(p);
      if PodMacs(p) != {} {
        var m :| m in PodMacs(p);
        PodMacsIff(p, m);
      }
  }

  /** A reconcile of a running managed object that has an address puts it in front of what it reports
      at each reported address and takes it out of every other list. */
  lemma ReconcileLists(cl: Cluster, C: CollisionMap, x: Object, m: Mac, a: Mac)
    requires Sound(cl)
    requires match x
             case OfVmi(v) => Runs(cl, v) && VmiHas(v, a)
             case OfPod(p) => p in cl.pods && !p.launcher && p.phase == "Running"
                              && cl.podManaged(p.ns) == Some(true) && PodHas(p, a)
    requires m in C ==> Distinct(C[m]) && Slashless(C[m])
    ensures var R, r := Reconcile(cl, C, x.AsRef()), x.AsRef();
            if m in x.Report(cl) then m in R && R[m] == [r] + x.Report(cl)[m]
            else
              && (m in R <==> m in C && exists s, t :: s in C[m] && t in C[m] && s != t && s != r && t != r)
              && (m in R ==> forall s :: s in R[m] <==> s in C[m] && s != r)
  {
    match x {
      case OfVmi(v) => VmiMacsIff(v, a);
      case OfPod(p) => PodMacsIff(p, a);
    }
    LivePushes(cl, x, a);
    PushLaw(C, x.AsRef(), x.Report(cl), m);
  }
}
