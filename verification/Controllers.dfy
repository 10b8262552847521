/** The collision controllers as they run: loops over query results that fill a report and push it
    into the shared index (pkg/controller/maccollision). */
module Controllers {
  import opened Addresses
  import opened MacMaps
  import opened VmOperations
  import opened PoolManagement
  import opened Collisions
  import opened Detection
  import opened Convergence
  import opened ReportLaws

  // ---- addresses of an object -----------------------------------------------------------------

  method ManagedInterfaces(v: Vmi) returns (names: set<string>)
    ensures names == ManagedNames(v)
  {
    var byName := NetworksByName(v.networks);
    names := {};
    for i := 0 to |v.interfaces|
      invariant names == set k | 0 <= k < i && Supported(v.interfaces[k], v.networks) :: v.interfaces[k].name
    {
      var ifc := v.interfaces[i];
      if ifc.masquerade || (ifc.name in byName && byName[ifc.name].multus) {
        names := names + {ifc.name};
      }
    }
  }

  method SupportedMACsFromVMI(v: Vmi) returns (macs: seq<Mac>)
    ensures forall m :: m in macs <==> m in VmiMacs(v)
  {
    var names := ManagedInterfaces(v);
    macs := [];
    for i := 0 to |v.status|
      invariant forall m :: m in macs <==>
                  exists k :: 0 <= k < i && v.status[k].mac.Written? && v.status[k].name in names
                      && v.status[k].mac.mac == m
    {
      if v.status[i].name in names && v.status[i].mac.Written? {
        macs := macs + [v.status[i].mac.mac];
      }
    }
  }

  method IndexPodByMAC(p: Pod) returns (macs: seq<Mac>)
    ensures forall m :: m in macs <==> m in PodMacs(p)
    ensures Distinct(macs)
  {
    macs := [];
    if !p.hasStatus || p.requests.None? {
      return;
    }
    var requests := p.requests.value;
    var seen: set<Mac> := {};
    for i := 0 to |requests|
      invariant forall m :: m in macs <==> m in seen
      invariant forall m :: m in seen <==> exists k :: 0 <= k < i && requests[k].Written? && requests[k].mac == m
      invariant Distinct(macs)
    {
      if requests[i].Written? && requests[i].mac !in seen {
        seen := seen + {requests[i].mac};
        macs := macs + [requests[i].mac];
      }
    }
  }

  // ---- filters --------------------------------------------------------------------------------

  lemma {:induction false} FilterSnoc<T>(s: seq<T>, x: T, p: T -> bool)
    ensures Filter(s + [x], p) == Filter(s, p) + if p(x) then [x] else []
  {
    if s == [] {
      assert s + [x] == [x];
      assert [x][1..] == [];
    } else {
      FilterSnoc(s[1..], x, p);
      assert (s + [x])[1..] == s[1..] + [x];
      var h, t := if p(s[0]) then [s[0]] else [], if p(x) then [x] else [];
      assert Filter(s + [x], p) == h + (Filter(s[1..], p) + t);
    }
  }

  lemma FilterNext<T>(s: seq<T>, i: nat, p: T -> bool)
    requires i < |s|
    ensures Filter(s[..i + 1], p) == Filter(s[..i], p) + if p(s[i]) then [s[i]] else []
    ensures i + 1 == |s| ==> s[..i + 1] == s
  {
    assert s[..i + 1] == s[..i] + [s[i]];
    FilterSnoc(s[..i], s[i], p);
  }

  lemma {:induction false} FilterTwice<T>(s: seq<T>, p: T -> bool, q: T -> bool, both: T -> bool)
    requires forall k :: 0 <= k < |s| ==> (both(s[k]) <==> p(s[k]) && q(s[k]))
    ensures Filter(Filter(s, p), q) == Filter(s, both)
  {
    if s != [] {
      FilterTwice(s[1..], p, q, both);
      var rest := Filter(s[1..], p);
      if p(s[0]) {
        assert ([s[0]] + rest)[1..] == rest;
      } else {
        assert [] + rest == rest;
      }
    }
  }

  /** The client's answer to an index query. */
  function VmisByMAC(cl: Cluster, m: Mac): seq<Vmi> {
    Filter(cl.vmis, (y: Vmi) => m in VmiMacs(y))
  }

  function PodsByMAC(cl: Cluster, m: Mac): seq<Pod> {
    Filter(cl.pods, (p: Pod) => m in PodMacs(p))
  }

  method ListRunningVMIsByMAC(cl: Cluster, m: Mac) returns (running: seq<Vmi>)
    ensures running == Filter(cl.vmis, (y: Vmi) => m in VmiMacs(y) && y.phase == RUNNING)
  {
    var list := VmisByMAC(cl, m);
    running := [];
    for i := 0 to |list|
      invariant running == Filter(list[..i], (y: Vmi) => y.phase == RUNNING)
    {
      FilterNext(list, i, (y: Vmi) => y.phase == RUNNING);
      if list[i].phase == RUNNING {
        running := running + [list[i]];
      }
    }
    assert list[..|list|] == list;
    FilterTwice(cl.vmis, (y: Vmi) => m in VmiMacs(y), (y: Vmi) => y.phase == RUNNING,
                (y: Vmi) => m in VmiMacs(y) && y.phase == RUNNING);
  }

  method ListRunningVMIsByMACWithExcludeUID(cl: Cluster, m: Mac, uid: string) returns (running: seq<Vmi>)
    ensures running == Filter(cl.vmis, (y: Vmi) => m in VmiMacs(y) && y.phase == RUNNING && y.uid != uid)
  {
    var list := VmisByMAC(cl, m);
    running := [];
    for i := 0 to |list|
      invariant running == Filter(list[..i], (y: Vmi) => y.phase == RUNNING && y.uid != uid)
    {
      FilterNext(list, i, (y: Vmi) => y.phase == RUNNING && y.uid != uid);
      if list[i].phase == RUNNING && list[i].uid != uid {
        running := running + [list[i]];
      }
    }
    assert list[..|list|] == list;
    FilterTwice(cl.vmis, (y: Vmi) => m in VmiMacs(y), (y: Vmi) => y.phase == RUNNING && y.uid != uid,
                (y: Vmi) => m in VmiMacs(y) && y.phase == RUNNING && y.uid != uid);
  }

  /** What is dropped has a proper migration UID that is the source of both or the target of both. */
  method FilterOutDecentralizedMigrations(x: Vmi, duplicates: seq<Vmi>) returns (actual: seq<Vmi>)
    ensures actual == Filter(duplicates, (y: Vmi) => !MigrateTogether(x, y))
  {
    var source, target := SourceUid(x), TargetUid(x);
    if source == "" && target == "" {
      FilterAll(duplicates, (y: Vmi) => !MigrateTogether(x, y));
      return duplicates;
    }
    actual := [];
    for i := 0 to |duplicates|
      invariant actual == Filter(duplicates[..i], (y: Vmi) => !MigrateTogether(x, y))
    {
      FilterNext(duplicates, i, (y: Vmi) => !MigrateTogether(x, y));
      PassesIff(x, duplicates[i]);
      if !SharesMigration(source, target, duplicates[i]) {
        actual := actual + [duplicates[i]];
      }
    }
    assert duplicates[..|duplicates|] == duplicates;
  }

  /** The cache of namespaces grows on the way, but the outcome is that of asking every time. */
  method FilterManagedVMIs(cl: Cluster, candidates: seq<Vmi>, known: set<string>) returns (kept: seq<Vmi>)
    ensures kept == Filter(candidates, (y: Vmi) => y.ns in known || cl.vmManaged(y.ns) != Some(false))
  {
    var cache := known;
    kept := [];
    for i := 0 to |candidates|
      invariant known <= cache && forall ns :: ns in cache ==> ns in known || cl.vmManaged(ns) != Some(false)
      invariant kept == Filter(candidates[..i], (y: Vmi) => y.ns in known || cl.vmManaged(y.ns) != Some(false))
    {
      FilterNext(candidates, i, (y: Vmi) => y.ns in known || cl.vmManaged(y.ns) != Some(false));
      var ns := candidates[i].ns;
      if ns in cache {
        kept := kept + [candidates[i]];
      } else if cl.vmManaged(ns) != Some(false) {
        kept := kept + [candidates[i]];
        cache := cache + {ns};
      }
    }
    assert candidates[..|candidates|] == candidates;
  }

  method ListRunningPodsWithMAC(cl: Cluster, m: Mac) returns (running: seq<Pod>)
    ensures running == Filter(cl.pods, (p: Pod) => m in PodMacs(p) && p.phase == RUNNING)
  {
    var list := PodsByMAC(cl, m);
    running := [];
    for i := 0 to |list|
      invariant running == Filter(list[..i], (p: Pod) => p.phase == RUNNING)
    {
      FilterNext(list, i, (p: Pod) => p.phase == RUNNING);
      if list[i].phase == RUNNING {
        running := running + [list[i]];
      }
    }
    assert list[..|list|] == list;
    FilterTwice(cl.pods, (p: Pod) => m in PodMacs(p), (p: Pod) => p.phase == RUNNING,
                (p: Pod) => m in PodMacs(p) && p.phase == RUNNING);
  }

  method ExcludePodUID(pods: seq<Pod>, uid: string) returns (kept: seq<Pod>)
    ensures kept == Filter(pods, (p: Pod) => p.uid != uid)
  {
    kept := [];
    for i := 0 to |pods|
      invariant kept == Filter(pods[..i], (p: Pod) => p.uid != uid)
    {
      FilterNext(pods, i, (p: Pod) => p.uid != uid);
      if pods[i].uid != uid {
        kept := kept + [pods[i]];
      }
    }
    assert pods[..|pods|] == pods;
  }

  method FilterCollisionCandidatePods(cl: Cluster, pods: seq<Pod>, reconciledNs: string) returns (kept: seq<Pod>)
    ensures kept == Filter(pods, (p: Pod) =>
                             !p.launcher && (p.ns == reconciledNs || cl.podManaged(p.ns) != Some(false)))
  {
    var cache := {reconciledNs};
    kept := [];
    for i := 0 to |pods|
      invariant reconciledNs in cache
      invariant forall ns :: ns in cache ==> ns == reconciledNs || cl.podManaged(ns) != Some(false)
      invariant kept == Filter(pods[..i], (p: Pod) =>
                                 !p.launcher && (p.ns == reconciledNs || cl.podManaged(p.ns) != Some(false)))
    {
      FilterNext(pods, i, (p: Pod) => !p.launcher && (p.ns == reconciledNs || cl.podManaged(p.ns) != Some(false)));
      var ns := pods[i].ns;
      if !pods[i].launcher {
        if ns in cache {
          kept := kept + [pods[i]];
        } else if cl.podManaged(ns) != Some(false) {
          kept := kept + [pods[i]];
          cache := cache + {ns};
        }
      }
    }
    assert pods[..|pods|] == pods;
  }

  // ---- colliders of one address ---------------------------------------------------------------

  method VmiCollidersOf(cl: Cluster, x: Vmi, m: Mac) returns (found: seq<Vmi>)
    ensures found == Filter(cl.vmis, (y: Vmi) => VmiSeesVmi(cl, x, m, y))
  {
    var running := ListRunningVMIsByMACWithExcludeUID(cl, m, x.uid);
    var actual := FilterOutDecentralizedMigrations(x, running);
    FilterTwice(cl.vmis, (y: Vmi) => m in VmiMacs(y) && y.phase == RUNNING && y.uid != x.uid,
                (y: Vmi) => !MigrateTogether(x, y),
                (y: Vmi) => m in VmiMacs(y) && y.phase == RUNNING && y.uid != x.uid && !MigrateTogether(x, y));
    var own := {x.ns};
    found := FilterManagedVMIs(cl, actual, own);
    forall y ensures PassesMigration(x, y) <==> !MigrateTogether(x, y) {
      PassesIff(x, y);
    }
    FilterTwice(cl.vmis, (y: Vmi) => m in VmiMacs(y) && y.phase == RUNNING && y.uid != x.uid && !MigrateTogether(x, y),
                (y: Vmi) => y.ns in own || cl.vmManaged(y.ns) != Some(false), (y: Vmi) => VmiSeesVmi(cl, x, m, y));
  }

  method PodsSeenByVmi(cl: Cluster, m: Mac) returns (found: seq<Pod>)
    ensures found == Filter(cl.pods, (p: Pod) => VmiSeesPod(cl, m, p))
  {
    var running := ListRunningPodsWithMAC(cl, m);
    found := FilterCollisionCandidatePods(cl, running, "");
    FilterTwice(cl.pods, (p: Pod) => m in PodMacs(p) && p.phase == RUNNING,
                (p: Pod) => !p.launcher && (p.ns == "" || cl.podManaged(p.ns) != Some(false)),
                (p: Pod) => VmiSeesPod(cl, m, p));
  }

  method PodCollidersOf(cl: Cluster, x: Pod, m: Mac) returns (found: seq<Pod>)
    ensures found == Filter(cl.pods, (p: Pod) => PodSeesPod(cl, x, m, p))
  {
    var running := ListRunningPodsWithMAC(cl, m);
    var others := ExcludePodUID(running, x.uid);
    FilterTwice(cl.pods, (p: Pod) => m in PodMacs(p) && p.phase == RUNNING, (p: Pod) => p.uid != x.uid,
                (p: Pod) => m in PodMacs(p) && p.phase == RUNNING && p.uid != x.uid);
    found := FilterCollisionCandidatePods(cl, others, x.ns);
    FilterTwice(cl.pods, (p: Pod) => m in PodMacs(p) && p.phase == RUNNING && p.uid != x.uid,
                (p: Pod) => !p.launcher && (p.ns == x.ns || cl.podManaged(p.ns) != Some(false)),
                (p: Pod) => PodSeesPod(cl, x, m, p));
  }

  method VmisSeenByPod(cl: Cluster, m: Mac) returns (found: seq<Vmi>)
    requires cl.kubevirt
    ensures found == Filter(cl.vmis, (y: Vmi) => PodSeesVmi(cl, m, y))
  {
    var running := ListRunningVMIsByMAC(cl, m);
    var none: set<string> := {};
    found := FilterManagedVMIs(cl, running, none);
    FilterTwice(cl.vmis, (y: Vmi) => m in VmiMacs(y) && y.phase == RUNNING,
                (y: Vmi) => y.ns in none || cl.vmManaged(y.ns) != Some(false),
                (y: Vmi) => PodSeesVmi(cl, m, y));
  }

  method AppendVmiRefs(vmis: seq<Vmi>, start: seq<Ref>) returns (refs: seq<Ref>)
    ensures refs == start + VmiRefs(vmis)
  {
    refs := start;
    for i := 0 to |vmis|
      invariant refs == start + VmiRefs(vmis)[..i]
    {
      refs := refs + [vmis[i].AsRef()];
    }
  }

  method AppendPodRefs(pods: seq<Pod>, start: seq<Ref>) returns (refs: seq<Ref>)
    ensures refs == start + PodRefs(pods)
  {
    refs := start;
    for i := 0 to |pods|
      invariant refs == start + PodRefs(pods)[..i]
    {
      refs := refs + [pods[i].AsRef()];
    }
  }

  method VmiRefsAt(cl: Cluster, x: Vmi, m: Mac) returns (refs: seq<Ref>)
    ensures refs == VmiColliders(cl, x, m)
  {
    var vmis := VmiCollidersOf(cl, x, m);
    refs := AppendVmiRefs(vmis, []);
    var pods := PodsSeenByVmi(cl, m);
    refs := AppendPodRefs(pods, refs);
  }

  method PodRefsAt(cl: Cluster, x: Pod, m: Mac) returns (refs: seq<Ref>)
    ensures refs == PodColliders(cl, x, m)
  {
    var pods := PodCollidersOf(cl, x, m);
    refs := AppendPodRefs(pods, []);
    if cl.kubevirt {
      var vmis := VmisSeenByPod(cl, m);
      refs := AppendVmiRefs(vmis, refs);
    } else {
      NoVmisSeen(cl, m);
    }
  }

  lemma NoVmisSeen(cl: Cluster, m: Mac)
    requires !cl.kubevirt
    ensures VmiRefs(Filter(cl.vmis, y => PodSeesVmi(cl, m, y))) == []
  {
    NothingPasses(cl.vmis, y => PodSeesVmi(cl, m, y));
  }

  lemma NothingPasses<T(!new)>(s: seq<T>, p: T -> bool)
    requires forall x :: x in s ==> !p(x)
    ensures Filter(s, p) == []
  {
    FilterIff(s, p);
    if Filter(s, p) != [] {
      assert Filter(s, p)[0] in Filter(s, p);
    }
  }

  // ---- reconcile ------------------------------------------------------------------------------

  /** The report, filled address by address. */
  method CollectVmi(cl: Cluster, x: Vmi, macs: set<Mac>) returns (report: CollisionMap)
    requires macs == VmiMacs(x)
    ensures report == VmiReport(cl, x)
  {
    report := map[];
    var left := macs;
    while left != {}
      invariant left <= macs
      invariant forall m :: m in report <==> m in macs && m !in left && VmiColliders(cl, x, m) != []
      invariant forall m :: m in report ==> report[m] == VmiColliders(cl, x, m)
      decreases |left|
    {
      var m :| m in left;
      var refs := VmiRefsAt(cl, x, m);
      left := left - {m};
      if |refs| > 0 {
        report := report[m := refs];
      }
    }
  }

  method CheckVmi(cl: Cluster, index: CollisionIndex, x: Vmi)
    requires FindVmi(cl.vmis, x.AsRef()) == Some(x) && cl.vmManaged(x.ns) == Some(true)
    modifies index
    ensures index.colliding == Reconcile(cl, old(index.colliding), x.AsRef())
    ensures index.gauge == GaugeAfter(cl, x.AsRef(), old(index.colliding), old(index.gauge))
  {
    if x.phase != RUNNING {
      index.UpdateCollisionsMap(x.AsRef(), map[]);
      return;
    }
    var list := SupportedMACsFromVMI(x);
    var macs := set m | m in list;
    assert macs == VmiMacs(x);
    if macs == {} {
      index.UpdateCollisionsMap(x.AsRef(), map[]);
      return;
    }
    var report := CollectVmi(cl, x, macs);
    index.UpdateCollisionsMap(x.AsRef(), report);
  }

  method ReconcileVmi(cl: Cluster, index: CollisionIndex, ns: string, name: string) returns (ok: bool)
    modifies index
    ensures index.colliding == Reconcile(cl, old(index.colliding), Ref(VmiKind, ns, name))
    ensures index.gauge == GaugeAfter(cl, Ref(VmiKind, ns, name), old(index.colliding), old(index.gauge))
    ensures Sound(cl) && old(Agrees(index.colliding, index.gauge)) ==> Agrees(index.colliding, index.gauge)
    ensures !ok ==> index.colliding == old(index.colliding) && index.gauge == old(index.gauge)
    ensures ok <==> FindVmi(cl.vmis, Ref(VmiKind, ns, name)).None? || cl.vmManaged(ns).Some?
  {
    var r := Ref(VmiKind, ns, name);
    if Sound(cl) && Agrees(index.colliding, index.gauge) {
      ReconcileAgrees(cl, r, index.colliding, index.gauge);
    }
    var got := FindVmi(cl.vmis, r);
    if got.None? {
      index.UpdateCollisionsMap(r, map[]);
      return true;
    }
    var answer := cl.vmManaged(got.value.ns);
    if answer.None? {
      return false;
    }
    if answer.value {
      assert answer == Some(true);
      CheckVmi(cl, index, got.value);
    }
    return true;
  }

  /** The report, filled address by address. */
  method CollectPod(cl: Cluster, x: Pod, macs: set<Mac>) returns (report: CollisionMap)
    requires macs == PodMacs(x)
    ensures report == PodReport(cl, x)
  {
    report := map[];
    var left := macs;
    while left != {}
      invariant left <= macs
      invariant forall m :: m in report <==> m in macs && m !in left && PodColliders(cl, x, m) != []
      invariant forall m :: m in report ==> report[m] == PodColliders(cl, x, m)
      decreases |left|
    {
      var m :| m in left;
      var refs := PodRefsAt(cl, x, m);
      left := left - {m};
      if |refs| > 0 {
        report := report[m := refs];
      }
    }
  }

  method CheckPod(cl: Cluster, index: CollisionIndex, x: Pod)
    requires FindPod(cl.pods, x.AsRef()) == Some(x) && !x.launcher && cl.podManaged(x.ns) == Some(true)
    modifies index
    ensures index.colliding == Reconcile(cl, old(index.colliding), x.AsRef())
    ensures index.gauge == GaugeAfter(cl, x.AsRef(), old(index.colliding), old(index.gauge))
  {
    if x.phase != RUNNING {
      index.UpdateCollisionsMap(x.AsRef(), map[]);
      return;
    }
    var list := IndexPodByMAC(x);
    var macs := set m | m in list;
    assert macs == PodMacs(x);
    if macs == {} {
      return;
    }
    var report := CollectPod(cl, x, macs);
    index.UpdateCollisionsMap(x.AsRef(), report);
  }

  method ReconcilePod(cl: Cluster, index: CollisionIndex, ns: string, name: string) returns (ok: bool)
    modifies index
    ensures index.colliding == Reconcile(cl, old(index.colliding), Ref(PodKind, ns, name))
    ensures index.gauge == GaugeAfter(cl, Ref(PodKind, ns, name), old(index.colliding), old(index.gauge))
    ensures Sound(cl) && old(Agrees(index.colliding, index.gauge)) ==> Agrees(index.colliding, index.gauge)
    ensures !ok ==> index.colliding == old(index.colliding) && index.gauge == old(index.gauge)
    ensures ok <==> var x := FindPod(cl.pods, Ref(PodKind, ns, name));
                    x.None? || x.value.launcher || cl.podManaged(ns).Some?
  {
    var r := Ref(PodKind, ns, name);
    if Sound(cl) && Agrees(index.colliding, index.gauge) {
      ReconcileAgrees(cl, r, index.colliding, index.gauge);
    }
    var got := FindPod(cl.pods, r);
    if got.None? {
      index.UpdateCollisionsMap(r, map[]);
      return true;
    }
    if got.value.launcher {
      return true;
    }
    var answer := cl.podManaged(got.value.ns);
    if answer.None? {
      return false;
    }
    if answer.value {
      assert answer == Some(true);
      CheckPod(cl, index, got.value);
    }
    return true;
  }
}
