/** The two-phase commit as a whole: webhook admission, the API server's decision, the VM
    controller's reconciles, the healing loop and pods, interleaved in any order
    (pkg/webhook/virtualmachine/virtualmachine.go, pkg/controller/virtualmachine/virtualmachine_controller.go,
    pkg/pool-manager/virtualmachine_pool.go). */
module Protocol {
  import opened Addresses
  import opened MacMaps
  import opened Transactions
  import opened VmOperations
  import opened Failures
  import opened Healing
  import opened RangeAllocation
  import opened PodPool

  datatype VmId = VmId(ns: string, name: string)

  predicate Named(id: VmId) {
    '/' !in id.ns && '/' !in id.name && id.ns != "" && id.name != ""
  }

  function Inst(id: VmId): string {
    VmNamespaced(id.ns, id.name)
  }

  /** One persisted state of a VM object. `recorded` lists the (interface, address) pairs the pool
      took responsibility for; `num` is the API server's resource version. */
  datatype Version = Version(interfaces: seq<Interface>, stamp: Option<int>, deleting: bool,
                             recorded: set<(string, Mac)>, num: nat)

  /** An admitted request the API server has not decided yet. An update carries the resource version
      it was computed from; `at` is the stamp of a request that touched the map. */
  datatype Request = Request(id: VmId, base: Option<nat>, want: Version, at: Option<int>)

  /** `cluster` holds every version of the current incarnation of each VM, the last one being
      current: the cache may lag and serve any of them. `deleted` are the names whose
      deletion event is still to be reconciled. */
  datatype State = State(pool: MacMap, cluster: map<VmId, seq<Version>>, inflight: set<Request>,
                         deleted: set<VmId>, clock: int, next: nat)

  function Hist(s: State, id: VmId): seq<Version> {
    if id in s.cluster then s.cluster[id] else []
  }

  function Last(h: seq<Version>): Version
    requires h != []
  {
    h[|h| - 1]
  }

  /** Compare-and-swap persistence: a create needs the name to be free, an update its base to be current. */
  predicate Persistable(s: State, r: Request) {
    if r.base.None? then r.id !in s.cluster
    else r.id in s.cluster && s.cluster[r.id] != [] && Last(s.cluster[r.id]).num == r.base.value
  }

  /** Requests that touched the map are decided within the waiting time of their stamp. */
  predicate DecidedBy(s: State, t: int, wait: nat) {
    forall r :: r in s.inflight && r.at.Some? ==> t <= r.at.value + wait
  }

  /** The pairs a create records: the supported interfaces of the VM it returns. */
  function CreatePairs(vm: Vm, got: seq<Interface>): set<(string, Mac)> {
    if !CreateEntersLoop(vm) || |got| != |vm.interfaces| then {}
    else set k | 0 <= k < |got| && Supported(vm.interfaces[k], vm.networks) && got[k].mac.Written?
           :: (got[k].name, got[k].mac.mac)
  }

  /** The pairs an update records: interfaces that are new or changed against the interfaces the
      webhook read, and those its base version had on record. */
  function UpdatePairs(prev: seq<Interface>, had: set<(string, Mac)>, vm: Vm, got: seq<Interface>): set<(string, Mac)> {
    if |got| != |vm.interfaces| then {}
    else set k | 0 <= k < |got| && got[k].mac.Written?
                 && (Touched(CurrentTexts(prev), vm.interfaces[k]) || (got[k].name, got[k].mac.mac) in had)
           :: (got[k].name, got[k].mac.mac)
  }

  /** Of the pairs on record, those the interfaces still carry. */
  function StillOn(had: set<(string, Mac)>, ifs: seq<Interface>): set<(string, Mac)> {
    set p | p in had && OnVm(ifs, p.1, p.0)
  }

  /** No other instance has an entry at an address of v. */
  ghost predicate Unshared(M: MacMap, v: string) {
    forall m, e :: Holds(M, m, v) && In(M, m, e) ==> e.inst == v
  }

  ghost predicate StampsBelow(h: seq<Version>, t: int) {
    forall k :: 0 <= k < |h| ==> h[k].stamp.Some? ==> h[k].stamp.value < t
  }

  /** The object the API server is handed after a granted create. */
  function CreateRequest(vm: Vm, got: seq<Interface>, t: int): Request {
    Request(VmId(vm.namespace, vm.name), None, Version(got, Some(t), false, CreatePairs(vm, got), 0), Some(t))
  }

  /** The same for a VM without a name, under the name the API server generates. */
  function NamelessRequest(id: VmId, got: seq<Interface>, t: int): Request {
    Request(id, None, Version(got, Some(t), false, {}, 0), None)
  }

  /** The same after a granted update, computed from version base. */
  function UpdateRequest(vm: Vm, prev: seq<Interface>, base: Version, got: seq<Interface>, t: int): Request {
    var want := Version(got, Some(t), base.deleting, UpdatePairs(prev, base.recorded, vm, got), 0);
    Request(VmId(vm.namespace, vm.name), Some(base.num), want, Some(t))
  }

  /** A create, or an update of version base, that did not touch the map: of the pairs on record only
      those still on the VM are. */
  function UntouchedRequest(id: VmId, base: Option<Version>, ifs: seq<Interface>, stamp: Option<int>): Request {
    match base
    case None => Request(id, None, Version(ifs, stamp, false, {}, 0), None)
    case Some(b) => Request(id, Some(b.num), Version(ifs, stamp, b.deleting, StillOn(b.recorded, ifs), 0), None)
  }

  /** Some pair of this name is to be kept: of a VM that is not being deleted, or of a request that
      the API server may still persist. */
  ghost predicate AtStake(s: State, id: VmId) {
    || (id in s.cluster && s.cluster[id] != [] && !Last(s.cluster[id]).deleting)
    || exists r :: r in s.inflight && r.id == id && Persistable(s, r) && !r.want.deleting
  }

  /** Stamp t is in order for this one VM: after every stamp its versions carry, and not before the
      stamp of a request of it that may still persist. Stamps of different VMs may be equal, and
      their admissions may take the lock in any order. */
  ghost predicate InOrder(s: State, id: VmId, t: int) {
    && StampsBelow(Hist(s, id), t)
    && forall r :: r in s.inflight && r.id == id && Persistable(s, r) && r.at.Some? ==> r.at.value <= t
  }

  /** After its admission a request awaits the API server's decision, or never persists. It never
      does if it comes too late, or if it creates a name whose last deletion is not reconciled yet. */
  ghost predicate Joins(s: State, after: set<Request>, r: Request, wait: nat) {
    || after == s.inflight
    || (after == s.inflight + {r} && (r.base.None? ==> r.id !in s.deleted)
        && (r.at.Some? ==> s.clock <= r.at.value + wait))
  }

  /** Direct reads of the API server: the truth, or an error. */
  ghost predicate Truthful(s: State, api: (string, string) -> Lookup) {
    forall ns, name ::
      || api(ns, name).Failed?
      || api(ns, name) == (if VmId(ns, name) in s.cluster && s.cluster[VmId(ns, name)] != []
                           then Found(Last(s.cluster[VmId(ns, name)]).interfaces) else Vanished)
  }

  datatype Step =
    | AdmitCreate(vm: Vm, t: int, answers: seq<Option<Mac>>, order: seq<string>)
    | AdmitNameless(vm: Vm, id: VmId, t: int, answers: seq<Option<Mac>>, order: seq<string>)
    | AdmitUpdate(vm: Vm, prev: seq<Interface>, base: Version, t: int, answers: seq<Option<Mac>>, orders: Orders)
    | AdmitUntouched(id: VmId, from: Option<Version>, interfaces: seq<Interface>, stamp: Option<int>)
    | Persist(r: Request)
    | Reject(r: Request)
    | MarkDeleting(id: VmId)
    | Remove(id: VmId)
    | Reconcile(id: VmId, seen: Version)
    | ReconcileGone(id: VmId)
    | HealStale(api: (string, string) -> Lookup)
    | AdmitPod(pod: Pod, live: bool, answers: seq<Option<Mac>>, order: seq<string>)
    | ReleasePod(ns: string, name: string)
    | Tick(t: int)

  /** A create the webhook took for new: the name may be taken all the same, by the time the lock is.
      The stamp t was taken before the lock. */
  ghost predicate AdmitCreateEffect(s: State, s': State, vm: Vm, t: int, answers: seq<Option<Mac>>, order: seq<string>,
                                    wait: nat) {
    var id := VmId(vm.namespace, vm.name);
    && Named(id) && |answers| == |vm.interfaces|
    && Enumerates(order, CreateLoop(s.pool, vm.FullName(), vm.networks, true, vm.interfaces, answers).allocs.Keys)
    && CreateAnswersFree(s.pool, vm.FullName(), vm.networks, true, vm.interfaces, answers)
    && var o := Allocate(s.pool, vm, t, true, answers, order);
       && s' == s.(pool := o.pool, inflight := s'.inflight)
       && if o.ok then Joins(s, s'.inflight, CreateRequest(vm, o.interfaces, t), wait)
          else s'.inflight == s.inflight
  }

  /** When pairs of the name are at stake, a granted create is in order, and one that fails in its
      loop reverts none of their addresses. */
  ghost predicate AdmitCreateGuard(s: State, vm: Vm, t: int, answers: seq<Option<Mac>>, order: seq<string>)
    requires |answers| == |vm.interfaces|
    requires Enumerates(order, CreateLoop(s.pool, vm.FullName(), vm.networks, true, vm.interfaces, answers).allocs.Keys)
  {
    var id := VmId(vm.namespace, vm.name);
    AtStake(s, id) ==>
      if Allocate(s.pool, vm, t, true, answers, order).ok then InOrder(s, id, t)
      else CreateEntersLoop(vm) ==> CreateHarmless(s.pool, vm, answers)
  }

  /** A create of a VM without a name: everything is recorded under the empty name, and the API
      server persists the VM under the name it generates, id. The pool is responsible for nothing. */
  ghost predicate AdmitNamelessEffect(s: State, s': State, vm: Vm, id: VmId, t: int, answers: seq<Option<Mac>>,
                                      order: seq<string>, wait: nat) {
    && vm.name == "" && '/' !in vm.namespace && Named(id) && id.ns == vm.namespace
    && |answers| == |vm.interfaces|
    && Enumerates(order, CreateLoop(s.pool, vm.FullName(), vm.networks, true, vm.interfaces, answers).allocs.Keys)
    && var o := Allocate(s.pool, vm, t, true, answers, order);
       && s' == s.(pool := o.pool, inflight := s'.inflight)
       && if o.ok then Joins(s, s'.inflight, NamelessRequest(id, o.interfaces, t), wait)
          else s'.inflight == s.inflight
  }

  /** An update that reaches the pool. `prev` is what the webhook read from its cache, of any age;
      `base` is the version the API server computes the update from. When the VM no longer has that
      version the request cannot persist. */
  ghost predicate AdmitUpdateEffect(s: State, s': State, vm: Vm, prev: seq<Interface>, base: Version, t: int,
                                    answers: seq<Option<Mac>>, orders: Orders, wait: nat) {
    var id := VmId(vm.namespace, vm.name);
    && Named(id) && |answers| == |vm.interfaces|
    && OrdersFit(orders, UpdateLoop(s.pool, CurrentTexts(prev), vm.FullName(), true, vm.interfaces, answers))
    && UpdateAnswersFree(s.pool, CurrentTexts(prev), vm.FullName(), true, vm.interfaces, answers)
    && var o := Update(s.pool, prev, vm, t, true, answers, orders);
       && s' == s.(pool := o.pool, inflight := s'.inflight)
       && if o.ok && base in Hist(s, id)
          then Joins(s, s'.inflight, UpdateRequest(vm, prev, base, o.interfaces, t), wait)
          else s'.inflight == s.inflight
  }

  /** When pairs of the VM are at stake, a granted update is in order, and one that fails in its loop
      takes nothing the VM held (the condition of UpdateFailsIff). */
  ghost predicate AdmitUpdateGuard(s: State, vm: Vm, prev: seq<Interface>, t: int, answers: seq<Option<Mac>>,
                                   orders: Orders)
    requires |answers| == |vm.interfaces|
    requires OrdersFit(orders, UpdateLoop(s.pool, CurrentTexts(prev), vm.FullName(), true, vm.interfaces, answers))
  {
    var id := VmId(vm.namespace, vm.name);
    AtStake(s, id) ==>
      if Update(s.pool, prev, vm, t, true, answers, orders).ok then InOrder(s, id, t)
      else RequestsDistinct(vm.interfaces) && NamesDistinct(vm.interfaces) ==>
             UpdateHarmless(s.pool, CurrentTexts(prev), vm.FullName(), vm.interfaces, answers)
  }

  /** A request the webhook lets through without touching the map: the interfaces look unchanged, or
      its lookup found no VM on an update, or one on a create. The interfaces and the stamp
      annotation are whatever the client sent; of the pairs on record only those still on the VM are. */
  ghost predicate AdmitUntouchedEffect(s: State, s': State, id: VmId, base: Option<Version>, interfaces: seq<Interface>,
                                       stamp: Option<int>, wait: nat) {
    && Named(id) && (base.Some? ==> base.value in Hist(s, id))
    && s' == s.(inflight := s'.inflight)
    && Joins(s, s'.inflight, UntouchedRequest(id, base, interfaces, stamp), wait)
  }

  ghost predicate Next(s: State, step: Step, s': State, wait: nat) {
    match step
    case AdmitCreate(vm, t, answers, order) =>
      AdmitCreateEffect(s, s', vm, t, answers, order, wait) && AdmitCreateGuard(s, vm, t, answers, order)
    case AdmitNameless(vm, id, t, answers, order) => AdmitNamelessEffect(s, s', vm, id, t, answers, order, wait)
    case AdmitUpdate(vm, prev, base, t, answers, orders) =>
      AdmitUpdateEffect(s, s', vm, prev, base, t, answers, orders, wait)
          && AdmitUpdateGuard(s, vm, prev, t, answers, orders)
    case AdmitUntouched(id, base, interfaces, stamp) => AdmitUntouchedEffect(s, s', id, base, interfaces, stamp, wait)
    case Persist(r) =>
      && r in s.inflight && Persistable(s, r)
      && s' == s.(cluster := s.cluster[r.id := Hist(s, r.id) + [r.want.(num := s.next)]],
                  inflight := s.inflight - {r}, next := s.next + 1)
    case Reject(r) => s' == s.(inflight := s.inflight - {r})
    case MarkDeleting(id) =>
      && id in s.cluster && s.cluster[id] != []
      && s' == s.(cluster := s.cluster[id := s.cluster[id] + [Last(s.cluster[id]).(deleting := true, num := s.next)]],
                  next := s.next + 1)
    case Remove(id) =>
      && id in s.cluster
      && s' == s.(cluster := s.cluster - {id}, deleted := s.deleted + {id},
                  inflight := set r | r in s.inflight && !(r.base.None? && r.id == id))
    case Reconcile(id, seen) =>
      && id in s.cluster && seen in s.cluster[id]
      && if seen.deleting then Unshared(s.pool, Inst(id)) && s' == s.(pool := ReleaseAll(s.pool, Inst(id)))
         else if seen.stamp.None? then s' == s
         else s' == s.(pool := MarkReady(s.pool, Inst(id), seen.stamp.value, seen.interfaces))
    case ReconcileGone(id) =>
      && id in s.deleted && Unshared(s.pool, Inst(id))
      && s' == s.(pool := ReleaseAll(s.pool, Inst(id)), deleted := s.deleted - {id})
    case HealStale(api) => Truthful(s, api) && s' == s.(pool := Heal(s.pool, s.clock, wait, api))
    case AdmitPod(pod, live, answers, order) =>
      && EntersLoop(pod) && |answers| == |pod.annotation.list|
      && Enumerates(order, PodLoop(s.pool, pod, live, answers).allocs.Keys)
      && s' == s.(pool := AllocatePod(s.pool, pod, live, answers, order).0)
    case ReleasePod(ns, name) =>
      Unshared(s.pool, PodNamespaced(ns, name)) && s' == s.(pool := ReleaseAll(s.pool, PodNamespaced(ns, name)))
    case Tick(t) => t >= s.clock && DecidedBy(s, t, wait) && s' == s.(clock := t)
  }

  // ---- the invariant --------------------------------------------------------------------------

  /** The current version has the pair. */
  ghost predicate OnLast(h: seq<Version>, i: string, m: Mac) {
    h != [] && OnVm(Last(h).interfaces, m, i)
  }

  /** The pair has an entry that no reconcile (fresh or lagging) and no healing pass will drop: it is
      confirmed, or every version that could be read carries the pair or an older stamp, and the pair
      is on the current version or the entry is at least as young as the request. Without an age the
      pair is on the current version. */
  ghost predicate Kept(M: MacMap, v: string, h: seq<Version>, i: string, m: Mac, at: Option<int>) {
    exists st :: In(M, m, Entry(v, i, st)) && Shielded(st, h, i, m, at)
  }

  ghost predicate Shielded(st: Option<int>, h: seq<Version>, i: string, m: Mac, at: Option<int>) {
    && (at.None? ==> OnLast(h, i, m))
    && (st.Some? ==>
          && (forall k :: 0 <= k < |h| ==>
              OnVm(h[k].interfaces, m, i) || (h[k].stamp.Some? ==> h[k].stamp.value < st.value))
          && (OnLast(h, i, m) || (at.Some? && st.value >= at.value)))
  }

  ghost predicate PairsOnVm(w: Version) {
    forall p :: p in w.recorded ==> OnVm(w.interfaces, p.1, p.0)
  }

  ghost predicate HistoryOk(s: State, h: seq<Version>) {
    && h != []
    && (forall k :: 0 <= k < |h| ==> h[k].num < s.next)
    && (forall k :: 0 <= k < |h| - 1 ==> h[k].num != Last(h).num)
    && (forall k :: 0 <= k < |h| ==> h[k].deleting ==> Last(h).deleting)
    && PairsOnVm(Last(h))
  }

  /** The main property for one VM: while it is not being deleted, all its recorded pairs are kept. */
  ghost predicate VmKept(M: MacMap, v: string, h: seq<Version>) {
    h != [] && !Last(h).deleting ==> forall p :: p in Last(h).recorded ==> Kept(M, v, h, p.0, p.1, None)
  }

  ghost predicate RequestOk(s: State, r: Request, wait: nat) {
    && Named(r.id) && (r.at.Some? ==> s.clock <= r.at.value + wait)
    && PairsOnVm(r.want)
    && (r.base.Some? ==> r.base.value < s.next)
    && (r.base.None? ==> r.id !in s.deleted)
    && (r.base.Some? && Persistable(s, r) ==> r.want.deleting == Last(s.cluster[r.id]).deleting)
  }

  /** As long as the API server may still persist the request, its pairs are kept. */
  ghost predicate RequestKept(s: State, r: Request) {
    Persistable(s, r) && !r.want.deleting ==>
      forall p :: p in r.want.recorded ==> Kept(s.pool, Inst(r.id), Hist(s, r.id), p.0, p.1, r.at)
  }

  ghost predicate Inv(s: State, wait: nat) {
    && WellFormed(s.pool)
    && (forall id :: id in s.cluster ==>
        Named(id) && HistoryOk(s, s.cluster[id]) && VmKept(s.pool, Inst(id), s.cluster[id]))
    && (forall r :: r in s.inflight ==> RequestOk(s, r, wait) && RequestKept(s, r))
    && s.deleted !! s.cluster.Keys
    && (forall id :: id in s.deleted ==> Named(id))
  }

  // ---- what each pool operation does to a kept pair -------------------------------------------

  lemma AdvanceKeeps(P: MacMap, Q: MacMap, u: string, t: int, v: string, h: seq<Version>, i: string, m: Mac,
                     at: Option<int>)
    requires Advance(P, Q, u, t) && (u == v ==> StampsBelow(h, t) && (at.Some? ==> t >= at.value))
    requires Kept(P, v, h, i, m, at)
    ensures Kept(Q, v, h, i, m, at)
  {
    var st :| In(P, m, Entry(v, i, st)) && Shielded(st, h, i, m, at);
    var e := Entry(v, i, st);
    if In(Q, m, e) {
    } else if In(Q, m, e.Cleared()) {
      assert Shielded(None, h, i, m, at) && In(Q, m, Entry(v, i, None));
    } else {
      assert Shielded(Some(t), h, i, m, at) && In(Q, m, Entry(v, i, Some(t)));
    }
  }

  lemma FreshIsKept(Q: MacMap, t: int, v: string, h: seq<Version>, i: string, m: Mac)
    requires FreshlyHeld(Q, m, v, i, t) && StampsBelow(h, t)
    ensures Kept(Q, v, h, i, m, Some(t))
  {
    if In(Q, m, Entry(v, i, None)) {
      assert Shielded(None, h, i, m, Some(t));
    } else {
      assert Shielded(Some(t), h, i, m, Some(t));
    }
  }

  lemma MarkReadyKeeps(P: MacMap, u: string, seen: Version, v: string, h: seq<Version>, i: string, m: Mac,
                       at: Option<int>)
    requires WellFormed(P) && seen.stamp.Some? && (u == v ==> seen in h)
    requires Kept(P, v, h, i, m, at)
    ensures Kept(MarkReady(P, u, seen.stamp.value, seen.interfaces), v, h, i, m, at)
  {
    var st :| In(P, m, Entry(v, i, st)) && Shielded(st, h, i, m, at);
    var e := Entry(v, i, st);
    MarkReadyExact(P, u, seen.stamp.value, seen.interfaces, m, e);
    if u == v && e.Ready(seen.stamp.value) {
      var k :| 0 <= k < |h| && h[k] == seen;
      assert OnVm(h[k].interfaces, m, i);
      assert Shielded(None, h, i, m, at) && e.Cleared() == Entry(v, i, None);
    }
  }

  lemma HealKeepsPair(s: State, wait: nat, api: (string, string) -> Lookup, id: VmId, i: string, m: Mac,
                      at: Option<int>)
    requires WellFormed(s.pool) && Truthful(s, api) && Named(id) && (at.Some? ==> s.clock <= at.value + wait)
    requires Kept(s.pool, Inst(id), Hist(s, id), i, m, at)
    ensures Kept(Heal(s.pool, s.clock, wait, api), Inst(id), Hist(s, id), i, m, at)
  {
    var v, h := Inst(id), Hist(s, id);
    var st :| In(s.pool, m, Entry(v, i, st)) && Shielded(st, h, i, m, at);
    var e := Entry(v, i, st);
    SplitVmName(id.ns, id.name);
    if !HealFails(s.pool, s.clock, wait, api) {
      HealExact(s.pool, s.clock, wait, api, m, e);
      if e.Expired(s.clock, wait) {
        assert OnLast(h, i, m);
        assert Ask(api, v) == api(id.ns, id.name);
        assert VmId(id.ns, id.name) == id;
        assert !Ask(api, v).Failed?;
        assert Shielded(None, h, i, m, at) && e.Cleared() == Entry(v, i, None);
      }
    }
  }

  /** On the cluster's own versions the age of the request does not matter. */
  lemma KeptAnyAge(M: MacMap, v: string, h: seq<Version>, i: string, m: Mac, at: Option<int>, at': Option<int>)
    requires Kept(M, v, h, i, m, at) && OnLast(h, i, m)
    ensures Kept(M, v, h, i, m, at')
  {
    var st :| In(M, m, Entry(v, i, st)) && Shielded(st, h, i, m, at);
    assert Shielded(st, h, i, m, at');
  }

  lemma ReleaseKeeps(P: MacMap, u: string, v: string, h: seq<Version>, i: string, m: Mac, at: Option<int>)
    requires Unshared(P, u) && u != v && Kept(P, v, h, i, m, at)
    ensures Kept(ReleaseAll(P, u), v, h, i, m, at)
  {
    var st :| In(P, m, Entry(v, i, st)) && Shielded(st, h, i, m, at);
    assert !Holds(P, m, u);
    assert In(ReleaseAll(P, u), m, Entry(v, i, st));
  }

  lemma RecordKeeps(P: MacMap, x: Mac, pod: string, net: string, v: string, h: seq<Version>, i: string, m: Mac,
                    at: Option<int>)
    requires WellFormed(P) && pod != v && Kept(P, v, h, i, m, at)
    ensures Kept(CreateOrUpdate(P, x, pod, net), v, h, i, m, at)
  {
    var st :| In(P, m, Entry(v, i, st)) && Shielded(st, h, i, m, at);
    CreateOrUpdateIn(P, x, pod, net, m, Entry(v, i, st));
  }

  lemma RemoveListKeeps(es: seq<Entry>, u: string, e: Entry)
    requires e in es && e.inst != u
    ensures e in RemoveList(es, u)
  {
    var j :| 0 <= j < |es| && es[j] == e;
    var k, r := FirstOf(es, u), RemoveList(es, u);
    if k < |es| {
      assert r[if j < k then j else j - 1] == e;
    }
  }

  lemma RevertOneKeeps(P: MacMap, text: MacText, pod: string, v: string, h: seq<Version>, i: string, m: Mac,
                       at: Option<int>)
    requires pod != v && Kept(P, v, h, i, m, at)
    ensures Kept(RemoveInstance(P, text, pod), v, h, i, m, at)
  {
    var st :| In(P, m, Entry(v, i, st)) && Shielded(st, h, i, m, at);
    RemoveListKeeps(P[m], pod, Entry(v, i, st));
    assert In(RemoveInstance(P, text, pod), m, Entry(v, i, st));
  }

  lemma PersistKeeps(M: MacMap, v: string, h: seq<Version>, w: Version, i: string, m: Mac, at: Option<int>)
    requires Kept(M, v, h, i, m, at) && OnVm(w.interfaces, m, i)
    ensures Kept(M, v, h + [w], i, m, None)
  {
    var st :| In(M, m, Entry(v, i, st)) && Shielded(st, h, i, m, at);
    assert Shielded(st, h + [w], i, m, None);
  }

  // ---- every step keeps the invariant ---------------------------------------------------------

  /** A step that changes only the pool and the clock: it is enough that kept pairs stay kept. */
  lemma PoolStep(s: State, s': State, wait: nat)
    requires Inv(s, wait) && s' == s.(pool := s'.pool, clock := s'.clock)
    requires WellFormed(s'.pool) && s'.clock >= s.clock && DecidedBy(s, s'.clock, wait)
    requires forall id :: id in s.cluster ==> VmKept(s'.pool, Inst(id), s.cluster[id])
    requires forall r :: r in s.inflight ==> RequestKept(s', r)
    ensures Inv(s', wait)
  {
    forall r | r in s'.inflight ensures RequestOk(s', r, wait) {
      assert RequestOk(s, r, wait);
      assert Persistable(s', r) == Persistable(s, r);
    }
    forall id | id in s'.cluster ensures HistoryOk(s', s'.cluster[id]) {
      assert HistoryOk(s, s.cluster[id]);
    }
  }

  /** Resource versions are unique within a history. */
  lemma BaseIsLast(s: State, h: seq<Version>, base: Version)
    requires HistoryOk(s, h) && base in h && base.num == Last(h).num
    ensures base == Last(h)
  {
    var k :| 0 <= k < |h| && h[k] == base;
  }

  lemma InstInjective(a: VmId, b: VmId)
    requires Named(a) && Named(b) && Inst(a) == Inst(b)
    ensures a == b
  {
    SplitVmName(a.ns, a.name);
    SplitVmName(b.ns, b.name);
  }

  lemma InstIsVmName(id: VmId)
    requires Named(id)
    ensures IsVmName(Inst(id))
  {
    SplitVmName(id.ns, id.name);
  }

  /** All pairs kept before an admission for one VM are kept after it, if it is in order when some
      of them are this VM's. */
  lemma AdmissionKeeps(s: State, wait: nat, Q: MacMap, id: VmId, t: int)
    requires Inv(s, wait) && Named(id) && Advance(s.pool, Q, Inst(id), t) && (AtStake(s, id) ==> InOrder(s, id, t))
    ensures forall x :: x in s.cluster ==> VmKept(Q, Inst(x), s.cluster[x])
    ensures forall r :: r in s.inflight && Persistable(s, r) && !r.want.deleting ==>
              forall p :: p in r.want.recorded ==> Kept(Q, Inst(r.id), Hist(s, r.id), p.0, p.1, r.at)
  {
    forall x | x in s.cluster ensures VmKept(Q, Inst(x), s.cluster[x]) {
      var h := s.cluster[x];
      if Inst(x) == Inst(id) {
        InstInjective(x, id);
      }
      if h != [] && !Last(h).deleting {
        assert VmKept(s.pool, Inst(x), h);
        assert x == id ==> AtStake(s, id);
        forall p | p in Last(h).recorded ensures Kept(Q, Inst(x), h, p.0, p.1, None) {
          AdvanceKeeps(s.pool, Q, Inst(id), t, Inst(x), h, p.0, p.1, None);
        }
      }
    }
    forall r | r in s.inflight && Persistable(s, r) && !r.want.deleting
      ensures forall p :: p in r.want.recorded ==> Kept(Q, Inst(r.id), Hist(s, r.id), p.0, p.1, r.at)
    {
      assert RequestOk(s, r, wait) && RequestKept(s, r);
      if Inst(r.id) == Inst(id) {
        InstInjective(r.id, id);
        assert AtStake(s, id);
      }
      forall p | p in r.want.recorded ensures Kept(Q, Inst(r.id), Hist(s, r.id), p.0, p.1, r.at) {
        AdvanceKeeps(s.pool, Q, Inst(id), t, Inst(r.id), Hist(s, r.id), p.0, p.1, r.at);
      }
    }
  }

  lemma AdvanceStep(s: State, s': State, wait: nat, id: VmId, t: int)
    requires Inv(s, wait) && Named(id) && (AtStake(s, id) ==> InOrder(s, id, t))
    requires s' == s.(pool := s'.pool)
    requires WellFormed(s'.pool) && Advance(s.pool, s'.pool, Inst(id), t)
    ensures Inv(s', wait)
  {
    AdmissionKeeps(s, wait, s'.pool, id, t);
    forall q | q in s.inflight ensures RequestKept(s', q) {
      assert Persistable(s', q) == Persistable(s, q);
    }
    Decided(s, wait);
    PoolStep(s, s', wait);
  }

  /** A request that may join does so when its own pairs are kept. */
  lemma JoinStep(s: State, s': State, wait: nat, r: Request)
    requires Inv(s, wait) && s' == s.(inflight := s'.inflight) && Joins(s, s'.inflight, r, wait)
    requires Named(r.id) && PairsOnVm(r.want) && (r.base.Some? ==> r.base.value < s.next)
    requires r.base.Some? && Persistable(s, r) ==> r.want.deleting == Last(s.cluster[r.id]).deleting
    requires RequestKept(s, r)
    ensures Inv(s', wait)
  {
    forall q | q in s'.inflight ensures RequestOk(s', q, wait) && RequestKept(s', q) {
      assert Persistable(s, q) == Persistable(s', q);
      if q in s.inflight {
        assert RequestOk(s, q, wait) && RequestKept(s, q);
      }
    }
    forall id | id in s'.cluster ensures HistoryOk(s', s'.cluster[id]) {
      assert HistoryOk(s, s.cluster[id]);
    }
  }

  lemma ClockStep(s: State, s': State, wait: nat)
    requires Inv(s, wait) && s' == s.(clock := s'.clock)
    requires s'.clock >= s.clock && DecidedBy(s, s'.clock, wait)
    ensures Inv(s', wait)
  {
    forall r | r in s.inflight ensures RequestKept(s', r) {
      assert RequestKept(s, r);
      assert Persistable(s', r) == Persistable(s, r);
    }
    PoolStep(s, s', wait);
  }

  /** A create under one instance name, whatever becomes of it, keeps the pairs of every other. */
  lemma AllocateKeepsOthers(M: MacMap, vm: Vm, t: int, answers: seq<Option<Mac>>, order: seq<string>,
                            v: string, h: seq<Version>, i: string, m: Mac, at: Option<int>)
    requires WellFormed(M) && |answers| == |vm.interfaces| && IsVmName(vm.FullName()) && v != vm.FullName()
    requires Enumerates(order, CreateLoop(M, vm.FullName(), vm.networks, true, vm.interfaces, answers).allocs.Keys)
    requires Kept(M, v, h, i, m, at)
    ensures Kept(Allocate(M, vm, t, true, answers, order).pool, v, h, i, m, at)
  {
    var o := Allocate(M, vm, t, true, answers, order);
    if o.ok {
      AllocateSucceeds(M, vm, t, answers, order);
      AdvanceKeeps(M, o.pool, vm.FullName(), t, v, h, i, m, at);
    } else if CreateEntersLoop(vm) {
      FailedCreateReverts(M, vm, t, answers, order);
      CreateLoopFacts(M, vm.FullName(), vm.networks, t, vm.interfaces, answers);
      var r := CreateLoop(M, vm.FullName(), vm.networks, true, vm.interfaces, answers);
      AdvanceKeeps(M, r.pool, vm.FullName(), t, v, h, i, m, at);
      assert WellFormed(r.pool);
      RevertsKeep(r.pool, vm.FullName(), Pick(r.allocs, order), v, h, i, m, at);
    }
  }

  lemma AllocateOk(M: MacMap, vm: Vm, t: int, answers: seq<Option<Mac>>, order: seq<string>)
    requires WellFormed(M) && |answers| == |vm.interfaces| && IsVmName(vm.FullName())
    requires Enumerates(order, CreateLoop(M, vm.FullName(), vm.networks, true, vm.interfaces, answers).allocs.Keys)
    ensures WellFormed(Allocate(M, vm, t, true, answers, order).pool)
  {
    if Allocate(M, vm, t, true, answers, order).ok {
      AllocateSucceeds(M, vm, t, answers, order);
    } else if CreateEntersLoop(vm) {
      FailedCreateReverts(M, vm, t, answers, order);
      CreateLoopFacts(M, vm.FullName(), vm.networks, t, vm.interfaces, answers);
      var r := CreateLoop(M, vm.FullName(), vm.networks, true, vm.interfaces, answers);
      RevertAllOk(r.pool, vm.FullName(), Pick(r.allocs, order));
    }
  }

  /** A create under an instance name none of whose pairs are at stake. */
  lemma ForeignCreateStep(s: State, s': State, vm: Vm, t: int, answers: seq<Option<Mac>>, order: seq<string>, wait: nat)
    requires Inv(s, wait) && |answers| == |vm.interfaces| && IsVmName(vm.FullName())
    requires Enumerates(order, CreateLoop(s.pool, vm.FullName(), vm.networks, true, vm.interfaces, answers).allocs.Keys)
    requires NoneAtStake(s, vm.FullName())
    requires s' == s.(pool := Allocate(s.pool, vm, t, true, answers, order).pool)
    ensures Inv(s', wait)
  {
    AllocateOk(s.pool, vm, t, answers, order);
    forall v: string, h: seq<Version>, i: string, m: Mac, at: Option<int> | v != vm.FullName()
        && Kept(s.pool, v, h, i, m, at)
      ensures Kept(s'.pool, v, h, i, m, at)
    {
      AllocateKeepsOthers(s.pool, vm, t, answers, order, v, h, i, m, at);
    }
    OthersStep(s, s', vm.FullName(), wait);
  }

  /** No pair of this instance is at stake. */
  ghost predicate NoneAtStake(s: State, u: string) {
    && (forall x :: x in s.cluster && s.cluster[x] != [] && !Last(s.cluster[x]).deleting ==> Inst(x) != u)
    && (forall r :: r in s.inflight && Persistable(s, r) && !r.want.deleting ==> Inst(r.id) != u)
  }

  /** The pairs of every instance but u are kept. */
  ghost predicate KeepsOthers(M: MacMap, Q: MacMap, u: string) {
    forall v: string, h: seq<Version>, i: string, m: Mac, at: Option<int> :: v != u && Kept(M, v, h, i, m, at) ==>
          Kept(Q, v, h, i, m, at)
  }

  lemma OthersStep(s: State, s': State, u: string, wait: nat)
    requires Inv(s, wait) && NoneAtStake(s, u) && s' == s.(pool := s'.pool)
    requires WellFormed(s'.pool) && KeepsOthers(s.pool, s'.pool, u)
    ensures Inv(s', wait)
  {
    forall x | x in s.cluster ensures VmKept(s'.pool, Inst(x), s.cluster[x]) {
      var h := s.cluster[x];
      assert VmKept(s.pool, Inst(x), h);
      if h != [] && !Last(h).deleting {
        forall p | p in Last(h).recorded ensures Kept(s'.pool, Inst(x), h, p.0, p.1, None) {
        }
      }
    }
    forall r | r in s.inflight ensures RequestKept(s', r) {
      assert RequestKept(s, r);
      assert Persistable(s', r) == Persistable(s, r);
    }
    Decided(s, wait);
    PoolStep(s, s', wait);
  }

  lemma NotAtStake(s: State, id: VmId, wait: nat)
    requires Inv(s, wait) && Named(id) && !AtStake(s, id)
    ensures NoneAtStake(s, Inst(id))
  {
    forall x | x in s.cluster && s.cluster[x] != [] && !Last(s.cluster[x]).deleting ensures Inst(x) != Inst(id) {
      if Inst(x) == Inst(id) {
        InstInjective(x, id);
      }
    }
    forall r | r in s.inflight && Persistable(s, r) && !r.want.deleting ensures Inst(r.id) != Inst(id) {
      assert RequestOk(s, r, wait);
      if Inst(r.id) == Inst(id) {
        InstInjective(r.id, id);
      }
    }
  }

  lemma CreatePairsKept(M: MacMap, vm: Vm, t: int, o: Outcome, p: (string, Mac), h: seq<Version>)
    requires CreateEntersLoop(vm) && |o.interfaces| == |vm.interfaces| ==> forall k :: 0 <= k < |vm.interfaces| ==>
               CreatedAs(M, vm.FullName(), vm.networks, t, vm.interfaces[k], o.interfaces[k])
    requires p in CreatePairs(vm, o.interfaces)
    ensures OnVm(o.interfaces, p.1, p.0)
    ensures StampsBelow(h, t) ==> Kept(M, vm.FullName(), h, p.0, p.1, Some(t))
  {
    var k :| 0 <= k < |o.interfaces| && Supported(vm.interfaces[k], vm.networks) && o.interfaces[k].mac.Written?
             && p == (o.interfaces[k].name, o.interfaces[k].mac.mac);
    assert CreatedAs(M, vm.FullName(), vm.networks, t, vm.interfaces[k], o.interfaces[k]);
    if StampsBelow(h, t) {
      FreshIsKept(M, t, vm.FullName(), h, p.0, p.1);
    }
  }

  lemma AdmittedCreate(s: State, s': State, vm: Vm, t: int, o: Outcome, wait: nat)
    requires var id := VmId(vm.namespace, vm.name); Inv(s, wait) && Named(id) && (AtStake(s, id) ==> InOrder(s, id, t))
    requires WellFormed(o.pool) && Advance(s.pool, o.pool, vm.FullName(), t)
    requires CreateEntersLoop(vm) && |o.interfaces| == |vm.interfaces| ==> forall k :: 0 <= k < |vm.interfaces| ==>
               CreatedAs(o.pool, vm.FullName(), vm.networks, t, vm.interfaces[k], o.interfaces[k])
    requires s' == s.(pool := o.pool, inflight := s'.inflight)
    requires Joins(s, s'.inflight, CreateRequest(vm, o.interfaces, t), wait)
    ensures Inv(s', wait)
  {
    var id := VmId(vm.namespace, vm.name);
    var r := CreateRequest(vm, o.interfaces, t);
    var mid := s.(pool := o.pool);
    AdvanceStep(s, mid, wait, id, t);
    forall p | p in r.want.recorded
      ensures OnVm(r.want.interfaces, p.1, p.0)
              && (Persistable(mid, r) ==> Kept(mid.pool, Inst(id), Hist(mid, id), p.0, p.1, Some(t)))
    {
      CreatePairsKept(o.pool, vm, t, o, p, Hist(mid, id));
    }
    JoinStep(mid, s', wait, r);
  }

  lemma AdmitCreateStep(s: State, s': State, vm: Vm, t: int, answers: seq<Option<Mac>>, order: seq<string>, wait: nat)
    requires Inv(s, wait) && AdmitCreateEffect(s, s', vm, t, answers, order, wait)
             && AdmitCreateGuard(s, vm, t, answers, order)
    ensures Inv(s', wait)
  {
    var id := VmId(vm.namespace, vm.name);
    InstIsVmName(id);
    var o := Allocate(s.pool, vm, t, true, answers, order);
    if o.ok {
      AllocateSucceeds(s.pool, vm, t, answers, order);
      AdmittedCreate(s, s', vm, t, o, wait);
    } else if AtStake(s, id) {
      if CreateEntersLoop(vm) {
        AllocateFailsIff(s.pool, vm, t, answers, order);
      }
    } else {
      NotAtStake(s, id, wait);
      ForeignCreateStep(s, s', vm, t, answers, order, wait);
    }
  }

  /** An empty name is nobody's. */
  lemma NamelessIsNobody(ns: string, x: VmId)
    requires '/' !in ns && Named(x)
    ensures IsVmName(VmNamespaced(ns, "")) && Inst(x) != VmNamespaced(ns, "")
  {
    SplitVmName(ns, "");
    SplitVmName(x.ns, x.name);
  }

  lemma AdmitNamelessStep(s: State, s': State, vm: Vm, id: VmId, t: int, answers: seq<Option<Mac>>, order: seq<string>,
                          wait: nat)
    requires Inv(s, wait) && AdmitNamelessEffect(s, s', vm, id, t, answers, order, wait)
    ensures Inv(s', wait)
  {
    SplitVmName(vm.namespace, "");
    forall x | x in s.cluster ensures Inst(x) != vm.FullName() {
      NamelessIsNobody(vm.namespace, x);
    }
    forall r | r in s.inflight ensures Inst(r.id) != vm.FullName() {
      assert RequestOk(s, r, wait);
      NamelessIsNobody(vm.namespace, r.id);
    }
    var o := Allocate(s.pool, vm, t, true, answers, order);
    var mid := s.(pool := o.pool);
    ForeignCreateStep(s, mid, vm, t, answers, order, wait);
    if o.ok {
      JoinStep(mid, s', wait, NamelessRequest(id, o.interfaces, t));
    }
  }

  /** A pair of an admitted update is on the VM it asks for, and kept when the base is current. */
  lemma UpdatePairKept(s: State, wait: nat, vm: Vm, t: int, prev: seq<Interface>, o: Outcome, k: nat)
    requires var id := VmId(vm.namespace, vm.name);
             Inv(s, wait) && id in s.cluster && s.cluster[id] != [] && !Last(s.cluster[id]).deleting
                 && InOrder(s, id, t)
    requires k < |o.interfaces| == |vm.interfaces| && o.interfaces[k].mac.Written?
    requires Advance(s.pool, o.pool, vm.FullName(), t)
    requires UpdatedAs(o.pool, CurrentTexts(prev), vm.FullName(), t, vm.interfaces[k], o.interfaces[k])
    requires Touched(CurrentTexts(prev), vm.interfaces[k])
             || (o.interfaces[k].name, o.interfaces[k].mac.mac) in Last(s.cluster[VmId(vm.namespace, vm.name)]).recorded
    ensures var id := VmId(vm.namespace, vm.name);
            Kept(o.pool, Inst(id), s.cluster[id], o.interfaces[k].name, o.interfaces[k].mac.mac, Some(t))
  {
    var id := VmId(vm.namespace, vm.name);
    var i, m, h := o.interfaces[k].name, o.interfaces[k].mac.mac, s.cluster[id];
    if Touched(CurrentTexts(prev), vm.interfaces[k]) {
      FreshIsKept(o.pool, t, Inst(id), h, i, m);
    } else {
      var p := (i, m);
      assert VmKept(s.pool, Inst(id), h) && Kept(s.pool, Inst(id), h, p.0, p.1, None);
      AdvanceKeeps(s.pool, o.pool, vm.FullName(), t, Inst(id), h, i, m, None);
      KeptAnyAge(o.pool, Inst(id), h, i, m, None, Some(t));
    }
  }

  lemma AdmittedUpdate(s: State, s': State, vm: Vm, t: int, prev: seq<Interface>, base: Version, o: Outcome, wait: nat)
    requires var id := VmId(vm.namespace, vm.name);
             Inv(s, wait) && Named(id) && (AtStake(s, id) ==> InOrder(s, id, t)) && base in Hist(s, id)
    requires WellFormed(o.pool) && Advance(s.pool, o.pool, vm.FullName(), t)
    requires |o.interfaces| == |vm.interfaces|
    requires forall k :: 0 <= k < |vm.interfaces| ==>
               UpdatedAs(o.pool, CurrentTexts(prev), vm.FullName(), t, vm.interfaces[k], o.interfaces[k])
    requires s' == s.(pool := o.pool, inflight := s'.inflight)
    requires Joins(s, s'.inflight, UpdateRequest(vm, prev, base, o.interfaces, t), wait)
    ensures Inv(s', wait)
  {
    var id := VmId(vm.namespace, vm.name);
    var h := s.cluster[id];
    var r := UpdateRequest(vm, prev, base, o.interfaces, t);
    var w := r.want;
    var mid := s.(pool := o.pool);
    AdvanceStep(s, mid, wait, id, t);
    assert HistoryOk(s, h);
    if Persistable(mid, r) {
      BaseIsLast(s, h, base);
    }
    forall p | p in w.recorded
      ensures OnVm(w.interfaces, p.1, p.0)
      ensures Persistable(mid, r) && !base.deleting ==> Kept(o.pool, Inst(id), h, p.0, p.1, Some(t))
    {
      var k :| 0 <= k < |o.interfaces| && o.interfaces[k].mac.Written?
          && p == (o.interfaces[k].name, o.interfaces[k].mac.mac)
               && (Touched(CurrentTexts(prev), vm.interfaces[k]) || p in base.recorded);
      if Persistable(mid, r) && !base.deleting {
        UpdatePairKept(s, wait, vm, t, prev, o, k);
      }
    }
    JoinStep(mid, s', wait, r);
  }

  /** An update under an instance name keeps the pairs of every other. */
  lemma UpdateKeepsOthers(M: MacMap, prev: seq<Interface>, vm: Vm, t: int, answers: seq<Option<Mac>>, o: Orders,
                          v: string, h: seq<Version>, i: string, m: Mac, at: Option<int>)
    requires WellFormed(M) && |answers| == |vm.interfaces| && v != vm.FullName()
    requires OrdersFit(o, UpdateLoop(M, CurrentTexts(prev), vm.FullName(), true, vm.interfaces, answers))
    requires !Update(M, prev, vm, t, true, answers, o).ok
    requires RequestsDistinct(vm.interfaces) && NamesDistinct(vm.interfaces)
    requires Kept(M, v, h, i, m, at)
    ensures Kept(Update(M, prev, vm, t, true, answers, o).pool, v, h, i, m, at)
  {
    FailedUpdateReverts(M, prev, vm, t, answers, o);
    UpdateLoopFacts(M, CurrentTexts(prev), vm.FullName(), t, vm.interfaces, answers);
    var u := UpdateLoop(M, CurrentTexts(prev), vm.FullName(), true, vm.interfaces, answers);
    AdvanceKeeps(M, u.pool, vm.FullName(), t, v, h, i, m, at);
    assert WellFormed(u.pool);
    RevertsKeep(u.pool, vm.FullName(), Pick(u.allocs, o.allocs), v, h, i, m, at);
  }

  lemma FailedUpdateOk(M: MacMap, prev: seq<Interface>, vm: Vm, t: int, answers: seq<Option<Mac>>, o: Orders)
    requires WellFormed(M) && |answers| == |vm.interfaces|
    requires OrdersFit(o, UpdateLoop(M, CurrentTexts(prev), vm.FullName(), true, vm.interfaces, answers))
    requires !Update(M, prev, vm, t, true, answers, o).ok
    requires RequestsDistinct(vm.interfaces) && NamesDistinct(vm.interfaces)
    ensures WellFormed(Update(M, prev, vm, t, true, answers, o).pool)
  {
    FailedUpdateReverts(M, prev, vm, t, answers, o);
    UpdateLoopFacts(M, CurrentTexts(prev), vm.FullName(), t, vm.interfaces, answers);
    var u := UpdateLoop(M, CurrentTexts(prev), vm.FullName(), true, vm.interfaces, answers);
    RevertAllOk(u.pool, vm.FullName(), Pick(u.allocs, o.allocs));
  }

  /** An update that fails in its loop. */
  lemma FailedUpdateStep(s: State, s': State, vm: Vm, prev: seq<Interface>, t: int, answers: seq<Option<Mac>>,
                         orders: Orders, wait: nat)
    requires Inv(s, wait) && Named(VmId(vm.namespace, vm.name)) && |answers| == |vm.interfaces|
    requires OrdersFit(orders, UpdateLoop(s.pool, CurrentTexts(prev), vm.FullName(), true, vm.interfaces, answers))
    requires UpdateAnswersFree(s.pool, CurrentTexts(prev), vm.FullName(), true, vm.interfaces, answers)
    requires !Update(s.pool, prev, vm, t, true, answers, orders).ok
    requires RequestsDistinct(vm.interfaces) && NamesDistinct(vm.interfaces)
    requires AtStake(s, VmId(vm.namespace, vm.name)) ==>
               UpdateHarmless(s.pool, CurrentTexts(prev), vm.FullName(), vm.interfaces, answers)
    requires s' == s.(pool := Update(s.pool, prev, vm, t, true, answers, orders).pool)
    ensures Inv(s', wait)
  {
    var id := VmId(vm.namespace, vm.name);
    if AtStake(s, id) {
      UpdateFailsIff(s.pool, prev, vm, t, answers, orders);
    } else {
      NotAtStake(s, id, wait);
      FailedUpdateOk(s.pool, prev, vm, t, answers, orders);
      forall v: string, h: seq<Version>, i: string, m: Mac, at: Option<int> | v != vm.FullName()
          && Kept(s.pool, v, h, i, m, at)
        ensures Kept(s'.pool, v, h, i, m, at)
      {
        UpdateKeepsOthers(s.pool, prev, vm, t, answers, orders, v, h, i, m, at);
      }
      OthersStep(s, s', vm.FullName(), wait);
    }
  }

  lemma AdmitUpdateStep(s: State, s': State, vm: Vm, prev: seq<Interface>, base: Version, t: int,
                        answers: seq<Option<Mac>>, orders: Orders, wait: nat)
    requires Inv(s, wait) && AdmitUpdateEffect(s, s', vm, prev, base, t, answers, orders, wait)
    requires AdmitUpdateGuard(s, vm, prev, t, answers, orders)
    ensures Inv(s', wait)
  {
    var id := VmId(vm.namespace, vm.name);
    InstIsVmName(id);
    var o := Update(s.pool, prev, vm, t, true, answers, orders);
    if o.ok {
      UpdateSucceeds(s.pool, prev, vm, t, answers, orders);
      if base in Hist(s, id) {
        AdmittedUpdate(s, s', vm, t, prev, base, o, wait);
      } else {
        AdvanceStep(s, s', wait, id, t);
      }
    } else if RequestsDistinct(vm.interfaces) && NamesDistinct(vm.interfaces) {
      FailedUpdateStep(s, s', vm, prev, t, answers, orders, wait);
    } else {
      assert s' == s;
    }
  }

  lemma AdmitUntouchedStep(s: State, s': State, id: VmId, base: Option<Version>, interfaces: seq<Interface>,
                           stamp: Option<int>, wait: nat)
    requires Inv(s, wait) && AdmitUntouchedEffect(s, s', id, base, interfaces, stamp, wait)
    ensures Inv(s', wait)
  {
    var r := UntouchedRequest(id, base, interfaces, stamp);
    if base.Some? {
      assert HistoryOk(s, s.cluster[id]) && VmKept(s.pool, Inst(id), s.cluster[id]);
      if Persistable(s, r) {
        BaseIsLast(s, s.cluster[id], base.value);
      }
    }
    JoinStep(s, s', wait, r);
  }

  lemma PersistStep(s: State, s': State, r: Request, wait: nat)
    requires Inv(s, wait) && Next(s, Persist(r), s', wait)
    ensures Inv(s', wait)
  {
    var v, h := Inst(r.id), Hist(s, r.id);
    var w := r.want.(num := s.next);
    assert RequestOk(s, r, wait) && RequestKept(s, r);
    if !w.deleting {
      forall p | p in w.recorded ensures Kept(s.pool, v, h + [w], p.0, p.1, None) {
        PersistKeeps(s.pool, v, h, w, p.0, p.1, r.at);
      }
    }
    assert Last(h + [w]) == w;
    if h != [] {
      assert HistoryOk(s, h);
      forall k | 0 <= k < |h + [w]| ensures (h + [w])[k].deleting ==> w.deleting {
      }
    }
    forall q | q in s'.inflight ensures RequestOk(s', q, wait) && RequestKept(s', q) {
      assert RequestOk(s, q, wait) && RequestKept(s, q);
      if q.id == r.id {
        assert !Persistable(s', q);
      } else {
        assert Persistable(s', q) == Persistable(s, q);
      }
    }
    forall id | id in s'.cluster ensures Named(id) && HistoryOk(s', s'.cluster[id])
        && VmKept(s'.pool, Inst(id), s'.cluster[id]) {
      if id != r.id {
        assert HistoryOk(s, s.cluster[id]);
      }
    }
  }

  lemma RejectStep(s: State, s': State, r: Request, wait: nat)
    requires Inv(s, wait) && Next(s, Reject(r), s', wait)
    ensures Inv(s', wait)
  {
    forall q | q in s'.inflight ensures RequestOk(s', q, wait) && RequestKept(s', q) {
      assert RequestOk(s, q, wait) && RequestKept(s, q);
      assert Persistable(s', q) == Persistable(s, q);
    }
    forall id | id in s'.cluster ensures HistoryOk(s', s'.cluster[id]) {
      assert HistoryOk(s, s.cluster[id]);
    }
  }

  lemma MarkDeletingStep(s: State, s': State, id: VmId, wait: nat)
    requires Inv(s, wait) && Next(s, MarkDeleting(id), s', wait)
    ensures Inv(s', wait)
  {
    assert HistoryOk(s, s.cluster[id]);
    assert Last(s'.cluster[id]) == Last(s.cluster[id]).(deleting := true, num := s.next);
    forall q | q in s'.inflight ensures RequestOk(s', q, wait) && RequestKept(s', q) {
      assert RequestOk(s, q, wait) && RequestKept(s, q);
      if q.id == id {
        assert !Persistable(s', q);
      } else {
        assert Persistable(s', q) == Persistable(s, q);
      }
    }
    forall x | x in s'.cluster ensures HistoryOk(s', s'.cluster[x]) && VmKept(s'.pool, Inst(x), s'.cluster[x]) {
      assert HistoryOk(s, s.cluster[x]);
    }
  }

  lemma RemoveStep(s: State, s': State, id: VmId, wait: nat)
    requires Inv(s, wait) && Next(s, Remove(id), s', wait)
    ensures Inv(s', wait)
  {
    forall q | q in s'.inflight ensures RequestOk(s', q, wait) && RequestKept(s', q) {
      assert RequestOk(s, q, wait) && RequestKept(s, q);
      if q.id != id {
        assert Persistable(s', q) == Persistable(s, q);
      }
    }
    forall x | x in s'.cluster ensures HistoryOk(s', s'.cluster[x]) {
      assert HistoryOk(s, s.cluster[x]);
    }
  }

  lemma ReleaseOk(M: MacMap, v: string)
    requires WellFormed(M)
    ensures WellFormed(ReleaseAll(M, v))
  {
  }

  /** Releasing one instance leaves every kept pair of the others. */
  lemma ReleaseStep(s: State, s': State, u: string, wait: nat)
    requires Inv(s, wait) && Unshared(s.pool, u) && s' == s.(pool := ReleaseAll(s.pool, u))
    requires forall id :: id in s.cluster && Inst(id) == u ==> Last(s.cluster[id]).deleting
    requires forall r :: r in s.inflight && Inst(r.id) == u && Persistable(s, r) ==> r.want.deleting
    ensures Inv(s', wait)
  {
    ReleaseOk(s.pool, u);
    forall id | id in s.cluster ensures VmKept(s'.pool, Inst(id), s.cluster[id]) {
      var h := s.cluster[id];
      assert VmKept(s.pool, Inst(id), h) && HistoryOk(s, h);
      if !Last(h).deleting {
        forall p | p in Last(h).recorded ensures Kept(s'.pool, Inst(id), h, p.0, p.1, None) {
          ReleaseKeeps(s.pool, u, Inst(id), h, p.0, p.1, None);
        }
      }
    }
    forall r | r in s.inflight ensures RequestKept(s', r) {
      assert RequestKept(s, r);
      assert Persistable(s', r) == Persistable(s, r);
      if Persistable(s, r) && !r.want.deleting {
        forall p | p in r.want.recorded ensures Kept(s'.pool, Inst(r.id), Hist(s, r.id), p.0, p.1, r.at) {
          ReleaseKeeps(s.pool, u, Inst(r.id), Hist(s, r.id), p.0, p.1, r.at);
        }
      }
    }
    Decided(s, wait);
    PoolStep(s, s', wait);
  }

  lemma Decided(s: State, wait: nat)
    requires Inv(s, wait)
    ensures DecidedBy(s, s.clock, wait)
  {
    forall r | r in s.inflight && r.at.Some? ensures s.clock <= r.at.value + wait {
      assert RequestOk(s, r, wait);
    }
  }

  lemma ReconcileStep(s: State, s': State, id: VmId, seen: Version, wait: nat)
    requires Inv(s, wait) && Next(s, Reconcile(id, seen), s', wait)
    ensures Inv(s', wait)
  {
    if seen.deleting {
      assert HistoryOk(s, s.cluster[id]);
      forall x | x in s.cluster && Inst(x) == Inst(id) ensures Last(s.cluster[x]).deleting {
        InstInjective(x, id);
      }
      forall r | r in s.inflight && Inst(r.id) == Inst(id) && Persistable(s, r) ensures r.want.deleting {
        assert RequestOk(s, r, wait);
        InstInjective(r.id, id);
      }
      ReleaseStep(s, s', Inst(id), wait);
    } else if seen.stamp.Some? {
      MarkReadyStep(s, s', id, seen, wait);
    }
  }

  lemma MarkReadyStep(s: State, s': State, id: VmId, seen: Version, wait: nat)
    requires Inv(s, wait) && id in s.cluster && seen in s.cluster[id] && seen.stamp.Some?
    requires s' == s.(pool := MarkReady(s.pool, Inst(id), seen.stamp.value, seen.interfaces))
    ensures Inv(s', wait)
  {
    MarkReadyStable(s.pool, Inst(id), seen.stamp.value, seen.interfaces);
    forall x | x in s.cluster ensures VmKept(s'.pool, Inst(x), s.cluster[x]) {
      var h := s.cluster[x];
      assert VmKept(s.pool, Inst(x), h);
      if Inst(x) == Inst(id) {
        InstInjective(x, id);
      }
      if h != [] && !Last(h).deleting {
        forall p | p in Last(h).recorded ensures Kept(s'.pool, Inst(x), h, p.0, p.1, None) {
          MarkReadyKeeps(s.pool, Inst(id), seen, Inst(x), h, p.0, p.1, None);
        }
      }
    }
    forall r | r in s.inflight ensures RequestKept(s', r) {
      assert RequestKept(s, r) && RequestOk(s, r, wait);
      assert Persistable(s', r) == Persistable(s, r);
      if Inst(r.id) == Inst(id) {
        InstInjective(r.id, id);
      }
      if Persistable(s, r) && !r.want.deleting {
        forall p | p in r.want.recorded ensures Kept(s'.pool, Inst(r.id), Hist(s, r.id), p.0, p.1, r.at) {
          MarkReadyKeeps(s.pool, Inst(id), seen, Inst(r.id), Hist(s, r.id), p.0, p.1, r.at);
        }
      }
    }
    Decided(s, wait);
    PoolStep(s, s', wait);
  }

  lemma ReconcileGoneStep(s: State, s': State, id: VmId, wait: nat)
    requires Inv(s, wait) && Next(s, ReconcileGone(id), s', wait)
    ensures Inv(s', wait)
  {
    var mid := s.(pool := ReleaseAll(s.pool, Inst(id)));
    forall x | x in s.cluster ensures Inst(x) != Inst(id) {
      if Inst(x) == Inst(id) {
        InstInjective(x, id);
      }
    }
    forall r | r in s.inflight && Persistable(s, r) ensures Inst(r.id) != Inst(id) {
      assert RequestOk(s, r, wait);
      if Inst(r.id) == Inst(id) {
        InstInjective(r.id, id);
      }
    }
    ReleaseStep(s, mid, Inst(id), wait);
    forall q | q in s'.inflight ensures RequestOk(s', q, wait) && RequestKept(s', q) {
      assert RequestOk(mid, q, wait) && RequestKept(mid, q);
      assert Persistable(s', q) == Persistable(mid, q);
    }
    forall x | x in s'.cluster ensures HistoryOk(s', s'.cluster[x]) {
      assert HistoryOk(mid, mid.cluster[x]);
    }
  }

  lemma HealStep(s: State, s': State, api: (string, string) -> Lookup, wait: nat)
    requires Inv(s, wait) && Next(s, HealStale(api), s', wait)
    ensures Inv(s', wait)
  {
    if !HealFails(s.pool, s.clock, wait, api) {
      HealDrains(s.pool, s.clock, wait, api);
    }
    forall x | x in s.cluster ensures VmKept(s'.pool, Inst(x), s.cluster[x]) {
      var h := s.cluster[x];
      assert VmKept(s.pool, Inst(x), h);
      if h != [] && !Last(h).deleting {
        forall p | p in Last(h).recorded ensures Kept(s'.pool, Inst(x), h, p.0, p.1, None) {
          HealKeepsPair(s, wait, api, x, p.0, p.1, None);
        }
      }
    }
    forall r | r in s.inflight ensures RequestKept(s', r) {
      assert RequestKept(s, r) && RequestOk(s, r, wait);
      assert Persistable(s', r) == Persistable(s, r);
      if Persistable(s, r) && !r.want.deleting {
        forall p | p in r.want.recorded ensures Kept(s'.pool, Inst(r.id), Hist(s, r.id), p.0, p.1, r.at) {
          HealKeepsPair(s, wait, api, r.id, p.0, p.1, r.at);
        }
      }
    }
    Decided(s, wait);
    PoolStep(s, s', wait);
  }

  /** Recording a pod's networks keeps every pair of a VM. */
  lemma {:induction false} PodLoopKeeps(M: MacMap, pod: string, live: bool, ifs: seq<Interface>,
                                        answers: seq<Option<Mac>>,
                                        v: string, h: seq<Version>, i: string, m: Mac, at: Option<int>)
    requires WellFormed(M) && |ifs| == |answers| && pod != v && Kept(M, v, h, i, m, at)
    ensures var Q := CreateLoop(M, pod, [], live, ifs, answers).pool; WellFormed(Q) && Kept(Q, v, h, i, m, at)
  {
    if ifs != [] {
      var n := |ifs| - 1;
      PodLoopKeeps(M, pod, live, ifs[..n], answers[..n], v, h, i, m, at);
      PodRoundKeeps(CreateLoop(M, pod, [], live, ifs[..n], answers[..n]), pod, live, ifs[n], answers[n], v, h, i, m,
                    at);
    }
  }

  lemma PodRoundKeeps(p: CreateRun, pod: string, live: bool, iface: Interface, answer: Option<Mac>,
                      v: string, h: seq<Version>, i: string, m: Mac, at: Option<int>)
    requires WellFormed(p.pool) && pod != v && Kept(p.pool, v, h, i, m, at)
    ensures var Q := CreateStep(p, pod, [], live, iface, answer).pool; WellFormed(Q) && Kept(Q, v, h, i, m, at)
  {
    var Q := CreateStep(p, pod, [], live, iface, answer).pool;
    if Q != p.pool {
      var x := if iface.mac.Blank? then answer.value else iface.mac.mac;
      CreateOrUpdateOk(p.pool, x, pod, iface.name);
      RecordKeeps(p.pool, x, pod, iface.name, v, h, i, m, at);
    }
  }

  lemma {:induction false} RevertsKeep(P: MacMap, pod: string, texts: seq<MacText>,
                                          v: string, h: seq<Version>, i: string, m: Mac, at: Option<int>)
    requires WellFormed(P) && pod != v && Kept(P, v, h, i, m, at)
    ensures Kept(RevertAll(P, pod, texts), v, h, i, m, at)
  {
    if texts != [] {
      RemoveInstanceOk(P, texts[0], pod);
      RevertOneKeeps(P, texts[0], pod, v, h, i, m, at);
      RevertsKeep(RemoveInstance(P, texts[0], pod), pod, texts[1..], v, h, i, m, at);
    }
  }

  /** Neither name an admission uses for a pod is a VM's. */
  lemma PodNamesAreNoVms(pod: Pod)
    ensures !IsVmName(RecordName(pod)) && !IsVmName(RevertName(pod))
  {
    PodIsNoVm(pod.namespace, pod.name);
    if IsVmName(TEMP_POD_NAME) {
      VmNameRebuilt(TEMP_POD_NAME);
    }
  }

  /** A pod admission, live or dry, failing or not, keeps every pair of a VM. */
  lemma PodAdmissionKeeps(M: MacMap, pod: Pod, live: bool, answers: seq<Option<Mac>>, order: seq<string>,
                          v: string, h: seq<Version>, i: string, m: Mac, at: Option<int>)
    requires WellFormed(M) && EntersLoop(pod) && |answers| == |pod.annotation.list|
    requires Enumerates(order, PodLoop(M, pod, live, answers).allocs.Keys)
    requires IsVmName(v) && Kept(M, v, h, i, m, at)
    ensures Kept(AllocatePod(M, pod, live, answers, order).0, v, h, i, m, at)
  {
    PodNamesAreNoVms(pod);
    PodLoopKeeps(M, RecordName(pod), live, AsInterfaces(pod.annotation.list), answers, v, h, i, m, at);
    var r := PodLoop(M, pod, live, answers);
    RevertsKeep(r.pool, RevertName(pod), Pick(r.allocs, order), v, h, i, m, at);
  }

  lemma {:induction false} PodLoopOk(M: MacMap, pod: string, live: bool, ifs: seq<Interface>, answers: seq<Option<Mac>>)
    requires WellFormed(M) && |ifs| == |answers|
    ensures WellFormed(CreateLoop(M, pod, [], live, ifs, answers).pool)
  {
    if ifs != [] {
      var n := |ifs| - 1;
      PodLoopOk(M, pod, live, ifs[..n], answers[..n]);
      var p := CreateLoop(M, pod, [], live, ifs[..n], answers[..n]);
      if ifs[n].mac.Written? {
        CreateOrUpdateOk(p.pool, ifs[n].mac.mac, pod, ifs[n].name);
      } else if answers[n].Some? {
        CreateOrUpdateOk(p.pool, answers[n].value, pod, ifs[n].name);
      }
    }
  }

  lemma PodAdmissionOk(M: MacMap, pod: Pod, live: bool, answers: seq<Option<Mac>>, order: seq<string>)
    requires WellFormed(M) && EntersLoop(pod) && |answers| == |pod.annotation.list|
    requires Enumerates(order, PodLoop(M, pod, live, answers).allocs.Keys)
    ensures WellFormed(AllocatePod(M, pod, live, answers, order).0)
  {
    PodLoopOk(M, RecordName(pod), live, AsInterfaces(pod.annotation.list), answers);
    var r := PodLoop(M, pod, live, answers);
    RevertAllOk(r.pool, RevertName(pod), Pick(r.allocs, order));
  }

  lemma AdmitPodStep(s: State, s': State, pod: Pod, live: bool, answers: seq<Option<Mac>>, order: seq<string>,
                     wait: nat)
    requires Inv(s, wait) && Next(s, AdmitPod(pod, live, answers, order), s', wait)
    ensures Inv(s', wait)
  {
    PodAdmissionOk(s.pool, pod, live, answers, order);
    forall x | x in s.cluster ensures VmKept(s'.pool, Inst(x), s.cluster[x]) {
      var h := s.cluster[x];
      InstIsVmName(x);
      assert VmKept(s.pool, Inst(x), h);
      if h != [] && !Last(h).deleting {
        forall p | p in Last(h).recorded ensures Kept(s'.pool, Inst(x), h, p.0, p.1, None) {
          PodAdmissionKeeps(s.pool, pod, live, answers, order, Inst(x), h, p.0, p.1, None);
        }
      }
    }
    forall r | r in s.inflight ensures RequestKept(s', r) {
      assert RequestKept(s, r) && RequestOk(s, r, wait);
      InstIsVmName(r.id);
      assert Persistable(s', r) == Persistable(s, r);
      if Persistable(s, r) && !r.want.deleting {
        forall p | p in r.want.recorded ensures Kept(s'.pool, Inst(r.id), Hist(s, r.id), p.0, p.1, r.at) {
          PodAdmissionKeeps(s.pool, pod, live, answers, order, Inst(r.id), Hist(s, r.id), p.0, p.1, r.at);
        }
      }
    }
    Decided(s, wait);
    PoolStep(s, s', wait);
  }

  lemma ReleasePodStep(s: State, s': State, ns: string, name: string, wait: nat)
    requires Inv(s, wait) && Next(s, ReleasePod(ns, name), s', wait)
    ensures Inv(s', wait)
  {
    PodIsNoVm(ns, name);
    forall x | x in s.cluster ensures Inst(x) != PodNamespaced(ns, name) {
      InstIsVmName(x);
    }
    forall r | r in s.inflight ensures Inst(r.id) != PodNamespaced(ns, name) {
      assert RequestOk(s, r, wait);
      InstIsVmName(r.id);
    }
    ReleaseStep(s, s', PodNamespaced(ns, name), wait);
  }

  /** Every step keeps the invariant. */
  lemma StepKeepsInv(s: State, step: Step, s': State, wait: nat)
    requires Inv(s, wait) && Next(s, step, s', wait)
    ensures Inv(s', wait)
  {
    match step
    case AdmitCreate(vm, t, answers, order) => AdmitCreateStep(s, s', vm, t, answers, order, wait);
    case AdmitNameless(vm, id, t, answers, order) => AdmitNamelessStep(s, s', vm, id, t, answers, order, wait);
    case AdmitUpdate(vm, prev, base, t, answers, orders) =>
      AdmitUpdateStep(s, s', vm, prev, base, t, answers, orders, wait);
    case AdmitUntouched(id, base, interfaces, stamp) => AdmitUntouchedStep(s, s', id, base, interfaces, stamp, wait);
    case Persist(r) => PersistStep(s, s', r, wait);
    case Reject(r) => RejectStep(s, s', r, wait);
    case MarkDeleting(id) => MarkDeletingStep(s, s', id, wait);
    case Remove(id) => RemoveStep(s, s', id, wait);
    case Reconcile(id, seen) => ReconcileStep(s, s', id, seen, wait);
    case ReconcileGone(id) => ReconcileGoneStep(s, s', id, wait);
    case HealStale(api) => HealStep(s, s', api, wait);
    case AdmitPod(pod, live, answers, order) => AdmitPodStep(s, s', pod, live, answers, order, wait);
    case ReleasePod(ns, name) => ReleasePodStep(s, s', ns, name, wait);
    case Tick(t) => ClockStep(s, s', wait);
  }

  // ---- whole runs -----------------------------------------------------------------------------

  /** The pairs the start-up scan records for a VM. */
  function StartPairs(vm: Vm): set<(string, Mac)> {
    set k | 0 <= k < |vm.interfaces| && Counted(vm, k) :: (vm.interfaces[k].name, vm.interfaces[k].mac.mac)
  }

  /** The state after a successful start: the map was rebuilt from the cluster's VMs on top of
      whatever the pods had put there; nothing is in flight. */
  ghost predicate Init(s: State, pods: MacMap, vms: seq<Vm>) {
    && WellFormed(pods)
    && var r := RebuildVms(Rebuild(pods, 0, false), vms);
    && !r.failed && s.pool == r.pool && s.inflight == {} && s.deleted == {}
    && forall id :: id in s.cluster ==>
         && Named(id) && |s.cluster[id]| == 1
         && var w := s.cluster[id][0];
            && w.num < s.next
            && (w.recorded == {} || exists j :: 0 <= j < |vms| && vms[j].FullName() == Inst(id)
                                                && vms[j].interfaces == w.interfaces
                                                   && w.recorded == StartPairs(vms[j]))
  }

  lemma StartedVmKept(M: MacMap, vm: Vm, v: string, w: Version)
    requires vm.interfaces == w.interfaces && w.recorded == StartPairs(vm)
    requires forall k :: 0 <= k < |vm.interfaces| && Counted(vm, k) ==>
               Recorded(M, vm.interfaces[k].mac.mac, v, vm.interfaces[k].name)
    ensures PairsOnVm(w) && VmKept(M, v, [w])
  {
    forall p | p in w.recorded ensures OnVm(w.interfaces, p.1, p.0) && Kept(M, v, [w], p.0, p.1, None) {
      var k :| 0 <= k < |vm.interfaces| && Counted(vm, k) && p == (vm.interfaces[k].name, vm.interfaces[k].mac.mac);
      assert Recorded(M, vm.interfaces[k].mac.mac, v, vm.interfaces[k].name);
      var st :| In(M, p.1, Entry(v, p.0, st));
      assert Shielded(st, [w], p.0, p.1, None);
    }
  }

  lemma InitHasInv(s: State, pods: MacMap, vms: seq<Vm>, wait: nat)
    requires Init(s, pods, vms)
    ensures Inv(s, wait)
  {
    RebuildConserves(Rebuild(pods, 0, false), vms);
    forall id | id in s.cluster ensures HistoryOk(s, s.cluster[id]) && VmKept(s.pool, Inst(id), s.cluster[id]) {
      var h := s.cluster[id];
      assert h == [h[0]];
      if h[0].recorded != {} {
        var j :| 0 <= j < |vms| && vms[j].FullName() == Inst(id) && vms[j].interfaces == h[0].interfaces
                 && h[0].recorded == StartPairs(vms[j]);
        StartedVmKept(s.pool, vms[j], Inst(id), h[0]);
      }
    }
  }

  ghost predicate IsRun(states: seq<State>, steps: seq<Step>, wait: nat, pods: MacMap, vms: seq<Vm>) {
    && |states| == |steps| + 1
    && Init(states[0], pods, vms)
    && forall k :: 0 <= k < |steps| ==> Next(states[k], steps[k], states[k + 1], wait)
  }

  lemma {:induction false} RunHasInv(states: seq<State>, steps: seq<Step>, wait: nat, pods: MacMap, vms: seq<Vm>,
                                     k: nat)
    requires IsRun(states, steps, wait, pods, vms) && k < |states|
    ensures Inv(states[k], wait)
  {
    if k == 0 {
      InitHasInv(states[0], pods, vms, wait);
    } else {
      RunHasInv(states, steps, wait, pods, vms, k - 1);
      StepKeepsInv(states[k - 1], steps[k - 1], states[k], wait);
    }
  }

  /** Whole-run safety: in every state of every run, each recorded pair of every persisted VM that is
      not being deleted has its (VM, interface) entry at its address. */
  lemma RunSafety(states: seq<State>, steps: seq<Step>, wait: nat, pods: MacMap, vms: seq<Vm>, k: nat, id: VmId,
                  i: string, m: Mac)
    requires IsRun(states, steps, wait, pods, vms) && k < |states|
    requires id in states[k].cluster && states[k].cluster[id] != []
    requires !Last(states[k].cluster[id]).deleting && (i, m) in Last(states[k].cluster[id]).recorded
    ensures Recorded(states[k].pool, m, Inst(id), i)
    ensures OnVm(Last(states[k].cluster[id]).interfaces, m, i)
  {
    RunHasInv(states, steps, wait, pods, vms, k);
    var h := states[k].cluster[id];
    assert HistoryOk(states[k], h) && VmKept(states[k].pool, Inst(id), h);
    var p := (i, m);
    assert Kept(states[k].pool, Inst(id), h, p.0, p.1, None);
  }

  /** So the allocator never issues an address a live VM was granted, whatever the range. */
  lemma NeverReissued(states: seq<State>, steps: seq<Step>, wait: nat, pods: MacMap, vms: seq<Vm>, k: nat, id: VmId,
                      i: string, m: Mac,
                      start: nat, end: nat, cursor: nat, issued: nat, next: nat)
    requires IsRun(states, steps, wait, pods, vms) && k < |states|
    requires id in states[k].cluster && states[k].cluster[id] != []
    requires !Last(states[k].cluster[id]).deleting && (i, m) in Last(states[k].cluster[id]).recorded
    requires start <= cursor <= end && FreeMacResult(start, end, cursor, states[k].pool.Keys, Some(issued), next)
    ensures Encode(issued) != m
  {
    RunSafety(states, steps, wait, pods, vms, k, id, i, m);
  }

  /** The invariant of the map holds in every reachable state, so first-match lookups hit the entry
      that was selected. */
  lemma RunKeepsMapWellFormed(states: seq<State>, steps: seq<Step>, wait: nat, pods: MacMap, vms: seq<Vm>, k: nat,
                              m: Mac, e: Entry)
    requires IsRun(states, steps, wait, pods, vms) && k < |states| && In(states[k].pool, m, e) && e.Pending()
    ensures WellFormed(states[k].pool)
    ensures states[k].pool[m][FirstOf(states[k].pool[m], e.inst)] == e
    ensures e.inst == VmNamespaced(Split(e.inst)[1], Split(e.inst)[2])
  {
    RunHasInv(states, steps, wait, pods, vms, k);
    FirstIsThePending(states[k].pool[m], e.inst, e);
    VmNameRebuilt(e.inst);
  }

  /** Pods never carry VM instance names. */
  lemma PodIsNoVm(ns: string, name: string)
    ensures !IsVmName(PodNamespaced(ns, name))
  {
    SplitPart("pod", ns + "/" + name);
    assert PodNamespaced(ns, name) == "pod" + "/" + (ns + "/" + name);
  }
}
