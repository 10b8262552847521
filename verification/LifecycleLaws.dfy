/** What commit, release, healing and start-up do to the map, told on stamps, interfaces and lookups
    alone, and the law of a rejected create (pkg/pool-manager/virtualmachine_pool.go, macentry.go). */
module LifecycleLaws {
  import opened Addresses
  import opened MacMaps
  import opened Transactions
  import opened VmOperations
  import opened Failures
  import opened Healing
  import opened AdmissionLaws

  /** The interface named key stands at address m. */
  ghost predicate Stands(ifs: seq<Interface>, m: Mac, key: string) {
    exists j :: 0 <= j < |ifs| && ifs[j].name == key && ifs[j].mac.Written? && ifs[j].mac.mac == m
  }

  /** The waiting time since the entry's stamp has passed. */
  ghost predicate Overdue(e: Entry, now: int, wait: nat) {
    e.stamp.Some? && now > e.stamp.value + wait
  }

  lemma NoPair(M: MacMap, m: Mac, v: string, key: string)
    requires !Recorded(M, m, v, key)
    ensures forall e :: In(M, m, e) ==> !(e.inst == v && e.key == key)
  {
    assert forall e :: In(M, m, e) && e.inst == v && e.key == key ==> Entry(v, key, e.stamp) == e;
  }

  // ---- commit and release ---------------------------------------------------------------------

  /** A commit confirms those of the VM's entries stamped no later than the persisted time whose
      interface stands at the address, takes the others of them out and leaves every other entry. */
  lemma CommitLaw(M: MacMap, v: string, persisted: int, ifs: seq<Interface>, m: Mac, e: Entry)
    requires WellFormed(M) && In(M, m, e)
    ensures var R := MarkReady(M, v, persisted, ifs);
            if e.inst != v || e.stamp.None? || e.stamp.value > persisted then In(R, m, e)
            else if Stands(ifs, m, e.key) then In(R, m, Entry(v, e.key, None))
            else forall x :: In(R, m, x) ==> !(x.inst == v && x.key == e.key)
  {
    MarkReadyExact(M, v, persisted, ifs, m, e);
    if e.inst == v && e.stamp.Some? && e.stamp.value <= persisted && !Stands(ifs, m, e.key) {
      NoPair(MarkReady(M, v, persisted, ifs), m, v, e.key);
    }
  }

  /** A release leaves exactly the addresses at which the instance has no entry, as they were. */
  lemma ReleaseLaw(M: MacMap, v: string, m: Mac, e: Entry)
    ensures In(ReleaseAll(M, v), m, e) <==> In(M, m, e) && forall x :: In(M, m, x) ==> x.inst != v
  {
    if m in M {
      if FirstOf(M[m], v) < |M[m]| {
        assert In(M, m, M[m][FirstOf(M[m], v)]);
      }
    }
  }

  // ---- healing --------------------------------------------------------------------------------

  /** Healing touches nothing whose waiting time has not passed. */
  lemma HealLeavesYoung(M: MacMap, now: int, wait: nat, api: (string, string) -> Lookup, m: Mac, e: Entry)
    requires WellFormed(M) && In(M, m, e) && !Overdue(e, now, wait)
    ensures In(Heal(M, now, wait, api), m, e)
  {
    HealExact(M, now, wait, api, m, e);
  }

  lemma {:induction false} PartsSlashless(s: string)
    ensures forall k :: 0 <= k < |Split(s)| ==> '/' !in Split(s)[k]
  {
    if s != [] {
      PartsSlashless(s[1..]);
    }
  }

  /** A pass fails exactly when the VM of some overdue entry has an empty name or namespace, or the
      API server fails on it; then it changes nothing. */
  lemma HealFailsIff(M: MacMap, now: int, wait: nat, api: (string, string) -> Lookup)
    requires WellFormed(M)
    ensures HealFails(M, now, wait, api) <==>
            exists m, e, ns, name :: In(M, m, e) && Overdue(e, now, wait) && Names(e.inst, ns, name)
                                     && (ns == "" || name == "" || api(ns, name).Failed?)
    ensures HealFails(M, now, wait, api) ==> Heal(M, now, wait, api) == M
  {
    if HealFails(M, now, wait, api) {
      var m, e :| In(M, m, e) && e.Expired(now, wait) && Ask(api, e.inst).Failed?;
      NameOf(M, m, e);
      AskNames(api, e.inst, Split(e.inst)[1], Split(e.inst)[2]);
      assert Overdue(e, now, wait) && Names(e.inst, Split(e.inst)[1], Split(e.inst)[2]);
    }
    if m, e, ns, name :| In(M, m, e) && Overdue(e, now, wait) && Names(e.inst, ns, name)
                         && (ns == "" || name == "" || api(ns, name).Failed?) {
      AskNames(api, e.inst, ns, name);
      assert e.Expired(now, wait) && Ask(api, e.inst).Failed?;
    }
  }

  /** The instance name is that of VM ns/name. */
  ghost predicate Names(inst: string, ns: string, name: string) {
    '/' !in ns && '/' !in name && inst == VmNamespaced(ns, name)
  }

  lemma NameOf(M: MacMap, m: Mac, e: Entry)
    requires WellFormed(M) && In(M, m, e) && e.stamp.Some?
    ensures IsVmName(e.inst) && Names(e.inst, Split(e.inst)[1], Split(e.inst)[2])
  {
    assert PendingAreVms(M[m]);
    VmNameRebuilt(e.inst);
    PartsSlashless(e.inst);
  }

  lemma AskNames(api: (string, string) -> Lookup, inst: string, ns: string, name: string)
    requires Names(inst, ns, name)
    ensures Ask(api, inst) == if ns == "" || name == "" then Failed else api(ns, name)
  {
    SplitVmName(ns, name);
  }

  /** An overdue entry whose VM the pass finds is settled by it: confirmed when the VM still has the
      interface at the address, gone when not. */
  lemma HealSettles(M: MacMap, now: int, wait: nat, api: (string, string) -> Lookup, m: Mac, e: Entry, ns: string,
                    name: string)
    requires WellFormed(M) && !HealFails(M, now, wait, api) && In(M, m, e) && Overdue(e, now, wait)
    requires Names(e.inst, ns, name) && api(ns, name).Found?
    ensures var R := Heal(M, now, wait, api);
            if Stands(api(ns, name).interfaces, m, e.key) then In(R, m, Entry(e.inst, e.key, None))
            else forall x :: In(R, m, x) ==> !(x.inst == e.inst && x.key == e.key)
  {
    AskNames(api, e.inst, ns, name);
    assert !Ask(api, e.inst).Failed? by {
      assert e.Expired(now, wait);
    }
    HealExact(M, now, wait, api, m, e);
    if !Stands(api(ns, name).interfaces, m, e.key) {
      NoPair(HealPass(M, now, wait, api), m, e.inst, e.key);
    }
  }

  ghost predicate Gone(e: Entry, now: int, wait: nat, api: (string, string) -> Lookup) {
    Overdue(e, now, wait) && Ask(api, e.inst).Vanished?
  }

  /** The victim at an address is the instance of the last overdue entry there whose VM is gone. */
  lemma {:induction false} VictimIsLast(es: seq<Entry>, now: int, wait: nat, api: (string, string) -> Lookup, v: string)
    ensures Victim(es, now, wait, api) == Some(v) <==>
            exists k :: 0 <= k < |es| && es[k].inst == v && Gone(es[k], now, wait, api)
                        && forall j :: k < j < |es| ==> !Gone(es[j], now, wait, api)
  {
    if es != [] {
      var n := |es| - 1;
      VictimIsLast(es[..n], now, wait, api, v);
      if !Gone(es[n], now, wait, api) {
        forall k | 0 <= k < n ensures es[..n][k] == es[k] {
        }
        if k :| 0 <= k < n && es[..n][k].inst == v && Gone(es[..n][k], now, wait, api)
                && forall j :: k < j < n ==> !Gone(es[..n][j], now, wait, api) {
          forall j | k < j < |es| ensures !Gone(es[j], now, wait, api) {
            assert j < n ==> es[..n][j] == es[j];
          }
        }
        if k :| 0 <= k < |es| && es[k].inst == v && Gone(es[k], now, wait, api)
                && forall j :: k < j < |es| ==> !Gone(es[j], now, wait, api) {
          assert es[..n][k] == es[k];
          forall j | k < j < n ensures !Gone(es[..n][j], now, wait, api) {
            assert es[..n][j] == es[j];
          }
        }
      }
    }
  }

  /** At each address a pass takes out the overdue entries of that victim. */
  lemma HealRemovesVictim(M: MacMap, now: int, wait: nat, api: (string, string) -> Lookup, m: Mac, k: nat)
    requires WellFormed(M) && !HealFails(M, now, wait, api) && m in M && k < |M[m]|
    requires Gone(M[m][k], now, wait, api) && forall j :: k < j < |M[m]| ==> !Gone(M[m][j], now, wait, api)
    ensures forall x :: In(Heal(M, now, wait, api), m, x) ==> !(x.inst == M[m][k].inst && x.key == M[m][k].key)
  {
    var e := M[m][k];
    VictimIsLast(M[m], now, wait, api, e.inst);
    var sel := (m: Mac, e: Entry) => HealPicks(Entries(M, m), e, now, wait, api);
    var keep := (m: Mac, e: Entry) => HealKeeps(m, e, api);
    assert In(M, m, e) && e.Expired(now, wait) && sel(m, e) && !keep(m, e);
    RewriteDrops(M, sel, keep, m, e);
    NoPair(HealPass(M, now, wait, api), m, e.inst, e.key);
  }

  /** After as many error-free passes as there are overdue entries none is overdue. */
  lemma HealingEndsOverdue(M: MacMap, now: int, wait: nat, api: (string, string) -> Lookup, passes: nat, m: Mac,
                           e: Entry)
    requires WellFormed(M) && !HealFails(M, now, wait, api)
    requires passes >= |set x, f | x in M && f in M[x] && f.stamp.Some? && now > f.stamp.value + wait :: (x, f)|
    requires In(HealTimes(M, now, wait, api, passes), m, e)
    ensures !Overdue(e, now, wait)
  {
    assert ExpiredIn(M, now, wait) == set x, f | x in M && f in M[x] && f.stamp.Some? && now > f.stamp.value + wait ::
           (x, f);
    HealingTerminates(M, now, wait, api, passes);
    var R := HealTimes(M, now, wait, api, passes);
    assert Overdue(e, now, wait) ==> (m, e) in ExpiredIn(R, now, wait);
  }

  // ---- a rejected create ----------------------------------------------------------------------

  /** The interface gets addresses from the pool, and was given one. */
  ghost predicate Serves(asked: Interface, nets: seq<Network>, got: Interface) {
    Allocates(asked, nets) && got.mac.Written?
  }

  /** The addresses a create returns for the interfaces it serves are pairwise different. */
  ghost predicate NoAddressTwice(ifs: seq<Interface>, nets: seq<Network>, got: seq<Interface>) {
    forall a, b :: 0 <= a < b < |ifs| && b < |got| && Serves(ifs[a], nets, got[a]) && Serves(ifs[b], nets, got[b]) ==>
      got[a].mac.mac != got[b].mac.mac
  }

  /** Nothing is on record for v, and nothing in the map is overdue. */
  ghost predicate Fresh(M: MacMap, v: string, now: int, wait: nat) {
    forall m, e :: In(M, m, e) ==> e.inst != v && !Overdue(e, now, wait)
  }

  /** The map after a successful create for a VM that had nothing on record. */
  ghost predicate NewlyCreated(M: MacMap, P: MacMap, v: string) {
    && WellFormed(P) && OthersSame(M, P, v)
    && (forall m, e :: In(P, m, e) && e.inst != v ==> In(M, m, e))
  }

  lemma OthersIn(M: MacMap, P: MacMap, v: string, m: Mac, e: Entry)
    requires OthersSame(M, P, v) && In(P, m, e) && e.inst != v
    ensures In(M, m, e)
  {
    OthersMembers(Entries(M, m), v);
    OthersMembers(Entries(P, m), v);
    assert e in Others(Entries(P, m), v);
  }

  /** The names under which v is recorded at m after the create: those of the interfaces it returns there. */
  lemma CreatedKeys(M: MacMap, vm: Vm, t: int, answers: seq<Option<Mac>>, order: seq<string>, m: Mac, n: string)
    requires WellFormed(M) && |answers| == |vm.interfaces| && vm.interfaces != [] && vm.networks != []
    requires Enumerates(order, CreateLoop(M, vm.FullName(), vm.networks, true, vm.interfaces, answers).allocs.Keys)
    requires Allocate(M, vm, t, true, answers, order).ok
    requires forall x, e :: In(M, x, e) ==> e.inst != vm.FullName()
    ensures var o := Allocate(M, vm, t, true, answers, order);
            && |o.interfaces| == |vm.interfaces|
            && (n in KeysAt(o.pool, vm.FullName(), m) <==>
                  NamedAt(vm.interfaces, vm.networks, o.interfaces, m, n))
  {
    CreateParts(M, vm, t, answers, order);
    CreatedPool(M, vm, t, answers, order, m);
    var v, r := vm.FullName(), CreateLoop(M, vm.FullName(), vm.networks, true, vm.interfaces, answers);
    var P := Allocate(M, vm, t, true, answers, order).pool;
    KeysAtIff(P, v, m, n);
    KeysAtIff(r.pool, v, m, n);
    LoopKeys(M, vm, answers, m, n);
    assert forall e :: e in Entries(M, m) ==> In(M, m, e);
    if e :| In(P, m, e) && e.inst == v && e.key == n {
      assert e in Entries(P, m);
      if NamedIn(r.allocs, m) {
        StampKeys(Entries(r.pool, m), v, t, e);
      }
    }
    if f :| In(r.pool, m, f) && f.inst == v && f.key == n {
      assert AllocatedAt(r.allocs, n, m);
      var g := StampsKeep(Entries(r.pool, m), v, t, f);
      assert In(P, m, g);
    }
  }

  /** The same before the stamping. */
  lemma LoopKeys(M: MacMap, vm: Vm, answers: seq<Option<Mac>>, m: Mac, n: string)
    requires WellFormed(M) && |answers| == |vm.interfaces| && NamesDistinct(vm.interfaces)
    requires forall x, e :: In(M, x, e) ==> e.inst != vm.FullName()
    requires var r := CreateLoop(M, vm.FullName(), vm.networks, true, vm.interfaces, answers);
             !r.failed && |r.done| == |vm.interfaces| && Grown(M, r.pool, vm.FullName(), r.allocs)
    ensures var r := CreateLoop(M, vm.FullName(), vm.networks, true, vm.interfaces, answers);
            && (n in KeysAt(r.pool, vm.FullName(), m) <==> NamedAt(vm.interfaces, vm.networks, r.done, m, n))
            && (n in KeysAt(r.pool, vm.FullName(), m) ==> AllocatedAt(r.allocs, n, m))
  {
    CreateAllocs(M, vm, answers);
    var v, r := vm.FullName(), CreateLoop(M, vm.FullName(), vm.networks, true, vm.interfaces, answers);
    KeysAtIff(r.pool, v, m, n);
    if f :| In(r.pool, m, f) && f.inst == v && f.key == n {
      assert AllocatedAt(r.allocs, n, m);
    }
    if NamedAt(vm.interfaces, vm.networks, r.done, m, n) {
      assert In(r.pool, m, Entry(v, n, None));
    }
  }

  lemma StampKeys(es: seq<Entry>, v: string, t: int, e: Entry)
    requires e in StampList(es, v, t)
    ensures exists f :: f in es && f.inst == e.inst && f.key == e.key
  {
    var j :| 0 <= j < |StampList(es, v, t)| && StampList(es, v, t)[j] == e;
    assert es[j] in es;
  }

  lemma StampsKeep(es: seq<Entry>, v: string, t: int, e: Entry) returns (g: Entry)
    requires e in es
    ensures g in StampList(es, v, t) && g.inst == e.inst && g.key == e.key
  {
    var j :| 0 <= j < |es| && es[j] == e;
    g := StampList(es, v, t)[j];
  }

  /** n is the name of an interface served with address m. */
  ghost predicate NamedAt(ifs: seq<Interface>, nets: seq<Network>, got: seq<Interface>, m: Mac, n: string)
    requires |got| == |ifs|
  {
    exists k :: 0 <= k < |ifs| && Serves(ifs[k], nets, got[k]) && got[k].mac.mac == m && ifs[k].name == n
  }

  lemma OneKeyIff(M: MacMap, vm: Vm, t: int, answers: seq<Option<Mac>>, order: seq<string>)
    requires WellFormed(M) && |answers| == |vm.interfaces| && vm.interfaces != [] && vm.networks != []
    requires Enumerates(order, CreateLoop(M, vm.FullName(), vm.networks, true, vm.interfaces, answers).allocs.Keys)
    requires Allocate(M, vm, t, true, answers, order).ok
    requires forall x, e :: In(M, x, e) ==> e.inst != vm.FullName()
    ensures var o := Allocate(M, vm, t, true, answers, order);
            var once := NoAddressTwice(vm.interfaces, vm.networks, o.interfaces);
            once <==> forall m :: |KeysAt(o.pool, vm.FullName(), m)| <= 1
  {
    var got, v := Allocate(M, vm, t, true, answers, order).interfaces, vm.FullName();
    var P := Allocate(M, vm, t, true, answers, order).pool;
    CreateParts(M, vm, t, answers, order);
    forall m, n ensures n in KeysAt(P, v, m) <==> NamedAt(vm.interfaces, vm.networks, got, m, n) {
      CreatedKeys(M, vm, t, answers, order, m, n);
    }
    if NoAddressTwice(vm.interfaces, vm.networks, got) {
      forall m ensures |KeysAt(P, v, m)| <= 1 {
        OneNamed(vm.interfaces, vm.networks, got, m, KeysAt(P, v, m));
      }
    } else {
      var m := TwoNamed(P, v, vm.interfaces, vm.networks, got);
      assert |KeysAt(P, v, m)| > 1;
    }
  }

  lemma OneNamed(ifs: seq<Interface>, nets: seq<Network>, got: seq<Interface>, m: Mac, keys: set<string>)
    requires |got| == |ifs| && NoAddressTwice(ifs, nets, got)
    requires forall n :: n in keys ==> NamedAt(ifs, nets, got, m, n)
    ensures |keys| <= 1
  {
    forall x, y | x in keys && y in keys ensures x == y {
      assert NamedAt(ifs, nets, got, m, x) && NamedAt(ifs, nets, got, m, y);
    }
    AtMostOne(keys);
  }

  lemma TwoNamed(P: MacMap, v: string, ifs: seq<Interface>, nets: seq<Network>, got: seq<Interface>) returns (m: Mac)
    requires |got| == |ifs| && NamesDistinct(ifs) && !NoAddressTwice(ifs, nets, got)
    requires forall m, n :: NamedAt(ifs, nets, got, m, n) ==> n in KeysAt(P, v, m)
    ensures |KeysAt(P, v, m)| > 1
  {
    var a, b :| 0 <= a < b < |ifs| && Serves(ifs[a], nets, got[a]) && Serves(ifs[b], nets, got[b])
                && got[a].mac.mac == got[b].mac.mac;
    m := got[a].mac.mac;
    assert NamedAt(ifs, nets, got, m, ifs[a].name) && NamedAt(ifs, nets, got, m, ifs[b].name);
    CardOfSubset({ifs[a].name, ifs[b].name}, KeysAt(P, v, m));
  }

  lemma AtMostOne<T>(s: set<T>)
    requires forall x, y :: x in s && y in s ==> x == y
    ensures |s| <= 1
  {
    if s != {} {
      var x :| x in s;
      assert s == {x};
    }
  }

  /** One pass over a map in which only entries of one vanished instance are overdue. */
  lemma PassAt(M: MacMap, P: MacMap, v: string, now: int, wait: nat, api: (string, string) -> Lookup, m: Mac)
    requires WellFormed(M) && NewlyCreated(M, P, v) && Fresh(M, v, now, wait) && Ask(api, v).Vanished?
    requires forall x :: Holds(P, x, v) ==> Overdue(Entries(P, x)[FirstOf(Entries(P, x), v)], now, wait)
    ensures Entries(HealPass(P, now, wait, api), m) == Entries(M, m) <==> |KeysAt(P, v, m)| <= 1
  {
    var es := Entries(P, m);
    HealAddressExact(P, m, now, wait, api);
    OnlyOverdue(M, P, v, now, wait, m);
    NothingToAlign(es, now, wait, api, v);
    assert ListOk(es);
    OnlyKeysDistinct(es, v);
    OnlyIff(es, v);
    NothingOf(M, v, now, wait, m);
    assert Others(es, v) == Entries(M, m) by {
      OthersWhenNone(Entries(M, m), v);
    }
    if Holds(P, m, v) {
      VictimIsV(es, now, wait, api, v);
      RemoveOneExact(es, v);
      if |Only(RemoveList(es, v), v)| == 0 {
        OthersWhenNone(RemoveList(es, v), v);
      }
    } else {
      VictimIsNone(es, now, wait, api, v);
      OthersWhenNone(es, v);
    }
  }

  lemma NothingOf(M: MacMap, v: string, now: int, wait: nat, m: Mac)
    requires Fresh(M, v, now, wait)
    ensures Only(Entries(M, m), v) == []
  {
    var es := Entries(M, m);
    OnlyIff(es, v);
    if FirstOf(es, v) < |es| {
      assert In(M, m, es[FirstOf(es, v)]);
    }
  }

  lemma OnlyOverdue(M: MacMap, P: MacMap, v: string, now: int, wait: nat, m: Mac)
    requires NewlyCreated(M, P, v) && Fresh(M, v, now, wait)
    ensures forall e :: e in Entries(P, m) && Overdue(e, now, wait) ==> e.inst == v
  {
    forall e | e in Entries(P, m) && Overdue(e, now, wait) ensures e.inst == v {
      assert In(P, m, e);
    }
  }

  lemma NothingToAlign(es: seq<Entry>, now: int, wait: nat, api: (string, string) -> Lookup, v: string)
    requires Ask(api, v).Vanished? && forall e :: e in es && Overdue(e, now, wait) ==> e.inst == v
    ensures ToAlign(es, now, wait, api) == []
  {
    if ToAlign(es, now, wait, api) != [] {
      ToAlignIff(es, now, wait, api, ToAlign(es, now, wait, api)[0]);
    }
  }

  lemma VictimIsV(es: seq<Entry>, now: int, wait: nat, api: (string, string) -> Lookup, v: string)
    requires Ask(api, v).Vanished? && forall e :: e in es && Overdue(e, now, wait) ==> e.inst == v
    requires FirstOf(es, v) < |es| && Overdue(es[FirstOf(es, v)], now, wait)
    ensures Victim(es, now, wait, api) == Some(v)
  {
    VictimFacts(es, now, wait, api);
    assert es[FirstOf(es, v)] in es;
  }

  lemma VictimIsNone(es: seq<Entry>, now: int, wait: nat, api: (string, string) -> Lookup, v: string)
    requires FirstOf(es, v) == |es| && forall e :: e in es && Overdue(e, now, wait) ==> e.inst == v
    ensures Victim(es, now, wait, api) == None
  {
    VictimFacts(es, now, wait, api);
  }

  /** A create of a new VM that is granted and then rejected by the API server gives back the map
      once its stamps are overdue and the VM is found to be gone: in one pass of healing, exactly if
      no two of its interfaces were given the same address. */
  lemma RejectedCreateHealsIff(M: MacMap, vm: Vm, t: int, answers: seq<Option<Mac>>, order: seq<string>,
                               now: int, wait: nat, api: (string, string) -> Lookup)
    requires WellFormed(M) && |answers| == |vm.interfaces|
    requires Names(vm.FullName(), vm.namespace, vm.name) && vm.namespace != "" && vm.name != ""
    requires Enumerates(order, CreateLoop(M, vm.FullName(), vm.networks, true, vm.interfaces, answers).allocs.Keys)
    requires Allocate(M, vm, t, true, answers, order).ok
    requires Fresh(M, vm.FullName(), now, wait) && now > t + wait && api(vm.namespace, vm.name).Vanished?
    ensures var o := Allocate(M, vm, t, true, answers, order);
            Heal(o.pool, now, wait, api) == M <==>
            vm.networks == [] || NoAddressTwice(vm.interfaces, vm.networks, o.interfaces)
  {
    var o, v := Allocate(M, vm, t, true, answers, order), vm.FullName();
    SplitVmName(vm.namespace, vm.name);
    AskNames(api, v, vm.namespace, vm.name);
    AllocateSucceeds(M, vm, t, answers, order);
    forall m, e | In(o.pool, m, e) && e.inst != v ensures In(M, m, e) {
      OthersIn(M, o.pool, v, m, e);
    }
    NoLookupFails(M, o.pool, v, now, wait, api);
    if vm.interfaces == [] || vm.networks == [] {
      UntouchedHeals(M, now, wait, api, v);
    } else {
      forall x | Holds(o.pool, x, v) ensures Overdue(Entries(o.pool, x)[FirstOf(Entries(o.pool, x), v)], now, wait) {
        HeldIsStamped(M, vm, t, answers, order, x);
      }
      HealedMapIff(M, o.pool, v, now, wait, api);
      OneKeyIff(M, vm, t, answers, order);
    }
  }

  lemma NoLookupFails(M: MacMap, P: MacMap, v: string, now: int, wait: nat, api: (string, string) -> Lookup)
    requires NewlyCreated(M, P, v) && Fresh(M, v, now, wait) && Ask(api, v).Vanished?
    ensures !HealFails(P, now, wait, api)
  {
    if HealFails(P, now, wait, api) {
      var m, e :| In(P, m, e) && e.Expired(now, wait) && Ask(api, e.inst).Failed?;
      assert In(M, m, e) && Overdue(e, now, wait);
    }
  }

  lemma UntouchedHeals(M: MacMap, now: int, wait: nat, api: (string, string) -> Lookup, v: string)
    requires WellFormed(M) && Fresh(M, v, now, wait)
    ensures Heal(M, now, wait, api) == M
  {
    forall m ensures Entries(HealPass(M, now, wait, api), m) == Entries(M, m) {
      forall k | 0 <= k < |Entries(M, m)| ensures !HealPicks(Entries(M, m), Entries(M, m)[k], now, wait, api) {
        assert In(M, m, Entries(M, m)[k]);
      }
      RewriteNone(Entries(M, m), e => ((m: Mac, e: Entry) => HealPicks(Entries(M, m), e, now, wait, api))(m, e),
                  e => ((m: Mac, e: Entry) => HealKeeps(m, e, api))(m, e));
    }
    SameEntries(HealPass(M, now, wait, api), M);
  }

  lemma HealedMapIff(M: MacMap, P: MacMap, v: string, now: int, wait: nat, api: (string, string) -> Lookup)
    requires WellFormed(M) && NewlyCreated(M, P, v) && Fresh(M, v, now, wait) && Ask(api, v).Vanished?
    requires forall x :: Holds(P, x, v) ==> Overdue(Entries(P, x)[FirstOf(Entries(P, x), v)], now, wait)
    ensures HealPass(P, now, wait, api) == M <==> forall m :: |KeysAt(P, v, m)| <= 1
  {
    var R := HealPass(P, now, wait, api);
    forall m ensures Entries(R, m) == Entries(M, m) <==> |KeysAt(P, v, m)| <= 1 {
      PassAt(M, P, v, now, wait, api, m);
    }
    if forall m :: |KeysAt(P, v, m)| <= 1 {
      SameEntries(R, M);
    } else {
      var m :| !(|KeysAt(P, v, m)| <= 1);
      assert Entries(R, m) != Entries(M, m);
    }
  }

  lemma HeldIsStamped(M: MacMap, vm: Vm, t: int, answers: seq<Option<Mac>>, order: seq<string>, x: Mac)
    requires WellFormed(M) && |answers| == |vm.interfaces| && vm.interfaces != [] && vm.networks != []
    requires Enumerates(order, CreateLoop(M, vm.FullName(), vm.networks, true, vm.interfaces, answers).allocs.Keys)
    requires Allocate(M, vm, t, true, answers, order).ok
    requires forall m, e :: In(M, m, e) ==> e.inst != vm.FullName()
    requires var P := Allocate(M, vm, t, true, answers, order).pool; Holds(P, x, vm.FullName())
    ensures var P := Allocate(M, vm, t, true, answers, order).pool;
            Entries(P, x)[FirstOf(Entries(P, x), vm.FullName())].stamp == Some(t)
  {
    var v, r := vm.FullName(), CreateLoop(M, vm.FullName(), vm.networks, true, vm.interfaces, answers);
    var P := Allocate(M, vm, t, true, answers, order).pool;
    CreatedPool(M, vm, t, answers, order, x);
    if NamedIn(r.allocs, x) {
      StampListFacts(Entries(r.pool, x), v, t);
    } else {
      assert In(M, x, Entries(M, x)[FirstOf(Entries(M, x), v)]);
    }
  }

  // ---- start-up -------------------------------------------------------------------------------

  /** One interface the start-up scan takes into account. */
  datatype Slot = Slot(inst: string, key: string, mac: Mac)

  ghost function SlotsOf(v: string, nets: seq<Network>, ifs: seq<Interface>): seq<Slot> {
    if ifs == [] then []
    else
      var n := |ifs| - 1;
      SlotsOf(v, nets, ifs[..n])
      + if Allocates(ifs[n], nets) && ifs[n].mac.Written? then [Slot(v, ifs[n].name, ifs[n].mac.mac)] else []
  }

  /** All interfaces of VMs with networks that are served and have an address, in order. */
  ghost function AllSlots(vms: seq<Vm>): seq<Slot> {
    if vms == [] then []
    else
      var n := |vms| - 1;
      AllSlots(vms[..n]) + if vms[n].networks == [] then []
          else SlotsOf(vms[n].FullName(), vms[n].networks, vms[n].interfaces)
  }

  /** Some served interface of a VM with networks has an address that does not parse. */
  ghost predicate BadAddress(v: Vm) {
    && v.networks != []
    && exists k :: 0 <= k < |v.interfaces| && Allocates(v.interfaces[k], v.networks) && v.interfaces[k].mac.Garbled?
  }

  lemma {:induction false} InterfacesFailIff(r: Rebuild, v: string, nets: seq<Network>, ifs: seq<Interface>)
    ensures RebuildInterfaces(r, v, nets, ifs).failed <==>
            r.failed || exists k :: 0 <= k < |ifs| && Allocates(ifs[k], nets) && ifs[k].mac.Garbled?
  {
    if ifs != [] {
      var n := |ifs| - 1;
      InterfacesFailIff(r, v, nets, ifs[..n]);
      AllocatesIff(ifs[n], nets);
      forall k | 0 <= k < n ensures ifs[..n][k] == ifs[k] {
      }
    }
  }

  /** A start-up fails exactly on an address that does not parse, of a served interface of a VM with
      networks; duplicates do not make it fail. */
  lemma {:induction false} RebuildFailsIff(r: Rebuild, vms: seq<Vm>)
    ensures RebuildVms(r, vms).failed <==> r.failed || exists j :: 0 <= j < |vms| && BadAddress(vms[j])
  {
    if vms != [] {
      var n := |vms| - 1;
      RebuildFailsIff(r, vms[..n]);
      InterfacesFailIff(RebuildVms(r, vms[..n]), vms[n].FullName(), vms[n].networks, vms[n].interfaces);
      forall j | 0 <= j < n ensures vms[..n][j] == vms[j] {
      }
    }
  }

  ghost function SlotStep(r: Rebuild, s: Slot): Rebuild {
    var clash := s.mac in r.pool && !Belongs(r.pool[s.mac], s.inst, s.key);
    Rebuild(CreateOrUpdate(r.pool, s.mac, s.inst, s.key), r.duplicates + (if clash then 1 else 0), r.failed)
  }

  ghost function FoldLeft<R, A>(step: (R, A) -> R, r: R, xs: seq<A>): R {
    if xs == [] then r else step(FoldLeft(step, r, xs[..|xs| - 1]), xs[|xs| - 1])
  }

  lemma {:induction false} FoldSplit<R, A>(step: (R, A) -> R, r: R, a: seq<A>, b: seq<A>)
    ensures FoldLeft(step, r, a + b) == FoldLeft(step, FoldLeft(step, r, a), b)
  {
    if b == [] {
      assert a + b == a;
    } else {
      var n := |b| - 1;
      FoldSplit(step, r, a, b[..n]);
      assert (a + b)[..|a| + n] == a + b[..n];
    }
  }

  lemma FoldOne<R, A>(step: (R, A) -> R, r: R, x: A)
    ensures FoldLeft(step, r, [x]) == step(r, x) && FoldLeft(step, r, []) == r
  {
    assert FoldLeft(step, r, []) == r && [x][..|[x]| - 1] == [];
  }

  /** The scan over a list of slots. */
  ghost function Replay(r: Rebuild, slots: seq<Slot>): Rebuild {
    FoldLeft((p: Rebuild, s: Slot) => SlotStep(p, s), r, slots)
  }

  lemma ReplaySplit(r: Rebuild, a: seq<Slot>, b: seq<Slot>)
    ensures Replay(r, a + b) == Replay(Replay(r, a), b)
  {
    FoldSplit((p: Rebuild, s: Slot) => SlotStep(p, s), r, a, b);
  }

  lemma ReplayOne(r: Rebuild, s: Slot)
    ensures Replay(r, [s]) == SlotStep(r, s) && Replay(r, []) == r
  {
    FoldOne((p: Rebuild, s: Slot) => SlotStep(p, s), r, s);
  }

  lemma {:induction false} InterfacesReplay(r: Rebuild, v: string, nets: seq<Network>, ifs: seq<Interface>)
    requires !r.failed && !RebuildInterfaces(r, v, nets, ifs).failed
    ensures RebuildInterfaces(r, v, nets, ifs) == Replay(r, SlotsOf(v, nets, ifs))
  {
    if ifs != [] {
      var n := |ifs| - 1;
      var p, iface := RebuildInterfaces(r, v, nets, ifs[..n]), ifs[n];
      InterfacesReplay(r, v, nets, ifs[..n]);
      AllocatesIff(iface, nets);
      var more := if Allocates(iface, nets) && iface.mac.Written? then [Slot(v, iface.name, iface.mac.mac)] else [];
      StepReplay(p, v, nets, iface);
      ReplaySplit(r, SlotsOf(v, nets, ifs[..n]), more);
      assert SlotsOf(v, nets, ifs) == SlotsOf(v, nets, ifs[..n]) + more;
    }
  }

  lemma StepReplay(p: Rebuild, v: string, nets: seq<Network>, iface: Interface)
    requires !RebuildStep(p, v, nets, iface).failed && !p.failed
    ensures var counts := Allocates(iface, nets) && iface.mac.Written?;
            RebuildStep(p, v, nets, iface) == Replay(p, if counts then [Slot(v, iface.name, iface.mac.mac)] else [])
  {
    AllocatesIff(iface, nets);
    if iface.mac.Written? {
      ReplayOne(p, Slot(v, iface.name, iface.mac.mac));
    }
  }

  lemma {:induction false} VmsReplay(r: Rebuild, vms: seq<Vm>)
    requires !r.failed && !RebuildVms(r, vms).failed
    ensures RebuildVms(r, vms) == Replay(r, AllSlots(vms))
  {
    if vms != [] {
      var n := |vms| - 1;
      var vm, p := vms[n], RebuildVms(r, vms[..n]);
      InterfacesFailIff(p, vm.FullName(), vm.networks, vm.interfaces);
      VmsReplay(r, vms[..n]);
      if vm.networks == [] {
        assert AllSlots(vms[..n]) + [] == AllSlots(vms[..n]);
      } else if vm.interfaces == [] {
        assert SlotsOf(vm.FullName(), vm.networks, vm.interfaces) == [];
        assert AllSlots(vms[..n]) + [] == AllSlots(vms[..n]);
      } else {
        InterfacesReplay(p, vm.FullName(), vm.networks, vm.interfaces);
        ReplaySplit(r, AllSlots(vms[..n]), SlotsOf(vm.FullName(), vm.networks, vm.interfaces));
      }
    }
  }

  ghost predicate HasPair(M: MacMap, s: Slot) {
    exists e :: In(M, s.mac, e) && e.inst == s.inst && e.key == s.key
  }

  /** Slot n comes upon an address that has an entry, none of which is its own pair. */
  ghost predicate Duplicate(M: MacMap, slots: seq<Slot>, n: nat)
    requires n < |slots|
  {
    && (slots[n].mac in M || exists j :: 0 <= j < n && slots[j].mac == slots[n].mac)
    && !HasPair(M, slots[n]) && forall j :: 0 <= j < n ==> slots[j] != slots[n]
  }

  /** The slots before k that come upon an address taken by another pair. */
  ghost function Duplicates(M: MacMap, slots: seq<Slot>, k: nat): set<nat>
    requires k <= |slots|
  {
    set n: nat | n < k && Duplicate(M, slots, n)
  }

  ghost predicate Replayed(r: Rebuild, slots: seq<Slot>, k: nat, p: Rebuild)
    requires k <= |slots|
  {
    && WellFormed(p.pool)
    && (forall m :: m in p.pool <==> m in r.pool || exists j :: 0 <= j < k && slots[j].mac == m)
    && (forall s :: HasPair(p.pool, s) <==> HasPair(r.pool, s) || exists j :: 0 <= j < k && slots[j] == s)
    && (forall m, e :: In(p.pool, m, e) ==>
          In(r.pool, m, e) || (e.stamp.None? && exists j :: 0 <= j < k && slots[j] == Slot(e.inst, e.key, m)))
  }

  lemma BelongsIff(M: MacMap, s: Slot)
    ensures s.mac in M && Belongs(M[s.mac], s.inst, s.key) <==> HasPair(M, s)
  {
    if s.mac in M {
      var es, k := M[s.mac], PairAt(M[s.mac], s.inst, s.key);
      if k < |es| {
        assert In(M, s.mac, es[k]);
      }
    }
  }

  lemma SlotIn(M: MacMap, s: Slot, m: Mac, e: Entry)
    requires WellFormed(M)
    ensures var C := CreateOrUpdate(M, s.mac, s.inst, s.key);
            && (In(C, m, e) ==> In(M, m, e) || (e.stamp.None? && Slot(e.inst, e.key, m) == s))
            && (In(M, m, e) ==> exists f :: In(C, m, f) && f.inst == e.inst && f.key == e.key)
            && In(C, s.mac, Entry(s.inst, s.key, None))
  {
    CreateOrUpdateIn(M, s.mac, s.inst, s.key, m, e);
    CreateOrUpdateIn(M, s.mac, s.inst, s.key, s.mac, Entry(s.inst, s.key, None));
  }

  lemma SlotPairs(M: MacMap, s: Slot, x: Slot)
    requires WellFormed(M)
    ensures HasPair(CreateOrUpdate(M, s.mac, s.inst, s.key), x) <==> HasPair(M, x) || x == s
  {
    var C := CreateOrUpdate(M, s.mac, s.inst, s.key);
    if HasPair(C, x) {
      var e :| In(C, x.mac, e) && e.inst == x.inst && e.key == x.key;
      SlotIn(M, s, x.mac, e);
    }
    if HasPair(M, x) {
      var e :| In(M, x.mac, e) && e.inst == x.inst && e.key == x.key;
      SlotIn(M, s, x.mac, e);
    }
    SlotIn(M, s, s.mac, Entry(s.inst, s.key, None));
  }

  lemma ReplayedNext(r: Rebuild, slots: seq<Slot>, k: nat, p: Rebuild)
    requires k < |slots| && Replayed(r, slots, k, p)
    ensures Replayed(r, slots, k + 1, SlotStep(p, slots[k]))
    ensures SlotStep(p, slots[k]).duplicates == p.duplicates + (if Duplicate(r.pool, slots, k) then 1 else 0)
  {
    var s, q := slots[k], SlotStep(p, slots[k]);
    BelongsIff(p.pool, s);
    CreateOrUpdateOk(p.pool, s.mac, s.inst, s.key);
    PutEntries(p.pool, s.mac, Upsert(Entries(p.pool, s.mac), s.inst, s.key));
    forall x ensures HasPair(q.pool, x) <==> HasPair(p.pool, x) || x == s {
      SlotPairs(p.pool, s, x);
    }
    forall m, e | In(q.pool, m, e)
      ensures In(r.pool, m, e) || (e.stamp.None? && exists j :: 0 <= j < k + 1 && slots[j] == Slot(e.inst, e.key, m))
    {
      SlotIn(p.pool, s, m, e);
    }
  }

  lemma {:induction false} ReplayCounts(r: Rebuild, slots: seq<Slot>, k: nat)
    requires WellFormed(r.pool) && k <= |slots|
    ensures Replayed(r, slots, k, Replay(r, slots[..k]))
    ensures Replay(r, slots[..k]).duplicates == r.duplicates + |Duplicates(r.pool, slots, k)|
  {
    if k == 0 {
      assert Duplicates(r.pool, slots, k) == {};
    } else {
      var i := k - 1;
      ReplayCounts(r, slots, i);
      assert slots[..k][..i] == slots[..i];
      ReplayedNext(r, slots, i, Replay(r, slots[..i]));
      DuplicatesGrow(r.pool, slots, i);
      assert i + 1 == k;
    }
  }

  lemma DuplicatesGrow(M: MacMap, slots: seq<Slot>, i: nat)
    requires i < |slots|
    ensures |Duplicates(M, slots, i + 1)| == |Duplicates(M, slots, i)| + (if Duplicate(M, slots, i) then 1 else 0)
  {
    var S, T := Duplicates(M, slots, i), Duplicates(M, slots, i + 1);
    forall n ensures n in T <==> n in S || (n == i && Duplicate(M, slots, i)) {
    }
    if Duplicate(M, slots, i) {
      assert T == S + {i};
    } else {
      assert T == S;
    }
  }

  /** A start-up that does not fail counts one duplicate for every interface that comes upon an address
      with an entry that is not its own, records every interface it takes into account, keeps every
      pair of the map it starts from, and records nothing else. */
  lemma RebuildLaw(r: Rebuild, vms: seq<Vm>)
    requires WellFormed(r.pool) && !r.failed && forall j :: 0 <= j < |vms| ==> !BadAddress(vms[j])
    ensures var q, slots := RebuildVms(r, vms), AllSlots(vms);
            && !q.failed
            && q.duplicates == r.duplicates + |set n: nat | n < |slots| && Duplicate(r.pool, slots, n)|
            && (forall s :: HasPair(q.pool, s) <==> HasPair(r.pool, s) || s in slots)
            && (forall m, e :: In(q.pool, m, e) ==>
                In(r.pool, m, e) || (e.stamp.None? && Slot(e.inst, e.key, m) in slots))
  {
    var slots := AllSlots(vms);
    RebuildFailsIff(r, vms);
    VmsReplay(r, vms);
    ReplayCounts(r, slots, |slots|);
    assert slots[..|slots|] == slots;
  }
}
