/** What the guards of the protocol's steps are for, and that they leave runs to speak of: a run that
    grants an address, and for each guard what happens without it. */
module Witnesses {
  import opened Addresses
  import opened MacMaps
  import opened Transactions
  import opened VmOperations
  import opened Failures
  import opened Healing
  import opened Protocol
  import opened AdmissionLaws

  // ---- runs that grant something --------------------------------------------------------------

  function OneNic(id: VmId, n: string, m: Mac): Vm {
    Vm(id.ns, id.name, [Interface(n, Written(m, 0), true)], [Network("default", false)])
  }

  lemma OneNicAdmitted(id: VmId, n: string, m: Mac)
    ensures var vm := OneNic(id, n, m);
            var r := CreateLoop(map[], vm.FullName(), vm.networks, true, vm.interfaces, [None]);
            && !r.failed && r.done == vm.interfaces && r.allocs == map[n := Written(m, 0)]
            && CreateAnswersFree(map[], vm.FullName(), vm.networks, true, vm.interfaces, [None])
            && CreatePairs(vm, vm.interfaces) == {(n, m)}
            && Enumerates([n], r.allocs.Keys)
  {
    var vm := OneNic(id, n, m);
    var none: seq<Option<Mac>> := [None];
    assert vm.interfaces[..0] == [] && none[..0] == [];
    var p := CreateLoop(map[], vm.FullName(), vm.networks, true, vm.interfaces[..0], none[..0]);
    assert p == CreateRun(map[], map[], [], false);
    assert Supported(vm.interfaces[0], vm.networks);
  }

  /** The state after admitting it in an empty cluster, with stamp 1. */
  ghost function Admitted(id: VmId, n: string, m: Mac): State {
    OneNicAdmitted(id, n, m);
    State(Allocate(map[], OneNic(id, n, m), 1, true, [None], [n]).pool, map[],
          {Request(id, None, Wanted(id, n, m), Some(1))}, {}, 0, 0)
  }

  function Wanted(id: VmId, n: string, m: Mac): Version {
    Version(OneNic(id, n, m).interfaces, Some(1), false, {(n, m)}, 0)
  }

  lemma GrantAdmitted(id: VmId, n: string, m: Mac, wait: nat)
    requires Named(id)
    ensures Next(State(map[], map[], {}, {}, 0, 0), AdmitCreate(OneNic(id, n, m), 1, [None], [n]), Admitted(id, n, m),
                 wait)
    ensures In(MarkReady(Admitted(id, n, m).pool, Inst(id), 1, OneNic(id, n, m).interfaces), m,
               Entry(Inst(id), n, None))
  {
    OneNicAdmitted(id, n, m);
    OneNicAllocated(id, n, m);
    GrantedEntry(id, n, m, Allocate(map[], OneNic(id, n, m), 1, true, [None], [n]));
  }

  lemma OneNicAllocated(id: VmId, n: string, m: Mac)
    requires Enumerates([n], CreateLoop(map[], OneNic(id, n, m).FullName(), OneNic(id, n, m).networks, true,
                                        OneNic(id, n, m).interfaces, [None]).allocs.Keys)
    ensures var o := Allocate(map[], OneNic(id, n, m), 1, true, [None], [n]);
            o.ok && o.interfaces == OneNic(id, n, m).interfaces
  {
    OneNicAdmitted(id, n, m);
    var vm := OneNic(id, n, m);
    assert RequestsDistinct(vm.interfaces) && NamesDistinct(vm.interfaces);
  }

  lemma ThreeSteps(s0: State, s1: State, s2: State, s3: State, a: Step, b: Step, c: Step, wait: nat, pods: MacMap,
                   vms: seq<Vm>)
    requires Init(s0, pods, vms) && Next(s0, a, s1, wait) && Next(s1, b, s2, wait) && Next(s2, c, s3, wait)
    ensures IsRun([s0, s1, s2, s3], [a, b, c], wait, pods, vms)
  {
    var states, steps := [s0, s1, s2, s3], [a, b, c];
    forall k | 0 <= k < 3 ensures Next(states[k], steps[k], states[k + 1], wait) {
      assert k == 0 || k == 1 || k == 2;
    }
  }

  /** A VM asking for any address is granted it by a run of admission, persistence and commit: the
      step relation is not empty, and the entry ends up confirmed. */
  lemma GrantingRun(id: VmId, n: string, m: Mac, wait: nat) returns (states: seq<State>, steps: seq<Step>)
    requires Named(id)
    ensures IsRun(states, steps, wait, map[], []) && |steps| == 3
    ensures id in states[3].cluster && states[3].cluster[id] != [] && !Last(states[3].cluster[id]).deleting
    ensures Last(states[3].cluster[id]).recorded == {(n, m)} && In(states[3].pool, m, Entry(Inst(id), n, None))
  {
    var want := Wanted(id, n, m);
    var r := Request(id, None, want, Some(1));
    var s0, s1 := State(map[], map[], {}, {}, 0, 0), Admitted(id, n, m);
    var s2 := s1.(cluster := map[id := [want]], inflight := {}, next := 1);
    var s3 := s2.(pool := MarkReady(s1.pool, Inst(id), 1, want.interfaces));
    GrantAdmitted(id, n, m, wait);
    GrantPersisted(s1, s2, r, wait);
    GrantCommitted(s2, s3, id, want, wait);
    ThreeSteps(s0, s1, s2, s3, AdmitCreate(OneNic(id, n, m), 1, [None], [n]), Persist(r), Reconcile(id, want), wait,
               map[], []);
    states, steps := [s0, s1, s2, s3], [AdmitCreate(OneNic(id, n, m), 1, [None], [n]), Persist(r), Reconcile(id, want)];
  }

  lemma GrantPersisted(s: State, s': State, r: Request, wait: nat)
    requires s.cluster == map[] && s.inflight == {r} && r.base.None? && s.next == r.want.num == 0
    requires s' == s.(cluster := map[r.id := [r.want]], inflight := {}, next := 1)
    ensures Next(s, Persist(r), s', wait)
  {
    assert Hist(s, r.id) + [r.want.(num := 0)] == [r.want];
  }

  lemma GrantCommitted(s: State, s': State, id: VmId, w: Version, wait: nat)
    requires s.cluster == map[id := [w]] && !w.deleting && w.stamp.Some?
    requires s' == s.(pool := MarkReady(s.pool, Inst(id), w.stamp.value, w.interfaces))
    ensures Next(s, Reconcile(id, w), s', wait)
  {
  }

  lemma GrantedEntry(id: VmId, n: string, m: Mac, o: Outcome)
    requires Named(id)
    requires var vm := OneNic(id, n, m);
             Enumerates([n], CreateLoop(map[], vm.FullName(), vm.networks, true, vm.interfaces, [None]).allocs.Keys)
             && o == Allocate(map[], vm, 1, true, [None], [n]) && o.ok && o.interfaces == vm.interfaces
    ensures In(MarkReady(o.pool, Inst(id), 1, o.interfaces), m, Entry(Inst(id), n, None))
  {
    var vm := OneNic(id, n, m);
    InstIsVmName(id);
    AllocateSucceeds(map[], vm, 1, [None], [n]);
    assert Supported(vm.interfaces[0], vm.networks) && OnVm(o.interfaces, m, n);
    var e := if In(o.pool, m, Entry(Inst(id), n, None)) then Entry(Inst(id), n, None) else Entry(Inst(id), n, Some(1));
    assert In(o.pool, m, e);
    MarkReadyExact(o.pool, Inst(id), 1, o.interfaces, m, e);
  }

  // ---- why the side conditions are there ------------------------------------------------------

  /** Without UpdateHarmless: a failed update whose request names, before the loop's end, an address
      the VM held takes the VM's first entry there away. */
  lemma FailedUpdateLoses(M: MacMap, prev: seq<Interface>, vm: Vm, t: int, answers: seq<Option<Mac>>, o: Orders, j: nat)
    requires WellFormed(M) && |answers| == |vm.interfaces|
    requires OrdersFit(o, UpdateLoop(M, CurrentTexts(prev), vm.FullName(), true, vm.interfaces, answers))
    requires !Update(M, prev, vm, t, true, answers, o).ok
    requires RequestsDistinct(vm.interfaces) && NamesDistinct(vm.interfaces)
    requires j < UpdateEnd(vm.interfaces, CurrentTexts(prev), answers)
    requires AskedHeld(M, vm.FullName(), CurrentTexts(prev), vm.interfaces[j])
    ensures var m := Asked(CurrentTexts(prev), vm.interfaces[j]).mac;
            var first := Entries(M, m)[FirstOf(Entries(M, m), vm.FullName())];
            !Recorded(Update(M, prev, vm, t, true, answers, o).pool, m, vm.FullName(), first.key)
  {
    var v, cur, ifs := vm.FullName(), CurrentTexts(prev), vm.interfaces;
    UpdateLoopFacts(M, cur, v, t, ifs, answers);
    UpdateNotesAll(M, cur, v, true, ifs, answers);
    FailedUpdateReverts(M, prev, vm, t, answers, o);
    var u := UpdateLoop(M, cur, v, true, ifs, answers);
    var m := Asked(cur, ifs[j]).mac;
    assert LastNote(ifs, UpdateNotes(ifs, cur, answers), UpdateEnd(ifs, cur, answers), j);
    RevertDropsFirst(u.pool, v, Pick(u.allocs, o.allocs), m, ifs[j].name, u.allocs, o.allocs);
    var R := Update(M, prev, vm, t, true, answers, o).pool;
    var first := Entries(M, m)[FirstOf(Entries(M, m), v)];
    forall st ensures !In(R, m, Entry(v, first.key, st)) {
      assert In(R, m, Entry(v, first.key, st)) ==> Entry(v, first.key, st) in Entries(R, m);
    }
  }

  /** Without InOrder, within one VM: an entry stamped at or before a version that does not carry its
      pair is dropped by a reconcile of that version, and a request granting the pair may persist
      right after. */
  lemma LateStampLoses(s: State, s1: State, s2: State, id: VmId, seen: Version, r: Request, i: string, m: Mac, st: int,
                       wait: nat)
    requires WellFormed(s.pool) && In(s.pool, m, Entry(Inst(id), i, Some(st)))
    requires !seen.deleting && seen.stamp.Some? && st <= seen.stamp.value && !OnVm(seen.interfaces, m, i)
    requires Next(s, Reconcile(id, seen), s1, wait)
    requires r.id == id && (i, m) in r.want.recorded && Next(s1, Persist(r), s2, wait)
    ensures (i, m) in Last(s2.cluster[id]).recorded && !Recorded(s2.pool, m, Inst(id), i)
  {
    MarkReadyExact(s.pool, Inst(id), seen.stamp.value, seen.interfaces, m, Entry(Inst(id), i, Some(st)));
  }

  /** A live VM with one interface, as a start-up leaves it. */
  function Started(id: VmId, a: string, m: Mac, clock: int): State {
    State(map[m := [Entry(Inst(id), a, None)]],
          map[id := [Version(OneNic(id, a, m).interfaces, None, false, {(a, m)}, 0)]],
          {}, {}, clock, 1)
  }

  lemma StartedPool(id: VmId, a: string, m: Mac)
    ensures var vm := OneNic(id, a, m);
            RebuildVms(Rebuild(map[], 0, false), [vm]) == Rebuild(map[m := [Entry(Inst(id), a, None)]], 0, false)
  {
    var vm := OneNic(id, a, m);
    var r0, v := Rebuild(map[], 0, false), vm.FullName();
    assert [vm][..0] == [] && vm.interfaces[..0] == [];
    assert Supported(vm.interfaces[0], vm.networks);
    assert RebuildInterfaces(r0, v, vm.networks, vm.interfaces[..0]) == r0;
    assert RebuildVms(r0, [vm][..0]) == r0;
    assert Upsert([], v, a) == [Entry(v, a, None)];
    assert RebuildStep(r0, v, vm.networks, vm.interfaces[0]) == Rebuild(map[m := [Entry(v, a, None)]], 0, false);
  }

  lemma StartedIsInit(id: VmId, a: string, m: Mac, clock: int)
    requires Named(id)
    ensures Init(Started(id, a, m, clock), map[], [OneNic(id, a, m)])
  {
    StartedPool(id, a, m);
    var vm := OneNic(id, a, m);
    assert StartPairs(vm) == {(a, m)} by {
      assert Counted(vm, 0);
    }
    assert [vm][0].FullName() == Inst(id) && [vm][0].interfaces == vm.interfaces && StartPairs([vm][0]) == {(a, m)};
  }

  /** The VM with a second interface b. */
  function TwoNics(id: VmId, a: string, m: Mac, b: string, x: MacText): Vm {
    Vm(id.ns, id.name, [Interface(a, Written(m, 0), true), Interface(b, x, true)], [Network("default", false)])
  }

  lemma SecondNicRun(M: MacMap, id: VmId, a: string, m0: Mac, b: string, m1: Mac)
    requires a != b
    ensures var vm, cur := TwoNics(id, a, m0, b, Written(m1, 0)), CurrentTexts(OneNic(id, a, m0).interfaces);
            && UpdateAnswersFree(M, cur, vm.FullName(), true, vm.interfaces, [None, None])
            && UpdateLoop(M, cur, vm.FullName(), true, vm.interfaces, [None, None])
               == UpdateRun(CreateOrUpdate(M, m1, vm.FullName(), b), map[b := Written(m1, 0)], map[], map[],
                            vm.interfaces, false)
  {
    var vm, prev := TwoNics(id, a, m0, b, Written(m1, 0)), OneNic(id, a, m0).interfaces;
    OneText(prev);
    TwoRounds(M, CurrentTexts(prev), vm.FullName(), vm.interfaces);
    var p := UpdateStep(UpdateRun(M, map[], CurrentTexts(prev), map[], [], false), CurrentTexts(prev), vm.FullName(),
                        true,
                        vm.interfaces[0], None);
    assert p == UpdateRun(M, map[], map[], map[], [vm.interfaces[0]], false);
    assert [vm.interfaces[0]] + [vm.interfaces[1]] == vm.interfaces;
  }

  lemma SecondNicFits(M: MacMap, id: VmId, a: string, m0: Mac, b: string, m1: Mac)
    requires a != b
    ensures var vm, cur := TwoNics(id, a, m0, b, Written(m1, 0)), CurrentTexts(OneNic(id, a, m0).interfaces);
            && UpdateAnswersFree(M, cur, vm.FullName(), true, vm.interfaces, [None, None])
            && OrdersFit(Orders([b], [], []), UpdateLoop(M, cur, vm.FullName(), true, vm.interfaces, [None, None]))
  {
    SecondNicRun(M, id, a, m0, b, m1);
  }

  /** Adding b at m1 to that VM succeeds and leaves its entry stamped. */
  lemma SecondNic(M: MacMap, id: VmId, a: string, m0: Mac, b: string, m1: Mac, t: int)
    requires a != b && m0 != m1 && m1 !in M
    requires var vm, cur := TwoNics(id, a, m0, b, Written(m1, 0)), CurrentTexts(OneNic(id, a, m0).interfaces);
             OrdersFit(Orders([b], [], []), UpdateLoop(M, cur, vm.FullName(), true, vm.interfaces, [None, None]))
    ensures var vm, prev := TwoNics(id, a, m0, b, Written(m1, 0)), OneNic(id, a, m0).interfaces;
            var o := Update(M, prev, vm, t, true, [None, None], Orders([b], [], []));
            o.ok && o.interfaces == vm.interfaces && In(o.pool, m1, Entry(Inst(id), b, Some(t)))
  {
    var vm, prev := TwoNics(id, a, m0, b, Written(m1, 0)), OneNic(id, a, m0).interfaces;
    SecondNicRun(M, id, a, m0, b, m1);
    assert RequestsDistinct(vm.interfaces) && NamesDistinct(vm.interfaces);
    StampedUpdate(M, prev, vm, t, [None, None], Orders([b], [], []));
    PicksOfOne(b, Written(m1, 0));
    StampedOne(CreateOrUpdate(M, m1, vm.FullName(), b), vm.FullName(), b, m1, t);
  }

  lemma PicksOfOne(b: string, text: MacText)
    ensures Pick(map[b := text], [b]) == [text]
    ensures var none: map<string, MacText> := map[]; Pick(none, []) == []
  {
    assert [b][1..] == [] && Pick(map[b := text], []) == [];
  }

  /** A live update that passes its loop ends in the three stampings. */
  lemma StampedUpdate(M: MacMap, prev: seq<Interface>, vm: Vm, t: int, answers: seq<Option<Mac>>, o: Orders)
    requires |answers| == |vm.interfaces| && RequestsDistinct(vm.interfaces) && NamesDistinct(vm.interfaces)
    requires OrdersFit(o, UpdateLoop(M, CurrentTexts(prev), vm.FullName(), true, vm.interfaces, answers))
    requires !UpdateLoop(M, CurrentTexts(prev), vm.FullName(), true, vm.interfaces, answers).failed
    ensures var u, v := UpdateLoop(M, CurrentTexts(prev), vm.FullName(), true, vm.interfaces, answers), vm.FullName();
            var s1 := StampAll(u.pool, v, t, Pick(u.allocs, o.allocs));
            var s2 := StampAll(s1, v, t, Pick(u.delta, o.delta));
            Update(M, prev, vm, t, true, answers, o)
            == Outcome(StampAll(s2, v, t, Pick(u.release, o.release)), true, u.done)
  {
  }

  lemma OneText(ifs: seq<Interface>)
    requires |ifs| == 1
    ensures CurrentTexts(ifs) == map[ifs[0].name := ifs[0].mac]
  {
    assert ifs[..0] == [];
  }

  lemma StampedOne(M: MacMap, v: string, n: string, m: Mac, t: int)
    requires m in M && M[m] == [Entry(v, n, None)]
    ensures In(StampAll(M, v, t, [Written(m, 0)]), m, Entry(v, n, Some(t)))
  {
    assert [Written(m, 0)][1..] == [];
    assert Known(M, Written(m, 0), v);
    assert StampList(Entries(M, m), v, t) == [Entry(v, n, Some(t))];
    PutEntries(M, m, [Entry(v, n, Some(t))]);
  }

  /** What a client makes of that VM by setting its stamp annotation to T. */
  function Forged(id: VmId, a: string, m: Mac, T: int, num: nat): Version {
    Version(OneNic(id, a, m).interfaces, Some(T), false, {(a, m)}, num)
  }

  lemma ForgedStep(id: VmId, a: string, m: Mac, clock: int, T: int, wait: nat)
    requires Named(id)
    ensures var s := Started(id, a, m, clock);
            Next(s, AdmitUntouched(id, Some(Last(s.cluster[id])), OneNic(id, a, m).interfaces, Some(T)),
                 s.(inflight := {Request(id, Some(0), Forged(id, a, m, T, 0), None)}), wait)
  {
    var ifs := OneNic(id, a, m).interfaces;
    assert StillOn({(a, m)}, ifs) == {(a, m)} by {
      assert ifs[0].mac.mac == m && ifs[0].name == a;
      assert OnVm(ifs, m, a);
    }
    var s, r := Started(id, a, m, clock), Request(id, Some(0), Forged(id, a, m, T, 0), None);
    assert s.inflight + {r} == {r};
    assert Hist(s, id)[0] == Last(s.cluster[id]);
  }

  /** The state in which the forged stamp is on the current version. */
  function ForgedState(id: VmId, a: string, m: Mac, clock: int, T: int): State {
    var s := Started(id, a, m, clock);
    s.(cluster := map[id := [s.cluster[id][0], Forged(id, a, m, T, 1)]], next := 2)
  }

  lemma PersistNext(s: State, s': State, r: Request, h: seq<Version>, wait: nat)
    requires s.inflight == {r} && Persistable(s, r) && Hist(s, r.id) == h
    requires s' == s.(cluster := s.cluster[r.id := h + [r.want.(num := s.next)]], inflight := {}, next := s.next + 1)
    ensures Next(s, Persist(r), s', wait)
  {
  }

  lemma ForgedPersists(id: VmId, a: string, m: Mac, clock: int, T: int, wait: nat)
    requires Named(id)
    ensures var r := Request(id, Some(0), Forged(id, a, m, T, 0), None);
            Next(Started(id, a, m, clock).(inflight := {r}), Persist(r), ForgedState(id, a, m, clock, T), wait)
  {
    var r := Request(id, Some(0), Forged(id, a, m, T, 0), None);
    var s := Started(id, a, m, clock).(inflight := {r});
    var h := s.cluster[id];
    assert h + [r.want.(num := s.next)] == [h[0], Forged(id, a, m, T, 1)];
    assert s.cluster[id := h + [r.want.(num := s.next)]] == map[id := [h[0], Forged(id, a, m, T, 1)]];
    PersistNext(s, ForgedState(id, a, m, clock, T), r, h, wait);
  }

  /** The update that adds b, admitted without regard to order. */
  ghost function LateRequest(id: VmId, a: string, m0: Mac, b: string, m1: Mac, t: int): Request {
    var ifs, vm := OneNic(id, a, m0).interfaces, TwoNics(id, a, m0, b, Written(m1, 0));
    UpdateRequest(vm, ifs, Forged(id, a, m0, t, 1), vm.interfaces, t)
  }

  lemma LateAdmitted(id: VmId, a: string, m0: Mac, b: string, m1: Mac, t: int, T: int, wait: nat) returns (s': State)
    requires Named(id) && a != b && m0 != m1
    ensures var s := ForgedState(id, a, m0, t, T);
            && AdmitUpdateEffect(s, s', TwoNics(id, a, m0, b, Written(m1, 0)), OneNic(id, a, m0).interfaces,
                                 Forged(id, a, m0, T, 1), t,
                                 [None, None], Orders([b], [], []), wait)
            && s' == s.(pool := s'.pool, inflight := {LateRequest(id, a, m0, b, m1, t)})
    ensures WellFormed(s'.pool) && In(s'.pool, m1, Entry(Inst(id), b, Some(t)))
  {
    var s := ForgedState(id, a, m0, t, T);
    var ifs, vm := OneNic(id, a, m0).interfaces, TwoNics(id, a, m0, b, Written(m1, 0));
    SecondNicFits(s.pool, id, a, m0, b, m1);
    SecondNic(s.pool, id, a, m0, b, m1, t);
    InstIsVmName(id);
    UpdateSucceeds(s.pool, ifs, vm, t, [None, None], Orders([b], [], []));
    s' := s.(pool := Update(s.pool, ifs, vm, t, true, [None, None], Orders([b], [], [])).pool,
             inflight := {LateRequest(id, a, m0, b, m1, t)});
    assert s.inflight + {LateRequest(id, a, m0, b, m1, t)} == s'.inflight;
    assert Hist(s, id)[1] == Forged(id, a, m0, T, 1);
  }

  lemma LateGrants(id: VmId, a: string, m0: Mac, b: string, m1: Mac, t: int)
    requires a != b
    ensures (b, m1) in LateRequest(id, a, m0, b, m1, t).want.recorded
  {
    var ifs, vm := OneNic(id, a, m0).interfaces, TwoNics(id, a, m0, b, Written(m1, 0));
    OneText(ifs);
    assert vm.interfaces[1].name == b && Touched(CurrentTexts(ifs), vm.interfaces[1]);
  }

  /** A run on which that happens: a client sets the stamp annotation of a live VM to T, and that
      persists; an update stamped t, no later than T, adds an interface; a reconcile of the version
      with T drops its entry; the update persists. Only InOrder forbids the third step. */
  lemma LateStampRun(id: VmId, a: string, m0: Mac, b: string, m1: Mac, t: int, T: int, wait: nat)
      returns (s1: State, s3: State, s4: State, s5: State)
    requires Named(id) && a != b && m0 != m1 && t <= T
    ensures Init(Started(id, a, m0, t), map[], [OneNic(id, a, m0)])
    ensures Next(Started(id, a, m0, t),
                 AdmitUntouched(id, Some(Last(Started(id, a, m0, t).cluster[id])), OneNic(id, a, m0).interfaces,
                                Some(T)), s1, wait)
    ensures Next(s1, Persist(Request(id, Some(0), Forged(id, a, m0, T, 0), None)), ForgedState(id, a, m0, t, T), wait)
    ensures AdmitUpdateEffect(ForgedState(id, a, m0, t, T), s3, TwoNics(id, a, m0, b, Written(m1, 0)),
                              OneNic(id, a, m0).interfaces,
                              Forged(id, a, m0, T, 1), t, [None, None], Orders([b], [], []), wait)
    ensures Next(s3, Reconcile(id, Forged(id, a, m0, T, 1)), s4, wait)
    ensures Next(s4, Persist(LateRequest(id, a, m0, b, m1, t)), s5, wait)
    ensures id in s5.cluster && s5.cluster[id] != [] && !Last(s5.cluster[id]).deleting
    ensures (b, m1) in Last(s5.cluster[id]).recorded && !Recorded(s5.pool, m1, Inst(id), b)
  {
    StartedIsInit(id, a, m0, t);
    ForgedStep(id, a, m0, t, T, wait);
    ForgedPersists(id, a, m0, t, T, wait);
    s1 := Started(id, a, m0, t).(inflight := {Request(id, Some(0), Forged(id, a, m0, T, 0), None)});
    s3 := LateAdmitted(id, a, m0, b, m1, t, T, wait);
    s4, s5 := LateEnd(s3, id, a, m0, b, m1, t, T, wait);
  }

  lemma LateEnd(s3: State, id: VmId, a: string, m0: Mac, b: string, m1: Mac, t: int, T: int, wait: nat)
      returns (s4: State, s5: State)
    requires Named(id) && a != b && t <= T && m0 != m1
    requires s3 == ForgedState(id, a, m0, t, T).(pool := s3.pool, inflight := {LateRequest(id, a, m0, b, m1, t)})
    requires WellFormed(s3.pool) && In(s3.pool, m1, Entry(Inst(id), b, Some(t)))
    ensures Next(s3, Reconcile(id, Forged(id, a, m0, T, 1)), s4, wait)
    ensures Next(s4, Persist(LateRequest(id, a, m0, b, m1, t)), s5, wait)
    ensures id in s5.cluster && s5.cluster[id] != [] && !Last(s5.cluster[id]).deleting
    ensures (b, m1) in Last(s5.cluster[id]).recorded && !Recorded(s5.pool, m1, Inst(id), b)
  {
    var r, w := LateRequest(id, a, m0, b, m1, t), Forged(id, a, m0, T, 1);
    var h := s3.cluster[id];
    assert h[1] == w;
    s4 := s3.(pool := MarkReady(s3.pool, Inst(id), T, w.interfaces));
    s5 := s4.(cluster := s4.cluster[id := h + [r.want.(num := s4.next)]], inflight := {}, next := s4.next + 1);
    assert Next(s3, Reconcile(id, w), s4, wait);
    PersistNext(s4, s5, r, h, wait);
    LateGrants(id, a, m0, b, m1, t);
    LateStampLoses(s3, s4, s5, id, w, r, b, m1, t, wait);
  }

  /** A step on which a failing update empties the map of a live VM: only the condition on failing
      updates forbids it. */
  lemma FailedUpdateStepLoses(id: VmId, a: string, m: Mac, b: string, t: int, wait: nat)
    requires Named(id) && a != b
    ensures var s := Started(id, a, m, t);
            var vm := Vm(id.ns, id.name, [Interface(a, Blank, true), Interface(b, Blank, true)],
                         [Network("default", false)]);
            && Init(s, map[], [OneNic(id, a, m)])
            && AdmitUpdateEffect(s, s.(pool := map[]), vm, OneNic(id, a, m).interfaces, Last(s.cluster[id]), t,
                                 [None, None], Orders([a], [], []), wait)
  {
    StartedIsInit(id, a, m, t);
    FailedUpdateEmpties(id.ns, id.name, [Network("default", false)], a, b, m, t);
  }

  /** Without Unshared: a release keeps all entries of the others exactly when the instance shares no
      address. */
  lemma ReleaseTakesSharers(M: MacMap, v: string)
    ensures (forall m, e :: In(M, m, e) && e.inst != v ==> In(ReleaseAll(M, v), m, e)) <==> Unshared(M, v)
  {
  }

  // ---- the pairs a run is about ---------------------------------------------------------------

  /** The interface asks for m, or is blank and answered with m. */
  ghost predicate GetsAddress(asked: Interface, answer: Option<Mac>, m: Mac) {
    (asked.mac.Written? && asked.mac.mac == m) || (asked.mac.Blank? && answer == Some(m))
  }

  /** A granted create makes the pool responsible for exactly the interfaces that are masquerade or
      Multus attachments, each at the address it asks for or was given. */
  lemma CreateTakesOn(M: MacMap, vm: Vm, t: int, answers: seq<Option<Mac>>, order: seq<string>, n: string, m: Mac)
    requires |answers| == |vm.interfaces| && vm.networks != []
    requires Enumerates(order, CreateLoop(M, vm.FullName(), vm.networks, true, vm.interfaces, answers).allocs.Keys)
    requires Allocate(M, vm, t, true, answers, order).ok
    ensures (n, m) in CreatePairs(vm, Allocate(M, vm, t, true, answers, order).interfaces) <==>
            exists k :: 0 <= k < |vm.interfaces| && vm.interfaces[k].name == n
                        && Allocates(vm.interfaces[k], vm.networks) && GetsAddress(vm.interfaces[k], answers[k], m)
  {
    var ifs, got := vm.interfaces, Allocate(M, vm, t, true, answers, order).interfaces;
    CreateReturns(M, vm, t, true, answers, order);
    forall k | 0 <= k < |ifs|
      ensures Allocates(ifs[k], vm.networks) <==> Supported(ifs[k], vm.networks)
      ensures got[k].name == ifs[k].name
      ensures Allocates(ifs[k], vm.networks) ==>
                got[k].mac.Written? && (got[k].mac.mac == m <==> GetsAddress(ifs[k], answers[k], m))
    {
      AllocatesIff(ifs[k], vm.networks);
    }
  }

  /** A granted update makes it responsible for exactly the interfaces that are new or changed, and
      those its base version had on record, each at the address it comes back with. */
  lemma UpdateTakesOn(prev: seq<Interface>, had: set<(string, Mac)>, vm: Vm, got: seq<Interface>, n: string, m: Mac)
    requires |got| == |vm.interfaces|
    ensures (n, m) in UpdatePairs(prev, had, vm, got) <==>
            exists k :: 0 <= k < |got| && got[k].name == n && got[k].mac.Written? && got[k].mac.mac == m
                        && (Changed(prev, vm.interfaces[k]) || (n, m) in had)
  {
    forall k | 0 <= k < |got|
      ensures Changed(prev, vm.interfaces[k]) <==> Touched(CurrentTexts(prev), vm.interfaces[k])
    {
      ChangedIff(prev, vm.interfaces[k]);
    }
  }

  /** A start-up for exactly the interfaces with an address that are masquerade or Multus attachments. */
  lemma StartTakesOn(vm: Vm, n: string, m: Mac)
    ensures (n, m) in StartPairs(vm) <==>
            vm.networks != []
            && exists k :: 0 <= k < |vm.interfaces| && vm.interfaces[k].name == n
                           && Allocates(vm.interfaces[k], vm.networks)
                           && vm.interfaces[k].mac.Written? && vm.interfaces[k].mac.mac == m
  {
    forall k | 0 <= k < |vm.interfaces|
      ensures Allocates(vm.interfaces[k], vm.networks) <==> Supported(vm.interfaces[k], vm.networks)
    {
      AllocatesIff(vm.interfaces[k], vm.networks);
    }
  }
}
