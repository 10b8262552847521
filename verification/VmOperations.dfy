/** Admission of VM creates and updates on the MAC map (pkg/pool-manager/virtualmachine_pool.go).
    Two things the code leaves open are parameters here: `answers`, what the range allocator answers
    for each interface (nothing when the range is full), and the iteration orders of Go maps. */
module VmOperations {
  import opened Addresses
  import opened MacMaps
  import opened Transactions

  datatype Network = Network(name: string, multus: bool)

  datatype Vm = Vm(namespace: string, name: string, interfaces: seq<Interface>, networks: seq<Network>) {
    function FullName(): string {
      VmNamespaced(namespace, name)
    }
  }

  /** The network of that name (the last one wins) is a Multus attachment. */
  predicate MultusNamed(nets: seq<Network>, name: string) {
    nets != [] && (if nets[|nets| - 1].name == name then nets[|nets| - 1].multus
                   else MultusNamed(nets[..|nets| - 1], name))
  }

  predicate Supported(iface: Interface, nets: seq<Network>) {
    iface.masquerade || MultusNamed(nets, iface.name)
  }

  predicate NamesDistinct(ifs: seq<Interface>) {
    forall a, b :: 0 <= a < b < |ifs| ==> ifs[a].name != ifs[b].name
  }

  function NamesOf(ifs: seq<Interface>): set<string> {
    set k | 0 <= k < |ifs| :: ifs[k].name
  }

  /** What checkIntraVMDuplicateMACs accepts: every text parses or is empty, and no address is requested twice. */
  predicate RequestsDistinct(ifs: seq<Interface>) {
    && (forall a :: 0 <= a < |ifs| ==> !ifs[a].mac.Garbled?)
    && (forall a, b :: 0 <= a < b < |ifs| && ifs[a].mac.Written? && ifs[b].mac.Written? ==>
        ifs[a].mac.mac != ifs[b].mac.mac)
  }

  /** NewMacKey(text).String(): the canonical spelling, or nothing for text that does not parse. */
  function Normal(t: MacText): MacText {
    if t.Written? then Written(t.mac, 0) else Blank
  }

  /** Dry runs record nothing. */
  function Record(M: MacMap, m: Mac, v: string, i: string, live: bool): MacMap {
    if live then CreateOrUpdate(M, m, v, i) else M
  }

  /** An entry for the pair at m that is confirmed or carries exactly stamp t. */
  predicate FreshlyHeld(M: MacMap, m: Mac, v: string, i: string, t: int) {
    In(M, m, Entry(v, i, None)) || In(M, m, Entry(v, i, Some(t)))
  }

  lemma AdvanceKeepsFresh(A: MacMap, B: MacMap, v: string, t: int, m: Mac, i: string)
    requires Advance(A, B, v, t) && FreshlyHeld(A, m, v, i, t)
    ensures FreshlyHeld(B, m, v, i, t)
  {
    var e := if In(A, m, Entry(v, i, None)) then Entry(v, i, None) else Entry(v, i, Some(t));
    assert In(A, m, e);
  }

  lemma AdvanceTrans(A: MacMap, B: MacMap, C: MacMap, v: string, t: int)
    requires Advance(A, B, v, t) && Advance(B, C, v, t)
    ensures Advance(A, C, v, t)
  {
    forall m, e | In(A, m, e)
      ensures In(C, m, e) || (e.inst == v && (In(C, m, e.Cleared()) || In(C, m, e.Stamped(t))))
    {
      var f := if In(B, m, e) then e else if In(B, m, e.Cleared()) then e.Cleared() else e.Stamped(t);
      assert In(B, m, f);
      assert f.Cleared() == e.Cleared() && f.Stamped(t) == e.Stamped(t);
    }
  }

  lemma RecordAdvances(M: MacMap, m: Mac, v: string, i: string, t: int)
    requires WellFormed(M)
    ensures Advance(M, CreateOrUpdate(M, m, v, i), v, t)
  {
    var C := CreateOrUpdate(M, m, v, i);
    forall x, e | In(M, x, e)
      ensures In(C, x, e) || (e.inst == v && (In(C, x, e.Cleared()) || In(C, x, e.Stamped(t))))
    {
      CreateOrUpdateIn(M, m, v, i, x, e);
      CreateOrUpdateIn(M, m, v, i, x, e.Cleared());
    }
  }

  // ---- create ---------------------------------------------------------------------------------

  /** The variables of the allocation loop. */
  datatype CreateRun = CreateRun(pool: MacMap, allocs: map<string, MacText>, done: seq<Interface>, failed: bool)

  function CreateStep(r: CreateRun, v: string, nets: seq<Network>, live: bool,
                      iface: Interface, answer: Option<Mac>): CreateRun
  {
    if r.failed then r
    else if !Supported(iface, nets) then r.(done := r.done + [iface])
    else if !iface.mac.Blank? then
      if iface.mac.Garbled? then r.(failed := true)
      else CreateRun(Record(r.pool, iface.mac.mac, v, iface.name, live), r.allocs[iface.name := iface.mac],
                     r.done + [iface], false)
    else if answer.None? then r.(failed := true)
    else CreateRun(Record(r.pool, answer.value, v, iface.name, live),
                   r.allocs[iface.name := Written(answer.value, 0)],
                   r.done + [iface.(mac := Written(answer.value, 0))], false)
  }

  function CreateLoop(M: MacMap, v: string, nets: seq<Network>, live: bool,
                      ifs: seq<Interface>, answers: seq<Option<Mac>>): CreateRun
    requires |ifs| == |answers|
  {
    if ifs == [] then CreateRun(M, map[], [], false)
    else
      var n := |ifs| - 1;
      CreateStep(CreateLoop(M, v, nets, live, ifs[..n], answers[..n]), v, nets, live, ifs[n], answers[n])
  }

  /** The allocator never answers with an address that is a key of the map at that moment. */
  ghost predicate CreateAnswersFree(M: MacMap, v: string, nets: seq<Network>, live: bool,
                                    ifs: seq<Interface>, answers: seq<Option<Mac>>)
    requires |ifs| == |answers|
  {
    ifs != [] ==>
      var n := |ifs| - 1;
      && CreateAnswersFree(M, v, nets, live, ifs[..n], answers[..n])
      && (answers[n].Some? ==> answers[n].value !in CreateLoop(M, v, nets, live, ifs[..n], answers[..n]).pool)
  }

  datatype Outcome = Outcome(pool: MacMap, ok: bool, interfaces: seq<Interface>)

  /** AllocateVirtualMachineMac as a whole. */
  ghost function Allocate(M: MacMap, vm: Vm, t: int, live: bool,
                          answers: seq<Option<Mac>>, order: seq<string>): Outcome
    requires |answers| == |vm.interfaces|
    requires Enumerates(order, CreateLoop(M, vm.FullName(), vm.networks, live, vm.interfaces, answers).allocs.Keys)
  {
    var v := vm.FullName();
    if vm.interfaces == [] then Outcome(M, true, vm.interfaces)
    else if live && !RequestsDistinct(vm.interfaces) then Outcome(M, false, vm.interfaces)
    else if live && !NamesDistinct(vm.interfaces) then Outcome(M, false, vm.interfaces)
    else if vm.networks == [] then Outcome(M, true, vm.interfaces)
    else
      var r := CreateLoop(M, v, vm.networks, live, vm.interfaces, answers);
      var texts := Pick(r.allocs, order);
      if r.failed then Outcome(if live then RevertAll(r.pool, v, texts) else r.pool, false, vm.interfaces)
      else Outcome(if live then StampAll(r.pool, v, t, texts) else r.pool, true, r.done)
  }

  ghost predicate CreateRunOk(M: MacMap, v: string, nets: seq<Network>, t: int, ifs: seq<Interface>, r: CreateRun) {
    && Grown(M, r.pool, v, r.allocs)
    && Advance(M, r.pool, v, t)
    && r.allocs.Keys <= NamesOf(ifs)
    && (!r.failed ==> |r.done| == |ifs| && forall k :: 0 <= k < |ifs| ==>
        CreatedAs(r.pool, v, nets, t, ifs[k], r.done[k]))
  }

  /** What a successful create made of one requested interface. */
  predicate CreatedAs(pool: MacMap, v: string, nets: seq<Network>, t: int, asked: Interface, got: Interface) {
    && got.name == asked.name && got.masquerade == asked.masquerade
    && (!asked.mac.Blank? ==> got == asked)
    && (Supported(asked, nets) ==> got.mac.Written? && FreshlyHeld(pool, got.mac.mac, v, got.name, t))
    && (!Supported(asked, nets) ==> got == asked)
  }

  lemma CreatedStays(P: MacMap, Q: MacMap, v: string, nets: seq<Network>, t: int, asked: Interface, got: Interface)
    requires Advance(P, Q, v, t) && CreatedAs(P, v, nets, t, asked, got)
    ensures CreatedAs(Q, v, nets, t, asked, got)
  {
    if Supported(asked, nets) {
      AdvanceKeepsFresh(P, Q, v, t, got.mac.mac, got.name);
    }
  }

  lemma NamesGrow(ifs: seq<Interface>, iface: Interface)
    ensures NamesOf(ifs + [iface]) == NamesOf(ifs) + {iface.name}
  {
    var all := ifs + [iface];
    forall n | n in NamesOf(ifs) + {iface.name} ensures n in NamesOf(all) {
      if n in NamesOf(ifs) {
        var k :| 0 <= k < |ifs| && ifs[k].name == n;
        assert all[k].name == n;
      } else {
        assert all[|ifs|].name == n;
      }
    }
  }

  lemma CreateStepGrown(M: MacMap, v: string, nets: seq<Network>, t: int, p: CreateRun,
                        iface: Interface, answer: Option<Mac>)
    requires Grown(M, p.pool, v, p.allocs) && Advance(M, p.pool, v, t) && iface.name !in p.allocs
    ensures var r := CreateStep(p, v, nets, true, iface, answer);
            Grown(M, r.pool, v, r.allocs) && Advance(M, r.pool, v, t) && Advance(p.pool, r.pool, v, t)
            && (!r.failed ==> |r.done| == |p.done| + 1 && r.done[..|p.done|] == p.done
                              && CreatedAs(r.pool, v, nets, t, iface, r.done[|p.done|]))
            && r.allocs.Keys <= p.allocs.Keys + {iface.name} && (p.failed ==> r.failed)
  {
    var r := CreateStep(p, v, nets, true, iface, answer);
    if !r.failed && Supported(iface, nets) {
      RecordStep(M, p.pool, v, t, p.allocs, iface.name, if iface.mac.Blank? then Written(answer.value, 0)
                 else iface.mac);
    }
  }

  lemma CreateStepFacts(M: MacMap, v: string, nets: seq<Network>, t: int, ifs: seq<Interface>, p: CreateRun,
                        iface: Interface, answer: Option<Mac>)
    requires CreateRunOk(M, v, nets, t, ifs, p) && iface.name !in NamesOf(ifs)
    ensures CreateRunOk(M, v, nets, t, ifs + [iface], CreateStep(p, v, nets, true, iface, answer))
  {
    var r := CreateStep(p, v, nets, true, iface, answer);
    CreateStepGrown(M, v, nets, t, p, iface, answer);
    NamesGrow(ifs, iface);
    if !r.failed {
      forall k | 0 <= k < |ifs| + 1 ensures CreatedAs(r.pool, v, nets, t, (ifs + [iface])[k], r.done[k]) {
        if k < |ifs| {
          CreatedStays(p.pool, r.pool, v, nets, t, ifs[k], p.done[k]);
          assert r.done[k] == r.done[..|ifs|][k];
        }
      }
    }
  }

  lemma {:induction false} CreateLoopFacts(M: MacMap, v: string, nets: seq<Network>, t: int,
                                           ifs: seq<Interface>, answers: seq<Option<Mac>>)
    requires WellFormed(M) && NamesDistinct(ifs) && |ifs| == |answers|
    ensures CreateRunOk(M, v, nets, t, ifs, CreateLoop(M, v, nets, true, ifs, answers))
  {
    if ifs == [] {
      GrownStart(M, v);
    } else {
      var n := |ifs| - 1;
      CreateLoopFacts(M, v, nets, t, ifs[..n], answers[..n]);
      assert ifs[n].name !in NamesOf(ifs[..n]);
      CreateStepFacts(M, v, nets, t, ifs[..n], CreateLoop(M, v, nets, true, ifs[..n], answers[..n]), ifs[n],
                      answers[n]);
      assert ifs[..n] + [ifs[n]] == ifs;
    }
  }

  lemma RecordStep(M: MacMap, P: MacMap, v: string, t: int, allocs: map<string, MacText>, n: string, text: MacText)
    requires Grown(M, P, v, allocs) && Advance(M, P, v, t) && text.Written? && n !in allocs
    ensures Grown(M, CreateOrUpdate(P, text.mac, v, n), v, allocs[n := text])
    ensures Advance(P, CreateOrUpdate(P, text.mac, v, n), v, t)
    ensures Advance(M, CreateOrUpdate(P, text.mac, v, n), v, t)
    ensures FreshlyHeld(CreateOrUpdate(P, text.mac, v, n), text.mac, v, n, t)
  {
    GrownStep(M, P, v, allocs, n, text);
    RecordAdvances(P, text.mac, v, n, t);
    AdvanceTrans(M, P, CreateOrUpdate(P, text.mac, v, n), v, t);
  }

  /** A dry run, whatever becomes of it, leaves the map identical. */
  lemma {:induction false} CreateDryRunPure(M: MacMap, v: string, nets: seq<Network>,
                                            ifs: seq<Interface>, answers: seq<Option<Mac>>)
    requires |ifs| == |answers|
    ensures CreateLoop(M, v, nets, false, ifs, answers).pool == M
  {
    if ifs != [] {
      var n := |ifs| - 1;
      CreateDryRunPure(M, v, nets, ifs[..n], answers[..n]);
    }
  }

  lemma AllocateDryRun(M: MacMap, vm: Vm, t: int, answers: seq<Option<Mac>>, order: seq<string>)
    requires |answers| == |vm.interfaces|
    requires Enumerates(order, CreateLoop(M, vm.FullName(), vm.networks, false, vm.interfaces, answers).allocs.Keys)
    ensures Allocate(M, vm, t, false, answers, order).pool == M
  {
    CreateDryRunPure(M, vm.FullName(), vm.networks, vm.interfaces, answers);
  }

  /** The create reaches its allocation loop. */
  predicate CreateEntersLoop(vm: Vm) {
    vm.interfaces != [] && RequestsDistinct(vm.interfaces) && NamesDistinct(vm.interfaces) && vm.networks != []
  }

  /** A successful create removes nothing, leaves other instances alone, and records every supported
      interface of the VM it returns, confirmed or stamped with this transaction. */
  lemma AllocateSucceeds(M: MacMap, vm: Vm, t: int, answers: seq<Option<Mac>>, order: seq<string>)
    requires WellFormed(M) && |answers| == |vm.interfaces| && IsVmName(vm.FullName())
    requires Enumerates(order, CreateLoop(M, vm.FullName(), vm.networks, true, vm.interfaces, answers).allocs.Keys)
    requires Allocate(M, vm, t, true, answers, order).ok
    ensures var o := Allocate(M, vm, t, true, answers, order);
            && WellFormed(o.pool)
            && Advance(M, o.pool, vm.FullName(), t)
            && OthersSame(M, o.pool, vm.FullName())
            && (!CreateEntersLoop(vm) ==> o.pool == M && o.interfaces == vm.interfaces)
            && (CreateEntersLoop(vm) ==> |o.interfaces| == |vm.interfaces| && forall k :: 0 <= k < |vm.interfaces| ==>
                  CreatedAs(o.pool, vm.FullName(), vm.networks, t, vm.interfaces[k], o.interfaces[k]))
  {
    var v := vm.FullName();
    var o := Allocate(M, vm, t, true, answers, order);
    if CreateEntersLoop(vm) {
      CreateLoopFacts(M, v, vm.networks, t, vm.interfaces, answers);
      var r := CreateLoop(M, v, vm.networks, true, vm.interfaces, answers);
      StampAllAdvances(r.pool, v, t, Pick(r.allocs, order));
      AdvanceTrans(M, r.pool, o.pool, v, t);
      forall k | 0 <= k < |vm.interfaces|
        ensures CreatedAs(o.pool, v, vm.networks, t, vm.interfaces[k], o.interfaces[k])
      {
        if Supported(vm.interfaces[k], vm.networks) {
          AdvanceKeepsFresh(r.pool, o.pool, v, t, r.done[k].mac.mac, r.done[k].name);
        }
      }
    }
  }

  lemma FailedCreateReverts(M: MacMap, vm: Vm, t: int, answers: seq<Option<Mac>>, order: seq<string>)
    requires |answers| == |vm.interfaces|
    requires Enumerates(order, CreateLoop(M, vm.FullName(), vm.networks, true, vm.interfaces, answers).allocs.Keys)
    requires !Allocate(M, vm, t, true, answers, order).ok && CreateEntersLoop(vm)
    ensures var r := CreateLoop(M, vm.FullName(), vm.networks, true, vm.interfaces, answers);
            Allocate(M, vm, t, true, answers, order).pool == RevertAll(r.pool, vm.FullName(), Pick(r.allocs, order))
  {
  }

  /** A failed create restores the map exactly, list order included and for any revert order,
      precisely when the VM held none of the addresses the run had allocated before it failed. */
  lemma RevertedCreateIff(M: MacMap, vm: Vm, t: int, answers: seq<Option<Mac>>, order: seq<string>)
    requires WellFormed(M) && |answers| == |vm.interfaces|
    requires Enumerates(order, CreateLoop(M, vm.FullName(), vm.networks, true, vm.interfaces, answers).allocs.Keys)
    requires !Allocate(M, vm, t, true, answers, order).ok && CreateEntersLoop(vm)
    ensures var allocs := CreateLoop(M, vm.FullName(), vm.networks, true, vm.interfaces, answers).allocs;
            Allocate(M, vm, t, true, answers, order).pool == M
            <==> forall n :: n in allocs && allocs[n].Written? ==> !Holds(M, allocs[n].mac, vm.FullName())
  {
    FailedCreateReverts(M, vm, t, answers, order);
    CreateLoopFacts(M, vm.FullName(), vm.networks, t, vm.interfaces, answers);
    var r := CreateLoop(M, vm.FullName(), vm.networks, true, vm.interfaces, answers);
    assert Grown(M, r.pool, vm.FullName(), r.allocs);
    RevertRestoresIff(M, r.pool, vm.FullName(), r.allocs, order);
  }

  /** In particular for a VM without earlier entries. */
  lemma FailedCreateOfNewVm(M: MacMap, vm: Vm, t: int, answers: seq<Option<Mac>>, order: seq<string>)
    requires WellFormed(M) && |answers| == |vm.interfaces|
    requires Enumerates(order, CreateLoop(M, vm.FullName(), vm.networks, true, vm.interfaces, answers).allocs.Keys)
    requires !Allocate(M, vm, t, true, answers, order).ok
    requires forall m :: m in M ==> !Holds(M, m, vm.FullName())
    ensures Allocate(M, vm, t, true, answers, order).pool == M
  {
    if CreateEntersLoop(vm) {
      RevertedCreateIff(M, vm, t, answers, order);
    }
  }

  /** Blank supported requests were given addresses that are no key of M. */
  ghost predicate GivenFree(M: MacMap, nets: seq<Network>, ifs: seq<Interface>, done: seq<Interface>) {
    && |done| == |ifs|
    && forall k :: 0 <= k < |ifs| && ifs[k].mac.Blank? && Supported(ifs[k], nets) ==>
         done[k].mac.Written? && done[k].mac.mac !in M
  }

  /** Blank requests get addresses that no instance held. */
  lemma {:induction false} CreateIssuesFree(M: MacMap, v: string, nets: seq<Network>, ifs: seq<Interface>,
                                            answers: seq<Option<Mac>>)
    requires |ifs| == |answers| && CreateAnswersFree(M, v, nets, true, ifs, answers)
    ensures var r := CreateLoop(M, v, nets, true, ifs, answers);
            M.Keys <= r.pool.Keys && (!r.failed ==> GivenFree(M, nets, ifs, r.done))
  {
    if ifs != [] {
      var n := |ifs| - 1;
      CreateIssuesFree(M, v, nets, ifs[..n], answers[..n]);
      assert ifs[..n] + [ifs[n]] == ifs;
      CreateStepServes(M, CreateLoop(M, v, nets, true, ifs[..n], answers[..n]), v, nets, ifs[..n], ifs[n], answers[n]);
    }
  }

  lemma CreateStepServes(M: MacMap, p: CreateRun, v: string, nets: seq<Network>, ifs: seq<Interface>, iface: Interface,
                         answer: Option<Mac>)
    requires M.Keys <= p.pool.Keys && (answer.Some? ==> answer.value !in p.pool)
    requires !p.failed ==> GivenFree(M, nets, ifs, p.done)
    ensures var r := CreateStep(p, v, nets, true, iface, answer);
            M.Keys <= r.pool.Keys && (!r.failed ==> GivenFree(M, nets, ifs + [iface], r.done))
  {
  }

  // ---- update ---------------------------------------------------------------------------------

  /** currentInterfacesMap: the texts of the previous interfaces by name, the last one wins. */
  function CurrentTexts(ifs: seq<Interface>): map<string, MacText> {
    if ifs == [] then map[]
    else CurrentTexts(ifs[..|ifs| - 1])[ifs[|ifs| - 1].name := ifs[|ifs| - 1].mac]
  }

  datatype UpdateRun = UpdateRun(pool: MacMap, allocs: map<string, MacText>, delta: map<string, MacText>,
                                 release: map<string, MacText>, done: seq<Interface>, failed: bool)

  function UpdateStep(u: UpdateRun, cur: map<string, MacText>, v: string, live: bool,
                      iface: Interface, answer: Option<Mac>): UpdateRun
  {
    var name := iface.name;
    if u.failed then u
    else if name in cur then
      var cut := u.(delta := u.delta - {name});
      if iface.mac.Blank? then
        cut.(allocs := u.allocs[name := cur[name]], done := u.done + [iface.(mac := cur[name])])
      else if Normal(iface.mac) != cur[name] then
        if iface.mac.Garbled? then u.(failed := true)
        else cut.(pool := Record(u.pool, iface.mac.mac, v, name, live), release := u.release[name := cur[name]],
                  allocs := u.allocs[name := iface.mac], done := u.done + [iface])
      else cut.(done := u.done + [iface])
    else if !iface.mac.Blank? then
      if iface.mac.Garbled? then u.(failed := true)
      else u.(pool := Record(u.pool, iface.mac.mac, v, name, live), allocs := u.allocs[name := iface.mac],
              done := u.done + [iface])
    else if answer.None? then u.(failed := true)
    else u.(pool := Record(u.pool, answer.value, v, name, live), allocs := u.allocs[name := Written(answer.value, 0)],
            done := u.done + [iface.(mac := Written(answer.value, 0))])
  }

  function UpdateLoop(M: MacMap, cur: map<string, MacText>, v: string, live: bool,
                      ifs: seq<Interface>, answers: seq<Option<Mac>>): UpdateRun
    requires |ifs| == |answers|
  {
    if ifs == [] then UpdateRun(M, map[], cur, map[], [], false)
    else
      var n := |ifs| - 1;
      UpdateStep(UpdateLoop(M, cur, v, live, ifs[..n], answers[..n]), cur, v, live, ifs[n], answers[n])
  }

  ghost predicate UpdateAnswersFree(M: MacMap, cur: map<string, MacText>, v: string, live: bool,
                                    ifs: seq<Interface>, answers: seq<Option<Mac>>)
    requires |ifs| == |answers|
  {
    ifs != [] ==>
      var n := |ifs| - 1;
      && UpdateAnswersFree(M, cur, v, live, ifs[..n], answers[..n])
      && (answers[n].Some? ==> answers[n].value !in UpdateLoop(M, cur, v, live, ifs[..n], answers[..n]).pool)
  }

  /** The orders in which the three maps of an update are walked. */
  datatype Orders = Orders(allocs: seq<string>, delta: seq<string>, release: seq<string>)

  ghost predicate OrdersFit(o: Orders, u: UpdateRun) {
    && Enumerates(o.allocs, u.allocs.Keys)
    && Enumerates(o.delta, u.delta.Keys)
    && Enumerates(o.release, u.release.Keys)
  }

  /** UpdateMacAddressesForVirtualMachine as a whole, for an existing previous VM. */
  ghost function Update(M: MacMap, prev: seq<Interface>, vm: Vm, t: int, live: bool,
                        answers: seq<Option<Mac>>, o: Orders): Outcome
    requires |answers| == |vm.interfaces|
    requires OrdersFit(o, UpdateLoop(M, CurrentTexts(prev), vm.FullName(), live, vm.interfaces, answers))
  {
    var v := vm.FullName();
    if live && !RequestsDistinct(vm.interfaces) then Outcome(M, false, vm.interfaces)
    else if live && !NamesDistinct(vm.interfaces) then Outcome(M, false, vm.interfaces)
    else
      var u := UpdateLoop(M, CurrentTexts(prev), v, live, vm.interfaces, answers);
      if u.failed then Outcome(if live then RevertAll(u.pool, v, Pick(u.allocs, o.allocs)) else u.pool, false,
                               vm.interfaces)
      else if !live then Outcome(u.pool, true, u.done)
      else
        var s1 := StampAll(u.pool, v, t, Pick(u.allocs, o.allocs));
        var s2 := StampAll(s1, v, t, Pick(u.delta, o.delta));
        Outcome(StampAll(s2, v, t, Pick(u.release, o.release)), true, u.done)
  }

  /** The interface is new on the VM, or its address differs from the recorded text. */
  predicate Touched(cur: map<string, MacText>, iface: Interface) {
    iface.name !in cur || (!iface.mac.Blank? && Normal(iface.mac) != cur[iface.name])
  }

  /** What a successful update made of one requested interface. */
  predicate UpdatedAs(pool: MacMap, cur: map<string, MacText>, v: string, t: int, asked: Interface, got: Interface) {
    && got.name == asked.name && got.masquerade == asked.masquerade
    && (!asked.mac.Blank? ==> got == asked)
    && (Touched(cur, asked) ==> got.mac.Written? && FreshlyHeld(pool, got.mac.mac, v, got.name, t))
    && (!Touched(cur, asked) ==> Normal(got.mac) == Normal(cur[asked.name]))
    && (asked.mac.Blank? && asked.name in cur ==> got.mac == cur[asked.name])
  }

  ghost predicate UpdateRunOk(M: MacMap, cur: map<string, MacText>, v: string, t: int, ifs: seq<Interface>,
                              u: UpdateRun) {
    && Grown(M, u.pool, v, u.allocs)
    && Advance(M, u.pool, v, t)
    && u.allocs.Keys <= NamesOf(ifs)
    && (!u.failed ==> |u.done| == |ifs| && forall k :: 0 <= k < |ifs| ==>
        UpdatedAs(u.pool, cur, v, t, ifs[k], u.done[k]))
  }

  lemma UpdatedStays(P: MacMap, Q: MacMap, cur: map<string, MacText>, v: string, t: int, asked: Interface,
                     got: Interface)
    requires Advance(P, Q, v, t) && UpdatedAs(P, cur, v, t, asked, got)
    ensures UpdatedAs(Q, cur, v, t, asked, got)
  {
    if Touched(cur, asked) {
      AdvanceKeepsFresh(P, Q, v, t, got.mac.mac, got.name);
    }
  }

  /** What one round of the update loop does to the map and to newAllocations. */
  ghost predicate UpdateEffect(p: UpdateRun, u: UpdateRun, cur: map<string, MacText>, v: string, iface: Interface,
                               answer: Option<Mac>) {
    if u.failed then u.pool == p.pool && u.allocs == p.allocs
    else if Touched(cur, iface) then
      && (if iface.mac.Blank? then answer.Some? else iface.mac.Written?)
      && var text := if iface.mac.Blank? then Written(answer.value, 0) else iface.mac;
         u.pool == CreateOrUpdate(p.pool, text.mac, v, iface.name) && u.allocs == p.allocs[iface.name := text]
    else
      && u.pool == p.pool
      && u.allocs == if iface.mac.Blank? then p.allocs[iface.name := cur[iface.name]] else p.allocs
  }

  lemma UpdateStepEffect(p: UpdateRun, cur: map<string, MacText>, v: string, iface: Interface, answer: Option<Mac>)
    ensures UpdateEffect(p, UpdateStep(p, cur, v, true, iface, answer), cur, v, iface, answer)
  {
  }

  lemma EffectGrown(M: MacMap, cur: map<string, MacText>, v: string, t: int, p: UpdateRun, u: UpdateRun,
                    iface: Interface, answer: Option<Mac>)
    requires Grown(M, p.pool, v, p.allocs) && Advance(M, p.pool, v, t) && iface.name !in p.allocs
    requires UpdateEffect(p, u, cur, v, iface, answer)
    ensures Grown(M, u.pool, v, u.allocs) && Advance(M, u.pool, v, t) && Advance(p.pool, u.pool, v, t)
  {
    if !u.failed && Touched(cur, iface) {
      RecordStep(M, p.pool, v, t, p.allocs, iface.name, if iface.mac.Blank? then Written(answer.value, 0)
                 else iface.mac);
    } else if !u.failed && iface.mac.Blank? {
      GrownNote(M, p.pool, v, p.allocs, iface.name, cur[iface.name]);
    }
  }

  lemma UpdateStepGrown(M: MacMap, cur: map<string, MacText>, v: string, t: int, p: UpdateRun,
                        iface: Interface, answer: Option<Mac>)
    requires Grown(M, p.pool, v, p.allocs) && Advance(M, p.pool, v, t) && iface.name !in p.allocs
    ensures var u := UpdateStep(p, cur, v, true, iface, answer);
            Grown(M, u.pool, v, u.allocs) && Advance(M, u.pool, v, t) && Advance(p.pool, u.pool, v, t)
  {
    UpdateStepEffect(p, cur, v, iface, answer);
    EffectGrown(M, cur, v, t, p, UpdateStep(p, cur, v, true, iface, answer), iface, answer);
  }

  lemma UpdateStepDone(cur: map<string, MacText>, v: string, t: int, p: UpdateRun, iface: Interface,
                       answer: Option<Mac>)
    requires WellFormed(p.pool)
    ensures var u := UpdateStep(p, cur, v, true, iface, answer);
            && (!u.failed ==> |u.done| == |p.done| + 1 && u.done[..|p.done|] == p.done
                              && UpdatedAs(u.pool, cur, v, t, iface, u.done[|p.done|]))
            && u.allocs.Keys <= p.allocs.Keys + {iface.name} && (p.failed ==> u.failed)
  {
    var u := UpdateStep(p, cur, v, true, iface, answer);
    if !u.failed && Touched(cur, iface) {
      var m := if iface.mac.Blank? then answer.value else iface.mac.mac;
      CreateOrUpdateIn(p.pool, m, v, iface.name, m, Entry(v, iface.name, None));
    }
  }

  lemma UpdateStepFacts(M: MacMap, cur: map<string, MacText>, v: string, t: int, ifs: seq<Interface>, p: UpdateRun,
                        iface: Interface, answer: Option<Mac>)
    requires UpdateRunOk(M, cur, v, t, ifs, p) && iface.name !in NamesOf(ifs)
    ensures UpdateRunOk(M, cur, v, t, ifs + [iface], UpdateStep(p, cur, v, true, iface, answer))
  {
    var u := UpdateStep(p, cur, v, true, iface, answer);
    UpdateStepGrown(M, cur, v, t, p, iface, answer);
    UpdateStepDone(cur, v, t, p, iface, answer);
    NamesGrow(ifs, iface);
    if !u.failed {
      forall k | 0 <= k < |ifs| + 1 ensures UpdatedAs(u.pool, cur, v, t, (ifs + [iface])[k], u.done[k]) {
        if k < |ifs| {
          UpdatedStays(p.pool, u.pool, cur, v, t, ifs[k], p.done[k]);
          assert u.done[k] == u.done[..|ifs|][k];
        }
      }
    }
  }

  lemma {:induction false} UpdateLoopFacts(M: MacMap, cur: map<string, MacText>, v: string, t: int,
                                           ifs: seq<Interface>, answers: seq<Option<Mac>>)
    requires WellFormed(M) && NamesDistinct(ifs) && |ifs| == |answers|
    ensures UpdateRunOk(M, cur, v, t, ifs, UpdateLoop(M, cur, v, true, ifs, answers))
  {
    if ifs == [] {
      GrownStart(M, v);
    } else {
      var n := |ifs| - 1;
      UpdateLoopFacts(M, cur, v, t, ifs[..n], answers[..n]);
      assert ifs[n].name !in NamesOf(ifs[..n]);
      UpdateStepFacts(M, cur, v, t, ifs[..n], UpdateLoop(M, cur, v, true, ifs[..n], answers[..n]), ifs[n], answers[n]);
      assert ifs[..n] + [ifs[n]] == ifs;
    }
  }

  lemma {:induction false} UpdateDryRunPure(M: MacMap, cur: map<string, MacText>, v: string,
                                            ifs: seq<Interface>, answers: seq<Option<Mac>>)
    requires |ifs| == |answers|
    ensures UpdateLoop(M, cur, v, false, ifs, answers).pool == M
  {
    if ifs != [] {
      var n := |ifs| - 1;
      UpdateDryRunPure(M, cur, v, ifs[..n], answers[..n]);
      DryStepPure(UpdateLoop(M, cur, v, false, ifs[..n], answers[..n]), cur, v, ifs[n], answers[n]);
    }
  }

  lemma DryStepPure(u: UpdateRun, cur: map<string, MacText>, v: string, iface: Interface, answer: Option<Mac>)
    ensures UpdateStep(u, cur, v, false, iface, answer).pool == u.pool
  {
  }

  lemma UpdateDryRun(M: MacMap, prev: seq<Interface>, vm: Vm, t: int, answers: seq<Option<Mac>>, o: Orders)
    requires |answers| == |vm.interfaces|
    requires OrdersFit(o, UpdateLoop(M, CurrentTexts(prev), vm.FullName(), false, vm.interfaces, answers))
    ensures Update(M, prev, vm, t, false, answers, o).pool == M
  {
    UpdateDryRunPure(M, CurrentTexts(prev), vm.FullName(), vm.interfaces, answers);
  }

  lemma ThreeStamps(M: MacMap, v: string, t: int, a: seq<MacText>, b: seq<MacText>, c: seq<MacText>)
    requires WellFormed(M) && IsVmName(v)
    ensures var R := StampAll(StampAll(StampAll(M, v, t, a), v, t, b), v, t, c);
            WellFormed(R) && Advance(M, R, v, t) && OthersSame(M, R, v)
  {
    var s1 := StampAll(M, v, t, a);
    var s2 := StampAll(s1, v, t, b);
    StampAllAdvances(M, v, t, a);
    StampAllAdvances(s1, v, t, b);
    StampAllAdvances(s2, v, t, c);
    AdvanceTrans(M, s1, s2, v, t);
    AdvanceTrans(M, s2, StampAll(s2, v, t, c), v, t);
  }

  /** A successful update covers both versions of the VM: nothing recorded before is removed (so the
      previous VM's pairs stay), other instances are untouched, and every new or changed interface
      is recorded, confirmed or stamped with this transaction. */
  lemma UpdateSucceeds(M: MacMap, prev: seq<Interface>, vm: Vm, t: int, answers: seq<Option<Mac>>, o: Orders)
    requires WellFormed(M) && |answers| == |vm.interfaces| && IsVmName(vm.FullName())
    requires OrdersFit(o, UpdateLoop(M, CurrentTexts(prev), vm.FullName(), true, vm.interfaces, answers))
    requires Update(M, prev, vm, t, true, answers, o).ok
    ensures var r := Update(M, prev, vm, t, true, answers, o);
            && WellFormed(r.pool)
            && Advance(M, r.pool, vm.FullName(), t)
            && OthersSame(M, r.pool, vm.FullName())
            && NamesDistinct(vm.interfaces)
            && |r.interfaces| == |vm.interfaces|
            && forall k :: 0 <= k < |vm.interfaces| ==>
                 UpdatedAs(r.pool, CurrentTexts(prev), vm.FullName(), t, vm.interfaces[k], r.interfaces[k])
  {
    var v, cur := vm.FullName(), CurrentTexts(prev);
    UpdateLoopFacts(M, cur, v, t, vm.interfaces, answers);
    var u := UpdateLoop(M, cur, v, true, vm.interfaces, answers);
    var r := Update(M, prev, vm, t, true, answers, o);
    ThreeStamps(u.pool, v, t, Pick(u.allocs, o.allocs), Pick(u.delta, o.delta), Pick(u.release, o.release));
    AdvanceTrans(M, u.pool, r.pool, v, t);
    forall k | 0 <= k < |vm.interfaces|
      ensures UpdatedAs(r.pool, cur, v, t, vm.interfaces[k], r.interfaces[k])
    {
      if Touched(cur, vm.interfaces[k]) {
        AdvanceKeepsFresh(u.pool, r.pool, v, t, u.done[k].mac.mac, u.done[k].name);
      }
    }
  }

  lemma FailedUpdateReverts(M: MacMap, prev: seq<Interface>, vm: Vm, t: int, answers: seq<Option<Mac>>, o: Orders)
    requires |answers| == |vm.interfaces|
    requires OrdersFit(o, UpdateLoop(M, CurrentTexts(prev), vm.FullName(), true, vm.interfaces, answers))
    requires !Update(M, prev, vm, t, true, answers, o).ok
    requires RequestsDistinct(vm.interfaces) && NamesDistinct(vm.interfaces)
    ensures var u := UpdateLoop(M, CurrentTexts(prev), vm.FullName(), true, vm.interfaces, answers);
            Update(M, prev, vm, t, true, answers, o).pool == RevertAll(u.pool, vm.FullName(), Pick(u.allocs, o.allocs))
  {
  }

  /** A failed update leaves the map as it was exactly when the VM held none of the addresses in
      newAllocations, which also lists addresses kept for blank requests. */
  lemma RevertedUpdateIff(M: MacMap, prev: seq<Interface>, vm: Vm, t: int, answers: seq<Option<Mac>>, o: Orders)
    requires WellFormed(M) && |answers| == |vm.interfaces|
    requires OrdersFit(o, UpdateLoop(M, CurrentTexts(prev), vm.FullName(), true, vm.interfaces, answers))
    requires !Update(M, prev, vm, t, true, answers, o).ok
    requires RequestsDistinct(vm.interfaces) && NamesDistinct(vm.interfaces)
    ensures var allocs := UpdateLoop(M, CurrentTexts(prev), vm.FullName(), true, vm.interfaces, answers).allocs;
            Update(M, prev, vm, t, true, answers, o).pool == M
            <==> forall n :: n in allocs && allocs[n].Written? ==> !Holds(M, allocs[n].mac, vm.FullName())
  {
    FailedUpdateReverts(M, prev, vm, t, answers, o);
    var cur := CurrentTexts(prev);
    UpdateLoopFacts(M, cur, vm.FullName(), t, vm.interfaces, answers);
    var u := UpdateLoop(M, cur, vm.FullName(), true, vm.interfaces, answers);
    assert Grown(M, u.pool, vm.FullName(), u.allocs);
    RevertRestoresIff(M, u.pool, vm.FullName(), u.allocs, o.allocs);
  }

  /** A blank request kept the old address or got one that no instance held. */
  predicate BlankServed(M: MacMap, cur: map<string, MacText>, asked: Interface, got: Interface) {
    asked.mac.Blank? ==>
      if asked.name in cur then got.mac == cur[asked.name] else got.mac.Written? && got.mac.mac !in M
  }

  ghost predicate AllServed(M: MacMap, cur: map<string, MacText>, ifs: seq<Interface>, done: seq<Interface>) {
    |done| == |ifs| && forall k :: 0 <= k < |ifs| ==> BlankServed(M, cur, ifs[k], done[k])
  }

  lemma {:induction false} UpdateIssuesFree(M: MacMap, cur: map<string, MacText>, v: string,
                                            ifs: seq<Interface>, answers: seq<Option<Mac>>)
    requires |ifs| == |answers| && UpdateAnswersFree(M, cur, v, true, ifs, answers)
    ensures var u := UpdateLoop(M, cur, v, true, ifs, answers);
            M.Keys <= u.pool.Keys && (!u.failed ==> AllServed(M, cur, ifs, u.done))
  {
    if ifs != [] {
      var n := |ifs| - 1;
      UpdateIssuesFree(M, cur, v, ifs[..n], answers[..n]);
      assert ifs[..n] + [ifs[n]] == ifs;
      UpdateStepServes(M, UpdateLoop(M, cur, v, true, ifs[..n], answers[..n]), cur, v, ifs[..n], ifs[n], answers[n]);
    }
  }

  lemma UpdateStepKeys(p: UpdateRun, cur: map<string, MacText>, v: string, iface: Interface, answer: Option<Mac>)
    ensures p.pool.Keys <= UpdateStep(p, cur, v, true, iface, answer).pool.Keys
  {
  }

  /** The interface a round returns for a blank request. */
  lemma UpdateStepGives(M: MacMap, p: UpdateRun, cur: map<string, MacText>, v: string, iface: Interface,
                        answer: Option<Mac>) returns (got: Interface)
    requires answer.Some? ==> answer.value !in M
    requires !UpdateStep(p, cur, v, true, iface, answer).failed
    ensures !p.failed && UpdateStep(p, cur, v, true, iface, answer).done == p.done + [got]
    ensures BlankServed(M, cur, iface, got)
  {
    got := if !iface.mac.Blank? then iface
           else if iface.name in cur then iface.(mac := cur[iface.name])
           else iface.(mac := Written(answer.value, 0));
  }

  lemma UpdateStepServes(M: MacMap, p: UpdateRun, cur: map<string, MacText>, v: string,
                         ifs: seq<Interface>, iface: Interface, answer: Option<Mac>)
    requires M.Keys <= p.pool.Keys && (answer.Some? ==> answer.value !in p.pool)
    requires !p.failed ==> AllServed(M, cur, ifs, p.done)
    ensures var u := UpdateStep(p, cur, v, true, iface, answer);
            M.Keys <= u.pool.Keys && (!u.failed ==> AllServed(M, cur, ifs + [iface], u.done))
  {
    UpdateStepKeys(p, cur, v, iface, answer);
    if !UpdateStep(p, cur, v, true, iface, answer).failed {
      var got := UpdateStepGives(M, p, cur, v, iface, answer);
      ServedNext(M, cur, ifs, p.done, iface, got);
    }
  }

  lemma ServedNext(M: MacMap, cur: map<string, MacText>, ifs: seq<Interface>, done: seq<Interface>,
                   iface: Interface, got: Interface)
    requires AllServed(M, cur, ifs, done) && BlankServed(M, cur, iface, got)
    ensures AllServed(M, cur, ifs + [iface], done + [got])
  {
  }
}
