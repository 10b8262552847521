/** What creates, updates and pod admissions do, told on the fields of the request and the entries of
    the map alone (pkg/pool-manager/virtualmachine_pool.go, pod_pool.go). */
module AdmissionLaws {
  import opened Addresses
  import opened MacMaps
  import opened Transactions
  import opened VmOperations
  import opened Failures
  import opened Healing

  // ---- which interfaces are served ------------------------------------------------------------

  /** The last network of that name is a Multus attachment. */
  ghost predicate OnMultus(nets: seq<Network>, name: string) {
    exists k :: 0 <= k < |nets| && nets[k].name == name && nets[k].multus
                && forall j :: k < j < |nets| ==> nets[j].name != name
  }

  /** Masquerade interfaces and Multus attachments get addresses. */
  ghost predicate Allocates(iface: Interface, nets: seq<Network>) {
    iface.masquerade || OnMultus(nets, iface.name)
  }

  lemma {:induction false} MultusIff(nets: seq<Network>, name: string)
    ensures MultusNamed(nets, name) <==> OnMultus(nets, name)
  {
    if nets != [] {
      var n := |nets| - 1;
      MultusIff(nets[..n], name);
      if nets[n].name != name && OnMultus(nets[..n], name) {
        var k :| 0 <= k < n && nets[..n][k].name == name && nets[..n][k].multus
                 && forall j :: k < j < n ==> nets[..n][j].name != name;
        forall j | k < j < |nets| ensures nets[j].name != name {
          assert j < n ==> nets[..n][j] == nets[j];
        }
      }
      if OnMultus(nets, name) && nets[n].name != name {
        var k :| 0 <= k < |nets| && nets[k].name == name && nets[k].multus && forall j :: k < j < |nets| ==>
              nets[j].name != name;
        assert nets[..n][k] == nets[k];
        assert forall j :: k < j < n ==> nets[..n][j] == nets[j];
      }
    }
  }

  lemma AllocatesIff(iface: Interface, nets: seq<Network>)
    ensures Allocates(iface, nets) <==> Supported(iface, nets)
  {
    MultusIff(nets, iface.name);
  }

  // ---- stamps ---------------------------------------------------------------------------------

  /** The first entry of v at m carries stamp t. */
  ghost predicate FirstStamped(M: MacMap, m: Mac, v: string, t: int) {
    m in M && exists k :: 0 <= k < |M[m]| && M[m][k].inst == v && M[m][k].stamp == Some(t)
                          && forall j :: 0 <= j < k ==> M[m][j].inst != v
  }

  lemma StampedListFirst(M: MacMap, P: MacMap, m: Mac, v: string, t: int)
    requires Holds(P, m, v) && Entries(M, m) == StampList(Entries(P, m), v, t)
    ensures FirstStamped(M, m, v, t)
  {
    var es, k := Entries(P, m), FirstOf(Entries(P, m), v);
    assert Entries(M, m)[k] == es[k].Stamped(t);
    assert Entries(M, m) != [];
    assert M[m][k].inst == v && M[m][k].stamp == Some(t);
  }

  /** Stamping reaches exactly the addresses listed before the first unknown one. */
  lemma {:induction false} ReachedIff(M: MacMap, v: string, texts: seq<MacText>, m: Mac)
    ensures m in Reached(M, v, texts) <==>
            exists j :: 0 <= j < |texts| && texts[j].Written? && texts[j].mac == m
                        && forall i :: 0 <= i <= j ==> Known(M, texts[i], v)
  {
    if texts != [] && Known(M, texts[0], v) {
      ReachedIff(M, v, texts[1..], m);
      if j :| 0 <= j < |texts| && texts[j].Written? && texts[j].mac == m && forall i :: 0 <= i <= j ==>
            Known(M, texts[i], v) {
        if j > 0 {
          assert texts[1..][j - 1] == texts[j];
          assert forall i :: 0 <= i <= j - 1 ==> texts[1..][i] == texts[i + 1];
        }
      }
      if m in Reached(M, v, texts[1..]) {
        var j :| 0 <= j < |texts[1..]| && texts[1..][j].Written? && texts[1..][j].mac == m
                 && forall i :: 0 <= i <= j ==> Known(M, texts[1..][i], v);
        forall i | 0 <= i <= j + 1 ensures Known(M, texts[i], v) {
          assert i > 0 ==> texts[i] == texts[1..][i - 1];
        }
        assert texts[j + 1] == texts[1..][j];
      }
    }
  }

  lemma {:induction false} PickAt(allocs: map<string, MacText>, order: seq<string>)
    requires forall n :: n in order ==> n in allocs
    ensures |Pick(allocs, order)| == |order| && forall j :: 0 <= j < |order| ==>
              Pick(allocs, order)[j] == allocs[order[j]]
  {
    if order != [] {
      PickAt(allocs, order[1..]);
    }
  }

  ghost predicate AllKnownTexts(P: MacMap, v: string, allocs: map<string, MacText>) {
    forall n :: n in allocs ==> Known(P, allocs[n], v)
  }

  ghost predicate NamedIn(allocs: map<string, MacText>, x: Mac) {
    exists n :: n in allocs && AllocatedAt(allocs, n, x)
  }

  lemma ReachedAll(P: MacMap, v: string, allocs: map<string, MacText>, order: seq<string>, x: Mac)
    requires Enumerates(order, allocs.Keys) && AllKnownTexts(P, v, allocs)
    ensures x in Reached(P, v, Pick(allocs, order)) <==> NamedIn(allocs, x)
  {
    var texts := Pick(allocs, order);
    PickAt(allocs, order);
    ReachedIff(P, v, texts, x);
    forall i | 0 <= i < |texts| ensures Known(P, texts[i], v) && order[i] in allocs {
    }
    if NamedIn(allocs, x) {
      var n :| n in allocs && AllocatedAt(allocs, n, x);
      var j :| 0 <= j < |order| && order[j] == n;
      assert texts[j].mac == x;
    }
  }

  /** When all addresses of a stamping are known, exactly their lists get the stamp. */
  lemma StampAllKnown(P: MacMap, v: string, t: int, allocs: map<string, MacText>, order: seq<string>, x: Mac)
    requires Enumerates(order, allocs.Keys) && AllKnownTexts(P, v, allocs)
    ensures Entries(StampAll(P, v, t, Pick(allocs, order)), x)
            == if NamedIn(allocs, x) then StampList(Entries(P, x), v, t) else Entries(P, x)
  {
    ReachedAll(P, v, allocs, order, x);
    StampAllExact(P, v, t, Pick(allocs, order));
  }

  // ---- create ---------------------------------------------------------------------------------

  /** What a create returns for one interface: the pool's answer where it was asked for one. */
  ghost predicate CreatedFrom(asked: Interface, nets: seq<Network>, answer: Option<Mac>, got: Interface) {
    if Allocates(asked, nets) && asked.mac.Blank? then answer.Some? && got == asked.(mac := Written(answer.value, 0))
    else got == asked && (Allocates(asked, nets) ==> asked.mac.Written?)
  }

  /** Live or dry, a successful create fills exactly the blank interfaces it serves, each with the
      range's answer, and returns all others as they came. */
  lemma CreateReturns(M: MacMap, vm: Vm, t: int, live: bool, answers: seq<Option<Mac>>, order: seq<string>)
    requires |answers| == |vm.interfaces| && vm.networks != []
    requires Enumerates(order, CreateLoop(M, vm.FullName(), vm.networks, live, vm.interfaces, answers).allocs.Keys)
    requires Allocate(M, vm, t, live, answers, order).ok
    ensures var got := Allocate(M, vm, t, live, answers, order).interfaces;
            && |got| == |vm.interfaces|
            && forall k :: 0 <= k < |got| ==> CreatedFrom(vm.interfaces[k], vm.networks, answers[k], got[k])
  {
    var ifs, nets := vm.interfaces, vm.networks;
    assert ifs[..|ifs|] == ifs && answers[..|ifs|] == answers;
    CreateFills(M, vm.FullName(), nets, live, ifs, answers, |ifs|);
    forall k | 0 <= k < |ifs| ensures Allocates(ifs[k], nets) <==> Supported(ifs[k], nets) {
      AllocatesIff(ifs[k], nets);
    }
  }

  /** A create succeeds exactly when it has no interfaces or, after passing the checks if it is live,
      no networks, or every interface it serves parses and is not left without an answer. */
  lemma CreateOkIff(M: MacMap, vm: Vm, t: int, live: bool, answers: seq<Option<Mac>>, order: seq<string>)
    requires |answers| == |vm.interfaces|
    requires Enumerates(order, CreateLoop(M, vm.FullName(), vm.networks, live, vm.interfaces, answers).allocs.Keys)
    ensures var ifs := vm.interfaces;
            Allocate(M, vm, t, live, answers, order).ok <==>
            ifs == [] ||
            ((live ==> ChecksPass(ifs))
             && (vm.networks == [] || forall j :: 0 <= j < |ifs| && Allocates(ifs[j], vm.networks) ==>
                   !ifs[j].mac.Garbled? && (ifs[j].mac.Blank? ==> answers[j].Some?)))
  {
    CreateNotesAll(M, vm.FullName(), vm.networks, live, vm.interfaces, answers);
    CreateEndsIff(vm.interfaces, vm.networks, answers);
  }

  lemma CreateEndsIff(ifs: seq<Interface>, nets: seq<Network>, answers: seq<Option<Mac>>)
    requires |ifs| == |answers|
    ensures CreateEnd(ifs, nets, answers) == |ifs| <==>
            forall j :: 0 <= j < |ifs| && Allocates(ifs[j], nets) ==>
              !ifs[j].mac.Garbled? && (ifs[j].mac.Blank? ==> answers[j].Some?)
  {
    var stops := CreateStops(ifs, nets, answers);
    forall j | 0 <= j < |ifs|
      ensures stops[j] <==>
              Allocates(ifs[j], nets) && !(!ifs[j].mac.Garbled? && (ifs[j].mac.Blank? ==> answers[j].Some?))
    {
      AllocatesIff(ifs[j], nets);
    }
  }

  /** Every requested text parses, no address is requested twice, no interface name comes twice. */
  ghost predicate ChecksPass(ifs: seq<Interface>) {
    && (forall a :: 0 <= a < |ifs| ==> !ifs[a].mac.Garbled?)
    && (forall a, b :: 0 <= a < b < |ifs| && ifs[a].mac.Written? && ifs[b].mac.Written? ==>
        ifs[a].mac.mac != ifs[b].mac.mac)
    && (forall a, b :: 0 <= a < b < |ifs| ==> ifs[a].name != ifs[b].name)
  }

  /** What a successful live create of interfaces on networks is built from. */
  lemma CreateParts(M: MacMap, vm: Vm, t: int, answers: seq<Option<Mac>>, order: seq<string>)
    requires WellFormed(M) && |answers| == |vm.interfaces| && vm.interfaces != [] && vm.networks != []
    requires Enumerates(order, CreateLoop(M, vm.FullName(), vm.networks, true, vm.interfaces, answers).allocs.Keys)
    requires Allocate(M, vm, t, true, answers, order).ok
    ensures var r := CreateLoop(M, vm.FullName(), vm.networks, true, vm.interfaces, answers);
            var o := Allocate(M, vm, t, true, answers, order);
            && !r.failed && o.interfaces == r.done && |r.done| == |vm.interfaces|
            && Grown(M, r.pool, vm.FullName(), r.allocs)
            && o.pool == StampAll(r.pool, vm.FullName(), t, Pick(r.allocs, order))
            && NamesDistinct(vm.interfaces)
  {
    CreateLoopFacts(M, vm.FullName(), vm.networks, t, vm.interfaces, answers);
  }

  /** Exactly the served interfaces are in newAllocations, each with the text it is returned with, and
      their entries are in the map before the stamping. */
  lemma CreateAllocs(M: MacMap, vm: Vm, answers: seq<Option<Mac>>)
    requires WellFormed(M) && |answers| == |vm.interfaces| && NamesDistinct(vm.interfaces)
    requires !CreateLoop(M, vm.FullName(), vm.networks, true, vm.interfaces, answers).failed
    ensures var r, ifs := CreateLoop(M, vm.FullName(), vm.networks, true, vm.interfaces, answers), vm.interfaces;
            && |r.done| == |ifs|
            && (forall k :: 0 <= k < |ifs| && Allocates(ifs[k], vm.networks) ==>
                  && r.done[k].mac.Written? && ifs[k].name in r.allocs && r.allocs[ifs[k].name] == r.done[k].mac
                  && In(r.pool, r.done[k].mac.mac, Entry(vm.FullName(), ifs[k].name, None)))
            && (forall n :: n in r.allocs ==>
                exists k :: 0 <= k < |ifs| && Allocates(ifs[k], vm.networks) && ifs[k].name == n)
  {
    var ifs, nets, v := vm.interfaces, vm.networks, vm.FullName();
    var r := CreateLoop(M, v, nets, true, ifs, answers);
    assert ifs[..|ifs|] == ifs && answers[..|ifs|] == answers;
    CreateFills(M, v, nets, true, ifs, answers, |ifs|);
    CreateNotesAll(M, v, nets, true, ifs, answers);
    CreateRecords(M, v, nets, ifs, answers, |ifs|);
    var notes := CreateNotes(ifs, nets, answers);
    forall k | 0 <= k < |ifs| && Allocates(ifs[k], nets)
      ensures && r.done[k].mac.Written? && ifs[k].name in r.allocs && r.allocs[ifs[k].name] == r.done[k].mac
              && In(r.pool, r.done[k].mac.mac, Entry(v, ifs[k].name, None))
    {
      AllocatesIff(ifs[k], nets);
      assert LastNote(ifs, notes, |ifs|, k);
    }
    forall n | n in r.allocs ensures exists k :: 0 <= k < |ifs| && Allocates(ifs[k], nets) && ifs[k].name == n {
      var k :| 0 <= k < |ifs| && LastNote(ifs, notes, |ifs|, k) && ifs[k].name == n;
      AllocatesIff(ifs[k], nets);
    }
  }

  /** Every served interface of the first n rounds has its confirmed entry. */
  lemma {:induction false} CreateRecords(M: MacMap, v: string, nets: seq<Network>, ifs: seq<Interface>,
                                         answers: seq<Option<Mac>>, n: nat)
    requires WellFormed(M) && n <= |ifs| == |answers|
    ensures var r := CreateLoop(M, v, nets, true, ifs[..n], answers[..n]);
            && WellFormed(r.pool)
            && (!r.failed ==> forall k :: 0 <= k < n && Supported(ifs[k], nets) ==>
                  && TextOf(ifs[k], answers[k]).Written?
                  && In(r.pool, TextOf(ifs[k], answers[k]).mac, Entry(v, ifs[k].name, None)))
  {
    if n > 0 {
      var k := n - 1;
      CreateRecords(M, v, nets, ifs, answers, k);
      CreateRound(M, v, nets, true, ifs, answers, k);
      var p := CreateLoop(M, v, nets, true, ifs[..k], answers[..k]);
      CreateStepRecords(p, v, nets, ifs[k], answers[k]);
      assert k + 1 == n;
    }
  }

  lemma CreateStepRecords(p: CreateRun, v: string, nets: seq<Network>, iface: Interface, answer: Option<Mac>)
    requires WellFormed(p.pool)
    ensures var r := CreateStep(p, v, nets, true, iface, answer);
            && WellFormed(r.pool) && (p.failed ==> r.failed)
            && (forall x, n :: In(p.pool, x, Entry(v, n, None)) ==> In(r.pool, x, Entry(v, n, None)))
            && (!r.failed && Supported(iface, nets) ==>
                  TextOf(iface, answer).Written? && In(r.pool, TextOf(iface, answer).mac, Entry(v, iface.name, None)))
  {
    var r := CreateStep(p, v, nets, true, iface, answer);
    var text := TextOf(iface, answer);
    if !r.failed && Supported(iface, nets) {
      assert r.pool == CreateOrUpdate(p.pool, text.mac, v, iface.name);
      CreateOrUpdateOk(p.pool, text.mac, v, iface.name);
      forall x, n | In(p.pool, x, Entry(v, n, None)) ensures In(r.pool, x, Entry(v, n, None)) {
        CreateOrUpdateIn(p.pool, text.mac, v, iface.name, x, Entry(v, n, None));
      }
      CreateOrUpdateIn(p.pool, text.mac, v, iface.name, text.mac, Entry(v, iface.name, None));
    }
  }

  lemma InHolds(M: MacMap, m: Mac, e: Entry)
    requires In(M, m, e)
    ensures Holds(M, m, e.inst)
  {
    var j :| 0 <= j < |M[m]| && M[m][j] == e;
    assert FirstOf(M[m], e.inst) <= j;
  }

  /** The final map of a successful create, address by address. */
  lemma CreatedPool(M: MacMap, vm: Vm, t: int, answers: seq<Option<Mac>>, order: seq<string>, x: Mac)
    requires WellFormed(M) && |answers| == |vm.interfaces| && vm.interfaces != [] && vm.networks != []
    requires Enumerates(order, CreateLoop(M, vm.FullName(), vm.networks, true, vm.interfaces, answers).allocs.Keys)
    requires Allocate(M, vm, t, true, answers, order).ok
    ensures var r := CreateLoop(M, vm.FullName(), vm.networks, true, vm.interfaces, answers);
            Entries(Allocate(M, vm, t, true, answers, order).pool, x)
            == if NamedIn(r.allocs, x) then StampList(Entries(r.pool, x), vm.FullName(), t) else Entries(M, x)
  {
    CreateParts(M, vm, t, answers, order);
    CreateAllocs(M, vm, answers);
    var r := CreateLoop(M, vm.FullName(), vm.networks, true, vm.interfaces, answers);
    forall n | n in r.allocs ensures Known(r.pool, r.allocs[n], vm.FullName()) {
      var k :| 0 <= k < |vm.interfaces| && Allocates(vm.interfaces[k], vm.networks) && vm.interfaces[k].name == n;
      InHolds(r.pool, r.done[k].mac.mac, Entry(vm.FullName(), n, None));
    }
    StampAllKnown(r.pool, vm.FullName(), t, r.allocs, order, x);
  }

  /** After a successful live create the VM's first entry at the address of every interface it serves
      carries this transaction's stamp. */
  lemma CreateStamps(M: MacMap, vm: Vm, t: int, answers: seq<Option<Mac>>, order: seq<string>, k: nat)
    requires WellFormed(M) && |answers| == |vm.interfaces| && vm.networks != []
    requires Enumerates(order, CreateLoop(M, vm.FullName(), vm.networks, true, vm.interfaces, answers).allocs.Keys)
    requires Allocate(M, vm, t, true, answers, order).ok
    requires k < |vm.interfaces| && Allocates(vm.interfaces[k], vm.networks)
    ensures var o := Allocate(M, vm, t, true, answers, order);
            && |o.interfaces| == |vm.interfaces| && o.interfaces[k].mac.Written?
            && FirstStamped(o.pool, o.interfaces[k].mac.mac, vm.FullName(), t)
  {
    CreateParts(M, vm, t, answers, order);
    CreateAllocs(M, vm, answers);
    var r := CreateLoop(M, vm.FullName(), vm.networks, true, vm.interfaces, answers);
    var m := r.done[k].mac.mac;
    CreatedPool(M, vm, t, answers, order, m);
    assert AllocatedAt(r.allocs, vm.interfaces[k].name, m);
    InHolds(r.pool, m, Entry(vm.FullName(), vm.interfaces[k].name, None));
    StampedListFirst(Allocate(M, vm, t, true, answers, order).pool, r.pool, m, vm.FullName(), t);
  }

  /** At every other address it changes nothing. */
  lemma CreateElsewhere(M: MacMap, vm: Vm, t: int, answers: seq<Option<Mac>>, order: seq<string>, x: Mac)
    requires WellFormed(M) && |answers| == |vm.interfaces| && vm.networks != []
    requires Enumerates(order, CreateLoop(M, vm.FullName(), vm.networks, true, vm.interfaces, answers).allocs.Keys)
    requires Allocate(M, vm, t, true, answers, order).ok
    requires var got := Allocate(M, vm, t, true, answers, order).interfaces;
             forall k :: 0 <= k < |vm.interfaces| && k < |got| && Allocates(vm.interfaces[k], vm.networks) ==>
               !(got[k].mac.Written? && got[k].mac.mac == x)
    ensures Entries(Allocate(M, vm, t, true, answers, order).pool, x) == Entries(M, x)
  {
    if vm.interfaces != [] {
      CreateParts(M, vm, t, answers, order);
      CreateAllocs(M, vm, answers);
      CreatedPool(M, vm, t, answers, order, x);
      var r := CreateLoop(M, vm.FullName(), vm.networks, true, vm.interfaces, answers);
      assert forall n :: n in r.allocs ==> !AllocatedAt(r.allocs, n, x);
    }
  }

  lemma StampedOnly(es: seq<Entry>, v: string, n: string, t: int)
    requires ListOk(es) && Entry(v, n, None) in es && forall e :: e in es && e.inst == v ==> e.key == n
    ensures forall e :: e in StampList(es, v, t) && e.inst == v <==> e == Entry(v, n, Some(t))
  {
    var j :| 0 <= j < |es| && es[j] == Entry(v, n, None);
    var k := FirstOf(es, v);
    assert es[k] in es;
    assert k == j;
    var r := StampList(es, v, t);
    assert forall i :: 0 <= i < |es| && i != k ==> r[i] == es[i] && es[i] in es && es[i].inst != v;
    assert r[k] == Entry(v, n, Some(t));
  }

  lemma OnlyServed(M: MacMap, vm: Vm, answers: seq<Option<Mac>>, k: nat, m: Mac)
    requires WellFormed(M) && |answers| == |vm.interfaces| && NamesDistinct(vm.interfaces) && k < |vm.interfaces|
    requires forall e :: In(M, m, e) ==> e.inst != vm.FullName()
    requires var r := CreateLoop(M, vm.FullName(), vm.networks, true, vm.interfaces, answers);
             && !r.failed && |r.done| == |vm.interfaces| && Grown(M, r.pool, vm.FullName(), r.allocs)
             && forall j :: 0 <= j < |r.done| && j != k && Allocates(vm.interfaces[j], vm.networks) ==>
                  !(r.done[j].mac.Written? && r.done[j].mac.mac == m)
    ensures var r := CreateLoop(M, vm.FullName(), vm.networks, true, vm.interfaces, answers);
            forall e :: e in Entries(r.pool, m) && e.inst == vm.FullName() ==> e.key == vm.interfaces[k].name
  {
    CreateAllocs(M, vm, answers);
    var r := CreateLoop(M, vm.FullName(), vm.networks, true, vm.interfaces, answers);
    forall e | e in Entries(r.pool, m) && e.inst == vm.FullName() ensures e.key == vm.interfaces[k].name {
      assert In(r.pool, m, e) && AllocatedAt(r.allocs, e.key, m);
      var j :| 0 <= j < |vm.interfaces| && Allocates(vm.interfaces[j], vm.networks) && vm.interfaces[j].name == e.key;
    }
  }

  /** Where the VM held nothing and no other of its interfaces ends up, its one entry is that of the
      interface, with this transaction's stamp. */
  lemma CreateStampsOnly(M: MacMap, vm: Vm, t: int, answers: seq<Option<Mac>>, order: seq<string>, k: nat)
    requires WellFormed(M) && |answers| == |vm.interfaces| && vm.networks != []
    requires Enumerates(order, CreateLoop(M, vm.FullName(), vm.networks, true, vm.interfaces, answers).allocs.Keys)
    requires Allocate(M, vm, t, true, answers, order).ok
    requires k < |vm.interfaces| && Allocates(vm.interfaces[k], vm.networks)
    requires var got := Allocate(M, vm, t, true, answers, order).interfaces;
             && |got| == |vm.interfaces| && got[k].mac.Written?
             && (forall e :: In(M, got[k].mac.mac, e) ==> e.inst != vm.FullName())
             && forall j :: 0 <= j < |got| && j != k && Allocates(vm.interfaces[j], vm.networks) ==>
                  !(got[j].mac.Written? && got[j].mac.mac == got[k].mac.mac)
    ensures var o := Allocate(M, vm, t, true, answers, order);
            forall e :: In(o.pool, o.interfaces[k].mac.mac, e) && e.inst == vm.FullName()
                        <==> e == Entry(vm.FullName(), vm.interfaces[k].name, Some(t))
  {
    CreateParts(M, vm, t, answers, order);
    CreateAllocs(M, vm, answers);
    var v, r := vm.FullName(), CreateLoop(M, vm.FullName(), vm.networks, true, vm.interfaces, answers);
    var o, n, m := Allocate(M, vm, t, true, answers, order), vm.interfaces[k].name, r.done[k].mac.mac;
    CreatedPool(M, vm, t, answers, order, m);
    assert AllocatedAt(r.allocs, n, m);
    OnlyServed(M, vm, answers, k, m);
    StampedOnly(Entries(r.pool, m), v, n, t);
    forall e ensures In(o.pool, m, e) <==> e in StampList(Entries(r.pool, m), v, t) {
      assert e in Entries(o.pool, m) <==> In(o.pool, m, e);
    }
  }

  // ---- update ---------------------------------------------------------------------------------

  /** The last interface of its name. */
  ghost predicate LastIn(ifs: seq<Interface>, k: nat) {
    k < |ifs| && forall j :: k < j < |ifs| ==> ifs[j].name != ifs[k].name
  }

  /** The interface is new, or its text is not blank and differs from the canonical spelling of what
      the previous VM had. */
  ghost predicate Changed(prev: seq<Interface>, asked: Interface) {
    forall k: nat :: LastIn(prev, k) && prev[k].name == asked.name ==>
      !asked.mac.Blank? && prev[k].mac != (if asked.mac.Written? then Written(asked.mac.mac, 0) else Blank)
  }

  lemma LastInFront(prev: seq<Interface>, k: nat)
    requires prev != [] && k < |prev| - 1 && prev[k].name != prev[|prev| - 1].name
    ensures LastIn(prev, k) <==> LastIn(prev[..|prev| - 1], k)
  {
    var z := |prev| - 1;
    forall j | k < j < z ensures prev[..z][j] == prev[j] {
    }
    if LastIn(prev[..z], k) {
      forall j | k < j < |prev| ensures prev[j].name != prev[k].name {
        assert j < z ==> prev[..z][j].name != prev[..z][k].name;
      }
    }
    if LastIn(prev, k) {
      forall j | k < j < z ensures prev[..z][j].name != prev[..z][k].name {
        assert prev[j].name != prev[k].name;
      }
    }
  }

  /** The texts of the previous VM, by the position of the last interface of a name. */
  lemma {:induction false} CurrentIff(prev: seq<Interface>, n: string)
    ensures n in CurrentTexts(prev) <==> exists k: nat :: LastIn(prev, k) && prev[k].name == n
    ensures forall k: nat :: LastIn(prev, k) && prev[k].name == n ==>
              n in CurrentTexts(prev) && CurrentTexts(prev)[n] == prev[k].mac
  {
    if prev != [] {
      var z := |prev| - 1;
      CurrentIff(prev[..z], n);
      assert LastIn(prev, z);
      if prev[z].name != n {
        forall k: nat | k < z && prev[k].name == n
          ensures prev[..z][k] == prev[k] && (LastIn(prev, k) <==> LastIn(prev[..z], k))
        {
          LastInFront(prev, k);
        }
        if n in CurrentTexts(prev) {
          var k: nat :| LastIn(prev[..z], k) && prev[..z][k].name == n;
          assert LastIn(prev, k) && prev[k].name == n;
        }
      }
    }
  }

  lemma ChangedIff(prev: seq<Interface>, asked: Interface)
    ensures Changed(prev, asked) <==> Touched(CurrentTexts(prev), asked)
  {
    CurrentIff(prev, asked.name);
  }

  /** What an update returns for one interface: for a blank one what the previous VM had, or else the
      range's answer. */
  ghost predicate UpdatedFrom(prev: seq<Interface>, asked: Interface, answer: Option<Mac>, got: Interface) {
    if !asked.mac.Blank? then got == asked
    else if Changed(prev, asked) then answer.Some? && got == asked.(mac := Written(answer.value, 0))
    else exists k: nat :: LastIn(prev, k) && prev[k].name == asked.name && got == asked.(mac := prev[k].mac)
  }

  ghost predicate Returned(prev: seq<Interface>, ifs: seq<Interface>, answers: seq<Option<Mac>>, n: nat, u: UpdateRun)
    requires n <= |ifs| == |answers|
  {
    !u.failed ==> |u.done| == n && forall j :: 0 <= j < n ==> UpdatedFrom(prev, ifs[j], answers[j], u.done[j])
  }

  lemma UpdateStepReturns(prev: seq<Interface>, p: UpdateRun, v: string, live: bool, iface: Interface,
                          answer: Option<Mac>)
    ensures var u := UpdateStep(p, CurrentTexts(prev), v, live, iface, answer);
            !u.failed ==> !p.failed && exists got :: u.done == p.done + [got] && UpdatedFrom(prev, iface, answer, got)
  {
    var cur := CurrentTexts(prev);
    var u := UpdateStep(p, cur, v, live, iface, answer);
    ChangedIff(prev, iface);
    CurrentIff(prev, iface.name);
    if !u.failed {
      var got := if !iface.mac.Blank? then iface
                 else if iface.name in cur then iface.(mac := cur[iface.name])
                 else iface.(mac := Written(answer.value, 0));
      assert u.done == p.done + [got];
      assert UpdatedFrom(prev, iface, answer, got);
    }
  }

  lemma ReturnedNext(prev: seq<Interface>, ifs: seq<Interface>, answers: seq<Option<Mac>>, n: nat, p: UpdateRun,
                     u: UpdateRun)
    requires n < |ifs| == |answers| && Returned(prev, ifs, answers, n, p)
    requires !u.failed ==>
      !p.failed && exists got :: u.done == p.done + [got] && UpdatedFrom(prev, ifs[n], answers[n], got)
    ensures Returned(prev, ifs, answers, n + 1, u)
  {
    if !u.failed {
      var got :| u.done == p.done + [got] && UpdatedFrom(prev, ifs[n], answers[n], got);
      assert u.done[n] == got;
      forall j | 0 <= j < n ensures u.done[j] == p.done[j] {
      }
    }
  }

  lemma {:induction false} UpdateLoopReturns(M: MacMap, prev: seq<Interface>, v: string, live: bool,
                                             ifs: seq<Interface>,
                                             answers: seq<Option<Mac>>, n: nat)
    requires n <= |ifs| == |answers|
    ensures Returned(prev, ifs, answers, n, UpdateLoop(M, CurrentTexts(prev), v, live, ifs[..n], answers[..n]))
  {
    if n > 0 {
      var k := n - 1;
      UpdateLoopReturns(M, prev, v, live, ifs, answers, k);
      UpdateRound(M, CurrentTexts(prev), v, live, ifs, answers, k);
      var p := UpdateLoop(M, CurrentTexts(prev), v, live, ifs[..k], answers[..k]);
      UpdateStepReturns(prev, p, v, live, ifs[k], answers[k]);
      ReturnedNext(prev, ifs, answers, k, p, UpdateStep(p, CurrentTexts(prev), v, live, ifs[k], answers[k]));
      assert k + 1 == n;
    }
  }

  /** Live or dry, a successful update fills exactly the blank interfaces and returns the others as
      they came. */
  lemma UpdateReturns(M: MacMap, prev: seq<Interface>, vm: Vm, t: int, live: bool, answers: seq<Option<Mac>>, o: Orders)
    requires |answers| == |vm.interfaces|
    requires OrdersFit(o, UpdateLoop(M, CurrentTexts(prev), vm.FullName(), live, vm.interfaces, answers))
    requires Update(M, prev, vm, t, live, answers, o).ok
    ensures var got := Update(M, prev, vm, t, live, answers, o).interfaces;
            && |got| == |vm.interfaces|
            && forall j :: 0 <= j < |got| ==> UpdatedFrom(prev, vm.interfaces[j], answers[j], got[j])
  {
    var ifs := vm.interfaces;
    assert ifs[..|ifs|] == ifs && answers[..|ifs|] == answers;
    UpdateLoopReturns(M, prev, vm.FullName(), live, ifs, answers, |ifs|);
  }

  /** An update succeeds exactly when it passes the checks, if it is live, and every new or changed
      interface parses and is not left without an answer. */
  lemma UpdateOkIff(M: MacMap, prev: seq<Interface>, vm: Vm, t: int, live: bool, answers: seq<Option<Mac>>, o: Orders)
    requires |answers| == |vm.interfaces|
    requires OrdersFit(o, UpdateLoop(M, CurrentTexts(prev), vm.FullName(), live, vm.interfaces, answers))
    ensures var ifs := vm.interfaces;
            Update(M, prev, vm, t, live, answers, o).ok <==>
            (live ==> ChecksPass(ifs))
            && forall j :: 0 <= j < |ifs| && Changed(prev, ifs[j]) ==>
                 !ifs[j].mac.Garbled? && (ifs[j].mac.Blank? ==> answers[j].Some?)
  {
    UpdateNotesAll(M, CurrentTexts(prev), vm.FullName(), live, vm.interfaces, answers);
    UpdateEndsIff(prev, vm.interfaces, answers);
    ChecksIff(vm.interfaces);
    UpdateOkWhen(M, prev, vm, t, live, answers, o);
  }

  lemma ChecksIff(ifs: seq<Interface>)
    ensures ChecksPass(ifs) <==> RequestsDistinct(ifs) && NamesDistinct(ifs)
  {
  }

  lemma UpdateOkWhen(M: MacMap, prev: seq<Interface>, vm: Vm, t: int, live: bool, answers: seq<Option<Mac>>, o: Orders)
    requires |answers| == |vm.interfaces|
    requires OrdersFit(o, UpdateLoop(M, CurrentTexts(prev), vm.FullName(), live, vm.interfaces, answers))
    ensures Update(M, prev, vm, t, live, answers, o).ok <==>
            (live ==> RequestsDistinct(vm.interfaces) && NamesDistinct(vm.interfaces))
            && !UpdateLoop(M, CurrentTexts(prev), vm.FullName(), live, vm.interfaces, answers).failed
  {
  }

  lemma UpdateEndsIff(prev: seq<Interface>, ifs: seq<Interface>, answers: seq<Option<Mac>>)
    requires |ifs| == |answers|
    ensures UpdateEnd(ifs, CurrentTexts(prev), answers) == |ifs| <==>
            forall j :: 0 <= j < |ifs| && Changed(prev, ifs[j]) ==>
              !ifs[j].mac.Garbled? && (ifs[j].mac.Blank? ==> answers[j].Some?)
  {
    var stops := UpdateStops(ifs, CurrentTexts(prev), answers);
    forall j | 0 <= j < |ifs|
      ensures stops[j] <==> Changed(prev, ifs[j]) && !(!ifs[j].mac.Garbled? && (ifs[j].mac.Blank? ==> answers[j].Some?))
    {
      ChangedIff(prev, ifs[j]);
    }
  }

  /** What is left in deltaInterfacesMap and what has come into releaseOldAllocations after n rounds. */
  ghost predicate Leftover(cur: map<string, MacText>, ifs: seq<Interface>, n: nat, u: UpdateRun)
    requires n <= |ifs|
  {
    !u.failed ==>
      && (forall x :: x in u.delta <==> x in cur && forall j :: 0 <= j < n ==> ifs[j].name != x)
      && (forall x :: x in u.delta ==> u.delta[x] == cur[x])
      && (forall x :: x in u.release <==>
            x in cur && exists j :: 0 <= j < n && ifs[j].name == x && Touched(cur, ifs[j]))
      && (forall x :: x in u.release ==> u.release[x] == cur[x])
  }

  lemma StepLeftover(cur: map<string, MacText>, v: string, live: bool, iface: Interface, answer: Option<Mac>,
                     p: UpdateRun)
    ensures var u := UpdateStep(p, cur, v, live, iface, answer);
            !u.failed ==>
              && !p.failed
              && (forall x :: x in u.delta <==> x in p.delta && (x == iface.name ==> x !in cur))
              && (forall x :: x in u.delta ==> u.delta[x] == p.delta[x])
              && u.release == if iface.name in cur && Touched(cur, iface) then p.release[iface.name := cur[iface.name]]
                 else p.release
  {
  }

  lemma LeftoverStep(cur: map<string, MacText>, v: string, live: bool, ifs: seq<Interface>, answer: Option<Mac>, n: nat,
                     p: UpdateRun)
    requires n < |ifs| && Leftover(cur, ifs, n, p)
    ensures Leftover(cur, ifs, n + 1, UpdateStep(p, cur, v, live, ifs[n], answer))
  {
    StepLeftover(cur, v, live, ifs[n], answer, p);
    LeftoverNext(cur, ifs, n, p, UpdateStep(p, cur, v, live, ifs[n], answer));
  }

  lemma LeftoverNext(cur: map<string, MacText>, ifs: seq<Interface>, n: nat, p: UpdateRun, u: UpdateRun)
    requires n < |ifs| && Leftover(cur, ifs, n, p) && (!u.failed ==> !p.failed)
    requires !u.failed ==> forall x :: x in u.delta <==> x in p.delta && (x == ifs[n].name ==> x !in cur)
    requires !u.failed ==> forall x :: x in u.delta ==> u.delta[x] == p.delta[x]
    requires !u.failed ==>
      u.release == if ifs[n].name in cur && Touched(cur, ifs[n]) then p.release[ifs[n].name := cur[ifs[n].name]]
          else p.release
    ensures Leftover(cur, ifs, n + 1, u)
  {
  }

  lemma {:induction false} UpdateLeftovers(M: MacMap, cur: map<string, MacText>, v: string, live: bool,
                                           ifs: seq<Interface>,
                                           answers: seq<Option<Mac>>, n: nat)
    requires n <= |ifs| == |answers|
    ensures Leftover(cur, ifs, n, UpdateLoop(M, cur, v, live, ifs[..n], answers[..n]))
  {
    if n > 0 {
      var k := n - 1;
      UpdateLeftovers(M, cur, v, live, ifs, answers, k);
      UpdateRound(M, cur, v, live, ifs, answers, k);
      LeftoverStep(cur, v, live, ifs, answers[k], k, UpdateLoop(M, cur, v, live, ifs[..k], answers[..k]));
      assert k + 1 == n;
    }
  }

  /** Every address of the previous VM is on record for it. */
  ghost predicate OnRecord(M: MacMap, prev: seq<Interface>, v: string) {
    forall k: nat :: LastIn(prev, k) ==> prev[k].mac.Written? && exists e :: In(M, prev[k].mac.mac, e) && e.inst == v
  }

  lemma OnRecordHolds(M: MacMap, prev: seq<Interface>, v: string, n: string)
    requires OnRecord(M, prev, v) && n in CurrentTexts(prev)
    ensures CurrentTexts(prev)[n].Written? && Holds(M, CurrentTexts(prev)[n].mac, v)
  {
    CurrentIff(prev, n);
    var k: nat :| LastIn(prev, k) && prev[k].name == n;
    var e :| In(M, prev[k].mac.mac, e) && e.inst == v;
    InHolds(M, prev[k].mac.mac, e);
  }

  /** What is known of the loop of a successful live update. */
  ghost predicate UpdateFacts(M: MacMap, prev: seq<Interface>, v: string, t: int, ifs: seq<Interface>,
                              answers: seq<Option<Mac>>, u: UpdateRun) {
    && |answers| == |ifs| && !u.failed
    && UpdateRunOk(M, CurrentTexts(prev), v, t, ifs, u)
    && Noted(ifs, UpdateNotes(ifs, CurrentTexts(prev), answers), |ifs|, u.allocs)
    && Leftover(CurrentTexts(prev), ifs, |ifs|, u)
    && Returned(prev, ifs, answers, |ifs|, u)
    && forall j :: 0 <= j < |ifs| ==> Touched(CurrentTexts(prev), ifs[j]) ==> TextOf(ifs[j], answers[j]).Written?
  }

  lemma UpdateHasFacts(M: MacMap, prev: seq<Interface>, v: string, t: int, ifs: seq<Interface>,
                       answers: seq<Option<Mac>>)
    requires WellFormed(M) && |answers| == |ifs| && NamesDistinct(ifs)
    requires !UpdateLoop(M, CurrentTexts(prev), v, true, ifs, answers).failed
    ensures UpdateFacts(M, prev, v, t, ifs, answers, UpdateLoop(M, CurrentTexts(prev), v, true, ifs, answers))
  {
    var cur := CurrentTexts(prev);
    assert ifs[..|ifs|] == ifs && answers[..|ifs|] == answers;
    UpdateLoopFacts(M, cur, v, t, ifs, answers);
    UpdateNotesAll(M, cur, v, true, ifs, answers);
    UpdateLeftovers(M, cur, v, true, ifs, answers, |ifs|);
    UpdateLoopReturns(M, prev, v, true, ifs, answers, |ifs|);
    forall j | 0 <= j < |ifs| && Touched(cur, ifs[j]) ensures TextOf(ifs[j], answers[j]).Written? {
      assert !UpdateStops(ifs, cur, answers)[j];
    }
  }

  lemma CurrentKnown(M: MacMap, P: MacMap, prev: seq<Interface>, v: string, n: string)
    requires FirstKept(M, P, v) && OnRecord(M, prev, v) && n in CurrentTexts(prev)
    ensures Known(P, CurrentTexts(prev)[n], v)
  {
    OnRecordHolds(M, prev, v, n);
  }

  lemma NotesKnown(M: MacMap, prev: seq<Interface>, v: string, t: int, ifs: seq<Interface>, answers: seq<Option<Mac>>,
                   u: UpdateRun)
    requires UpdateFacts(M, prev, v, t, ifs, answers, u)
    requires forall n :: n in CurrentTexts(prev) ==> Known(u.pool, CurrentTexts(prev)[n], v)
    ensures AllKnownTexts(u.pool, v, u.allocs)
  {
    var cur := CurrentTexts(prev);
    forall n | n in u.allocs ensures Known(u.pool, u.allocs[n], v) {
      var j :| 0 <= j < |ifs| && LastNote(ifs, UpdateNotes(ifs, cur, answers), |ifs|, j) && ifs[j].name == n;
      ChangedIff(prev, ifs[j]);
      NotedKnown(u, cur, v, t, ifs[j], answers[j], u.done[j]);
    }
  }

  /** All that a successful live update stamps is known to the map then. */
  lemma UpdateTextsKnown(M: MacMap, prev: seq<Interface>, v: string, t: int, ifs: seq<Interface>,
                         answers: seq<Option<Mac>>,
                         u: UpdateRun)
    requires UpdateFacts(M, prev, v, t, ifs, answers, u) && OnRecord(M, prev, v)
    ensures AllKnownTexts(u.pool, v, u.allocs) && AllKnownTexts(u.pool, v, u.delta)
            && AllKnownTexts(u.pool, v, u.release)
  {
    forall n | n in CurrentTexts(prev) ensures Known(u.pool, CurrentTexts(prev)[n], v) {
      CurrentKnown(M, u.pool, prev, v, n);
    }
    NotesKnown(M, prev, v, t, ifs, answers, u);
  }

  lemma NotedKnown(u: UpdateRun, cur: map<string, MacText>, v: string, t: int, iface: Interface, answer: Option<Mac>,
                   got: Interface)
    requires UpdateNote(iface, cur, answer).Some? && UpdatedAs(u.pool, cur, v, t, iface, got)
    requires Touched(cur, iface) ==> TextOf(iface, answer).Written? && got.mac == TextOf(iface, answer)
    requires forall n :: n in cur ==> Known(u.pool, cur[n], v)
    ensures Known(u.pool, UpdateNote(iface, cur, answer).value, v)
  {
    if Touched(cur, iface) {
      var e := if In(u.pool, got.mac.mac, Entry(v, got.name, None)) then Entry(v, got.name, None)
          else Entry(v, got.name, Some(t));
      InHolds(u.pool, got.mac.mac, e);
    }
  }

  /** Stamping three lists of known addresses stamps their union. */
  lemma ThreeStampings(P: MacMap, v: string, t: int, u: UpdateRun, o: Orders, x: Mac)
    requires P == u.pool && OrdersFit(o, u)
    requires AllKnownTexts(P, v, u.allocs) && AllKnownTexts(P, v, u.delta) && AllKnownTexts(P, v, u.release)
    ensures var s1 := StampAll(P, v, t, Pick(u.allocs, o.allocs));
            var s2 := StampAll(s1, v, t, Pick(u.delta, o.delta));
            Entries(StampAll(s2, v, t, Pick(u.release, o.release)), x)
            == if NamedIn(u.allocs, x) || NamedIn(u.delta, x) || NamedIn(u.release, x)
                then StampList(Entries(P, x), v, t) else Entries(P, x)
  {
    var s1 := StampAll(P, v, t, Pick(u.allocs, o.allocs));
    var s2 := StampAll(s1, v, t, Pick(u.delta, o.delta));
    StampKeepsKnown(P, v, t, u.allocs, o.allocs, u.delta);
    StampKeepsKnown(P, v, t, u.allocs, o.allocs, u.release);
    StampKeepsKnown(s1, v, t, u.delta, o.delta, u.release);
    StampAllKnown(P, v, t, u.allocs, o.allocs, x);
    StampAllKnown(s1, v, t, u.delta, o.delta, x);
    StampAllKnown(s2, v, t, u.release, o.release, x);
    StampListFacts(Entries(P, x), v, t);
  }

  lemma StampKeepsKnown(P: MacMap, v: string, t: int, allocs: map<string, MacText>, order: seq<string>,
                        other: map<string, MacText>)
    requires Enumerates(order, allocs.Keys) && AllKnownTexts(P, v, allocs) && AllKnownTexts(P, v, other)
    ensures AllKnownTexts(StampAll(P, v, t, Pick(allocs, order)), v, other)
  {
    forall n | n in other ensures Known(StampAll(P, v, t, Pick(allocs, order)), other[n], v) {
      StampAllKnown(P, v, t, allocs, order, other[n].mac);
      StampListFacts(Entries(P, other[n].mac), v, t);
    }
  }

  /** The address of some interface the update gives up: gone, or asked at another address. */
  ghost predicate GivenUp(prev: seq<Interface>, ifs: seq<Interface>, x: Mac) {
    exists k: nat :: LastIn(prev, k) && prev[k].mac.Written? && prev[k].mac.mac == x && GivesUp(prev, ifs, k)
  }

  ghost predicate GivesUp(prev: seq<Interface>, ifs: seq<Interface>, k: nat)
    requires k < |prev|
  {
    || (forall j :: 0 <= j < |ifs| ==> ifs[j].name != prev[k].name)
    || exists j :: 0 <= j < |ifs| && ifs[j].name == prev[k].name && Changed(prev, ifs[j])
  }

  /** The address some new, changed or blank interface ends up with. */
  ghost predicate TakenUp(prev: seq<Interface>, ifs: seq<Interface>, got: seq<Interface>, x: Mac) {
    exists j :: 0 <= j < |ifs| && j < |got| && (Changed(prev, ifs[j]) || ifs[j].mac.Blank?) && got[j].mac.Written?
        && got[j].mac.mac == x
  }

  lemma LeftoverNamed(prev: seq<Interface>, ifs: seq<Interface>, u: UpdateRun, x: Mac)
    requires !u.failed && Leftover(CurrentTexts(prev), ifs, |ifs|, u)
    ensures NamedIn(u.delta, x) || NamedIn(u.release, x) <==> GivenUp(prev, ifs, x)
  {
    var cur := CurrentTexts(prev);
    forall n ensures n in cur <==> exists k: nat :: LastIn(prev, k) && prev[k].name == n {
      CurrentIff(prev, n);
    }
    forall k: nat | LastIn(prev, k) ensures prev[k].name in cur && cur[prev[k].name] == prev[k].mac {
      CurrentIff(prev, prev[k].name);
    }
    forall j | 0 <= j < |ifs| ensures Changed(prev, ifs[j]) <==> Touched(cur, ifs[j]) {
      ChangedIff(prev, ifs[j]);
    }
    if GivenUp(prev, ifs, x) {
      var k: nat :| LastIn(prev, k) && prev[k].mac.Written? && prev[k].mac.mac == x && GivesUp(prev, ifs, k);
      assert AllocatedAt(u.delta, prev[k].name, x) || AllocatedAt(u.release, prev[k].name, x);
    }
  }

  lemma NotesNamed(M: MacMap, prev: seq<Interface>, v: string, t: int, ifs: seq<Interface>, answers: seq<Option<Mac>>,
                   u: UpdateRun, x: Mac)
    requires UpdateFacts(M, prev, v, t, ifs, answers, u) && NamesDistinct(ifs)
    ensures NamedIn(u.allocs, x) <==> TakenUp(prev, ifs, u.done, x)
  {
    var cur, notes := CurrentTexts(prev), UpdateNotes(ifs, CurrentTexts(prev), answers);
    forall j | 0 <= j < |ifs|
      ensures notes[j].Some? <==> Changed(prev, ifs[j]) || ifs[j].mac.Blank?
      ensures notes[j].Some? ==>
                notes[j].value == u.done[j].mac && ifs[j].name in u.allocs && u.allocs[ifs[j].name] == u.done[j].mac
    {
      NoteIsReturned(prev, ifs[j], answers[j], u.done[j]);
      assert notes[j].Some? ==> LastNote(ifs, notes, |ifs|, j);
    }
    if NamedIn(u.allocs, x) {
      var n :| n in u.allocs && AllocatedAt(u.allocs, n, x);
      var j :| 0 <= j < |ifs| && LastNote(ifs, notes, |ifs|, j) && ifs[j].name == n;
    }
    if TakenUp(prev, ifs, u.done, x) {
      var j :| 0 <= j < |ifs| && (Changed(prev, ifs[j]) || ifs[j].mac.Blank?) && u.done[j].mac.Written?
          && u.done[j].mac.mac == x;
      assert AllocatedAt(u.allocs, ifs[j].name, x);
    }
  }

  lemma NoteIsReturned(prev: seq<Interface>, asked: Interface, answer: Option<Mac>, got: Interface)
    requires UpdatedFrom(prev, asked, answer, got)
    ensures UpdateNote(asked, CurrentTexts(prev), answer).Some? <==> Changed(prev, asked) || asked.mac.Blank?
    ensures UpdateNote(asked, CurrentTexts(prev), answer).Some? ==>
              UpdateNote(asked, CurrentTexts(prev), answer).value == got.mac
  {
    ChangedIff(prev, asked);
    CurrentIff(prev, asked.name);
  }

  /** The final map of a successful update, address by address: where an interface was given up or
      taken up, the VM's first entry gets the stamp. */
  lemma UpdatedPool(M: MacMap, prev: seq<Interface>, vm: Vm, t: int, answers: seq<Option<Mac>>, o: Orders, x: Mac)
    requires WellFormed(M) && |answers| == |vm.interfaces| && OnRecord(M, prev, vm.FullName())
    requires OrdersFit(o, UpdateLoop(M, CurrentTexts(prev), vm.FullName(), true, vm.interfaces, answers))
    requires Update(M, prev, vm, t, true, answers, o).ok
    ensures var u := UpdateLoop(M, CurrentTexts(prev), vm.FullName(), true, vm.interfaces, answers);
            var r := Update(M, prev, vm, t, true, answers, o);
            && UpdateFacts(M, prev, vm.FullName(), t, vm.interfaces, answers, u) && r.interfaces == u.done
            && Entries(r.pool, x)
               == if GivenUp(prev, vm.interfaces, x) || TakenUp(prev, vm.interfaces, r.interfaces, x)
                  then StampList(Entries(u.pool, x), vm.FullName(), t) else Entries(u.pool, x)
  {
    var v, ifs := vm.FullName(), vm.interfaces;
    var u := UpdateLoop(M, CurrentTexts(prev), v, true, ifs, answers);
    UpdateOkWhen(M, prev, vm, t, true, answers, o);
    UpdateHasFacts(M, prev, v, t, ifs, answers);
    UpdateTextsKnown(M, prev, v, t, ifs, answers, u);
    ThreeStampings(u.pool, v, t, u, o, x);
    LeftoverNamed(prev, ifs, u, x);
    NotesNamed(M, prev, v, t, ifs, answers, u, x);
    UpdateIsStamped(M, prev, vm, t, answers, o);
  }

  lemma UpdateIsStamped(M: MacMap, prev: seq<Interface>, vm: Vm, t: int, answers: seq<Option<Mac>>, o: Orders)
    requires |answers| == |vm.interfaces|
    requires OrdersFit(o, UpdateLoop(M, CurrentTexts(prev), vm.FullName(), true, vm.interfaces, answers))
    requires Update(M, prev, vm, t, true, answers, o).ok
    ensures var u, v := UpdateLoop(M, CurrentTexts(prev), vm.FullName(), true, vm.interfaces, answers), vm.FullName();
            var s1 := StampAll(u.pool, v, t, Pick(u.allocs, o.allocs));
            var s2 := StampAll(s1, v, t, Pick(u.delta, o.delta));
            Update(M, prev, vm, t, true, answers, o) == Outcome(StampAll(s2, v, t, Pick(u.release, o.release)), true,
                                                                u.done)
  {
  }

  /** After a successful live update of a VM whose addresses are all on record, the VM's first entry
      carries this transaction's stamp at every address it gives up: of an interface that is gone or
      was asked at another address. */
  lemma UpdateStampsGivenUp(M: MacMap, prev: seq<Interface>, vm: Vm, t: int, answers: seq<Option<Mac>>, o: Orders,
                            k: nat)
    requires WellFormed(M) && |answers| == |vm.interfaces| && OnRecord(M, prev, vm.FullName())
    requires OrdersFit(o, UpdateLoop(M, CurrentTexts(prev), vm.FullName(), true, vm.interfaces, answers))
    requires Update(M, prev, vm, t, true, answers, o).ok
    requires LastIn(prev, k) && GivesUp(prev, vm.interfaces, k)
    ensures FirstStamped(Update(M, prev, vm, t, true, answers, o).pool, prev[k].mac.mac, vm.FullName(), t)
  {
    var x, v := prev[k].mac.mac, vm.FullName();
    UpdatedPool(M, prev, vm, t, answers, o, x);
    var u := UpdateLoop(M, CurrentTexts(prev), v, true, vm.interfaces, answers);
    var e :| In(M, x, e) && e.inst == v;
    InHolds(M, x, e);
    StampedListFirst(Update(M, prev, vm, t, true, answers, o).pool, u.pool, x, v, t);
  }

  /** And at every address a new, changed or blank interface ends up with. */
  lemma UpdateStampsTakenUp(M: MacMap, prev: seq<Interface>, vm: Vm, t: int, answers: seq<Option<Mac>>, o: Orders,
                            j: nat)
    requires WellFormed(M) && |answers| == |vm.interfaces| && OnRecord(M, prev, vm.FullName())
    requires OrdersFit(o, UpdateLoop(M, CurrentTexts(prev), vm.FullName(), true, vm.interfaces, answers))
    requires Update(M, prev, vm, t, true, answers, o).ok
    requires j < |vm.interfaces| && (Changed(prev, vm.interfaces[j]) || vm.interfaces[j].mac.Blank?)
    ensures var r := Update(M, prev, vm, t, true, answers, o);
            && |r.interfaces| == |vm.interfaces| && r.interfaces[j].mac.Written?
            && FirstStamped(r.pool, r.interfaces[j].mac.mac, vm.FullName(), t)
  {
    var r, v := Update(M, prev, vm, t, true, answers, o), vm.FullName();
    var u := UpdateLoop(M, CurrentTexts(prev), v, true, vm.interfaces, answers);
    UpdateOkWhen(M, prev, vm, t, true, answers, o);
    UpdateHasFacts(M, prev, v, t, vm.interfaces, answers);
    UpdateTextsKnown(M, prev, v, t, vm.interfaces, answers, u);
    TakenIsKnown(prev, v, vm.interfaces, answers, u, j);
    var x := u.done[j].mac.mac;
    UpdatedPool(M, prev, vm, t, answers, o, x);
    StampedListFirst(r.pool, u.pool, x, v, t);
  }

  lemma TakenIsKnown(prev: seq<Interface>, v: string, ifs: seq<Interface>, answers: seq<Option<Mac>>, u: UpdateRun,
                     j: nat)
    requires j < |ifs| == |answers| && NamesDistinct(ifs) && !u.failed && Returned(prev, ifs, answers, |ifs|, u)
    requires Noted(ifs, UpdateNotes(ifs, CurrentTexts(prev), answers), |ifs|, u.allocs)
             && AllKnownTexts(u.pool, v, u.allocs)
    requires Changed(prev, ifs[j]) || ifs[j].mac.Blank?
    ensures u.done[j].mac.Written? && Holds(u.pool, u.done[j].mac.mac, v)
  {
    NoteIsReturned(prev, ifs[j], answers[j], u.done[j]);
    assert LastNote(ifs, UpdateNotes(ifs, CurrentTexts(prev), answers), |ifs|, j);
    assert Known(u.pool, u.allocs[ifs[j].name], v);
  }

  /** Everywhere else the map stays as it was. */
  lemma UpdateElsewhere(M: MacMap, prev: seq<Interface>, vm: Vm, t: int, answers: seq<Option<Mac>>, o: Orders, x: Mac)
    requires WellFormed(M) && |answers| == |vm.interfaces| && OnRecord(M, prev, vm.FullName())
    requires OrdersFit(o, UpdateLoop(M, CurrentTexts(prev), vm.FullName(), true, vm.interfaces, answers))
    requires Update(M, prev, vm, t, true, answers, o).ok
    requires !GivenUp(prev, vm.interfaces, x)
    requires !TakenUp(prev, vm.interfaces, Update(M, prev, vm, t, true, answers, o).interfaces, x)
    ensures Entries(Update(M, prev, vm, t, true, answers, o).pool, x) == Entries(M, x)
  {
    UpdatedPool(M, prev, vm, t, answers, o, x);
    var u := UpdateLoop(M, CurrentTexts(prev), vm.FullName(), true, vm.interfaces, answers);
    NotesNamed(M, prev, vm.FullName(), t, vm.interfaces, answers, u, x);
    assert forall n :: n in u.allocs ==> !AllocatedAt(u.allocs, n, x);
  }

  /** After the commit of a successful update no entry is left of a pair that was singly held and left
      the VM: its interface is gone or stands at another address. */
  lemma CommittedUpdateLeavesNone(M: MacMap, prev: seq<Interface>, vm: Vm, t: int, answers: seq<Option<Mac>>, o: Orders,
                                  k: nat, persisted: int)
    requires WellFormed(M) && |answers| == |vm.interfaces| && OnRecord(M, prev, vm.FullName())
             && IsVmName(vm.FullName())
    requires OrdersFit(o, UpdateLoop(M, CurrentTexts(prev), vm.FullName(), true, vm.interfaces, answers))
    requires Update(M, prev, vm, t, true, answers, o).ok && t <= persisted
    requires LastIn(prev, k)
    requires forall e :: In(M, prev[k].mac.mac, e) && e.inst == vm.FullName() ==> e.key == prev[k].name
    requires forall j :: 0 <= j < |vm.interfaces| && vm.interfaces[j].name == prev[k].name ==>
               vm.interfaces[j].mac.Written? && vm.interfaces[j].mac.mac != prev[k].mac.mac
    ensures var r := Update(M, prev, vm, t, true, answers, o);
            forall e :: In(MarkReady(r.pool, vm.FullName(), persisted, r.interfaces), prev[k].mac.mac, e) ==>
              !(e.inst == vm.FullName() && e.key == prev[k].name)
  {
    var r, v, x := Update(M, prev, vm, t, true, answers, o), vm.FullName(), prev[k].mac.mac;
    forall j | 0 <= j < |vm.interfaces| && vm.interfaces[j].name == prev[k].name
      ensures Changed(prev, vm.interfaces[j]) {
      forall i: nat | LastIn(prev, i) && prev[i].name == prev[k].name ensures i == k {
      }
    }
    UpdateStampsGivenUp(M, prev, vm, t, answers, o, k);
    GivenUpEntry(M, prev, vm, t, answers, o, k);
    UpdateReturns(M, prev, vm, t, true, answers, o);
    UpdateSucceeds(M, prev, vm, t, answers, o);
    MarkReadyExact(r.pool, v, persisted, r.interfaces, x, Entry(v, prev[k].name, Some(t)));
    forall e | In(MarkReady(r.pool, v, persisted, r.interfaces), x, e) && e.inst == v && e.key == prev[k].name
      ensures false {
      assert Entry(v, prev[k].name, e.stamp) == e;
      assert Recorded(MarkReady(r.pool, v, persisted, r.interfaces), x, v, prev[k].name);
    }
  }

  lemma GivenUpEntry(M: MacMap, prev: seq<Interface>, vm: Vm, t: int, answers: seq<Option<Mac>>, o: Orders, k: nat)
    requires WellFormed(M) && |answers| == |vm.interfaces| && OnRecord(M, prev, vm.FullName())
    requires OrdersFit(o, UpdateLoop(M, CurrentTexts(prev), vm.FullName(), true, vm.interfaces, answers))
    requires Update(M, prev, vm, t, true, answers, o).ok
    requires LastIn(prev, k) && GivesUp(prev, vm.interfaces, k)
    requires forall e :: In(M, prev[k].mac.mac, e) && e.inst == vm.FullName() ==> e.key == prev[k].name
    ensures In(Update(M, prev, vm, t, true, answers, o).pool, prev[k].mac.mac,
               Entry(vm.FullName(), prev[k].name, Some(t)))
  {
    var x, v := prev[k].mac.mac, vm.FullName();
    UpdatedPool(M, prev, vm, t, answers, o, x);
    var P := UpdateLoop(M, CurrentTexts(prev), v, true, vm.interfaces, answers).pool;
    var e :| In(M, x, e) && e.inst == v;
    InHolds(M, x, e);
    assert In(M, x, Entries(M, x)[FirstOf(Entries(M, x), v)]);
    var es, f := Entries(P, x), FirstOf(Entries(P, x), v);
    assert es[f].key == prev[k].name;
    assert StampList(es, v, t)[f] == Entry(v, prev[k].name, Some(t));
    assert Entry(v, prev[k].name, Some(t)) in Entries(Update(M, prev, vm, t, true, answers, o).pool, x);
  }
}
