/** The objects that carry the state: the MAC map with its methods (pkg/pool-manager/macpoolmap.go)
    and the pool manager's VM operations (pkg/pool-manager/virtualmachine_pool.go, transaction.go),
    each proved against the functions of the other modules. */
module PoolManagement {
  import opened Addresses
  import opened MacMaps
  import opened Transactions
  import opened VmOperations
  import opened Healing
  import opened RangeAllocation

  // ---- iterating over Go maps -----------------------------------------------------------------

  /** The keys of a map in the order some iteration visits them. */
  method SomeOrder(keys: set<string>) returns (order: seq<string>)
    ensures Enumerates(order, keys)
  {
    order := [];
    var left := keys;
    while left != {}
      invariant left <= keys
      invariant forall n :: n in order <==> n in keys && n !in left
      invariant forall a, b :: 0 <= a < b < |order| ==> order[a] != order[b]
      decreases |left|
    {
      var n :| n in left;
      order := order + [n];
      left := left - {n};
    }
  }

  method SomeMacOrder(keys: set<Mac>) returns (order: seq<Mac>)
    ensures forall m :: m in order <==> m in keys
    ensures forall a, b :: 0 <= a < b < |order| ==> order[a] != order[b]
  {
    order := [];
    var left := keys;
    while left != {}
      invariant left <= keys
      invariant forall m :: m in order <==> m in keys && m !in left
      invariant forall a, b :: 0 <= a < b < |order| ==> order[a] != order[b]
      decreases |left|
    {
      var m :| m in left;
      order := order + [m];
      left := left - {m};
    }
  }

  /** Recording a pair, once it is known where the pair stands. */
  lemma Upserted(M: MacMap, m: Mac, v: string, i: string, k: nat)
    requires k <= |Entries(M, m)| && forall j :: 0 <= j < k ==>
               !(Entries(M, m)[j].inst == v && Entries(M, m)[j].key == i)
    requires k < |Entries(M, m)| ==> Entries(M, m)[k].inst == v && Entries(M, m)[k].key == i
    ensures var es := Entries(M, m);
            CreateOrUpdate(M, m, v, i) == M[m := if k < |es| then es[k := Entry(v, i, None)]
                                            else es + [Entry(v, i, None)]]
  {
    assert PairAt(Entries(M, m), v, i) == k;
  }

  /** The addresses from position i of the order on. */
  ghost function PickFrom(allocs: map<string, MacText>, order: seq<string>, i: nat): seq<MacText>
    requires i <= |order| && forall n :: n in order ==> n in allocs
  {
    Pick(allocs, order[i..])
  }

  lemma PickTail(allocs: map<string, MacText>, order: seq<string>, i: nat)
    requires i < |order| && forall n :: n in order ==> n in allocs
    ensures forall n :: n in order[i..] ==> n in allocs
    ensures PickFrom(allocs, order, i) == [allocs[order[i]]] + PickFrom(allocs, order, i + 1)
  {
    assert order[i..][1..] == order[i + 1..];
  }

  /** The same lookups succeed in both maps. */
  ghost predicate SameKnown(A: MacMap, B: MacMap, v: string) {
    forall x: MacText :: Known(A, x, v) == Known(B, x, v)
  }

  /** Stamping a list of addresses begins with the first, if that is known. */
  lemma StampHead(M: MacMap, v: string, t: int, texts: seq<MacText>)
    requires texts != []
    ensures StampAll(M, v, t, texts)
            == if Known(M, texts[0], v)
               then StampAll(Put(M, texts[0].mac, StampList(Entries(M, texts[0].mac), v, t)), v, t, texts[1..])
               else M
  {
  }

  // ---- the MAC map ----------------------------------------------------------------------------

  /** Entries whose transaction the persisted time has reached. */
  function ReadyOnly(es: seq<Entry>, persisted: int): seq<Entry> {
    if es == [] then [] else (if es[0].Ready(persisted) then [es[0]] else []) + ReadyOnly(es[1..], persisted)
  }

  lemma {:induction false} ReadySplit(a: seq<Entry>, b: seq<Entry>, persisted: int)
    ensures ReadyOnly(a + b, persisted) == ReadyOnly(a, persisted) + ReadyOnly(b, persisted)
  {
    if a == [] {
      assert a + b == b;
    } else {
      ReadySplit(a[1..], b, persisted);
      assert (a + b)[1..] == a[1..] + b;
      var h := if a[0].Ready(persisted) then [a[0]] else [];
      assert (a + b)[0] == a[0];
      ConcatAssoc(h, ReadyOnly(a[1..], persisted), ReadyOnly(b, persisted));
    }
  }

  lemma {:induction false} ReadyIff(es: seq<Entry>, persisted: int)
    ensures forall e :: e in ReadyOnly(es, persisted) <==> e in es && e.Ready(persisted)
  {
    if es != [] {
      ReadyIff(es[1..], persisted);
    }
  }

  /** The sub-map of one instance. */
  function FilterIn(M: MacMap, v: string): MacMap {
    map m | m in M && Only(M[m], v) != [] :: Only(M[m], v)
  }

  function FilterReady(M: MacMap, persisted: int): MacMap {
    map m | m in M && ReadyOnly(M[m], persisted) != [] :: ReadyOnly(M[m], persisted)
  }

  class MacPool {
    var entries: MacMap

    ghost predicate Valid()
      reads this
    {
      WellFormed(entries)
    }

    constructor ()
      ensures Valid() && entries == map[]
    {
      entries := map[];
    }

    /** First entry of the instance at the address. */
    method FindByMacAddressAndInstanceName(t: MacText, v: string) returns (index: Option<nat>)
      ensures index == if Known(entries, t, v) then Some(FirstOf(Entries(entries, t.mac), v)) else None
    {
      if !t.Written? || t.mac !in entries {
        return None;
      }
      var es := entries[t.mac];
      for i := 0 to |es|
        invariant forall j :: 0 <= j < i ==> es[j].inst != v
      {
        if es[i].inst == v {
          return Some(i);
        }
      }
      return None;
    }

    method ClearMacTransactionFromMacEntry(m: Mac, v: string)
      requires Valid()
      modifies this
      ensures entries == Put(old(entries), m, ClearList(Entries(old(entries), m), v))
    {
      var index := FindByMacAddressAndInstanceName(Written(m, 0), v);
      if index.None? {
        return;
      }
      var es := entries[m];
      entries := entries[m := es[index.value := es[index.value].Cleared()]];
    }

    /** Removes the first entry of the instance; the address goes when its list becomes empty. */
    method RemoveInstanceFromMac(t: MacText, v: string)
      requires Valid()
      modifies this
      ensures Valid() && entries == RemoveInstance(old(entries), t, v)
    {
      RemoveInstanceOk(entries, t, v);
      var index := FindByMacAddressAndInstanceName(t, v);
      if index.None? {
        return;
      }
      var es := entries[t.mac];
      es := es[..index.value] + es[index.value + 1..];
      if |es| == 0 {
        entries := entries - {t.mac};
      } else {
        entries := entries[t.mac := es];
      }
    }

    method CreateOrUpdateEntry(m: Mac, v: string, i: string)
      requires Valid()
      modifies this
      ensures Valid() && entries == CreateOrUpdate(old(entries), m, v, i)
    {
      ghost var M := entries;
      CreateOrUpdateOk(M, m, v, i);
      var es := if m in entries then entries[m] else [];
      for k := 0 to |es|
        invariant entries == old(entries)
        invariant forall j :: 0 <= j < k ==> !(es[j].inst == v && es[j].key == i)
      {
        if es[k].inst == v && es[k].key == i {
          Upserted(M, m, v, i, k);
          entries := entries[m := es[k := Entry(v, i, None)]];
          return;
        }
      }
      Upserted(M, m, v, i, |es|);
      entries := entries[m := es + [Entry(v, i, None)]];
    }

    /** Stamps the instance's first entry at one address, when there is one. */
    method StampOne(text: MacText, v: string, t: int) returns (found: bool)
      requires Valid() && IsVmName(v)
      modifies this
      ensures Valid() && found == old(Known(entries, text, v))
      ensures entries == if found then Put(old(entries), text.mac, StampList(Entries(old(entries), text.mac), v, t))
              else old(entries)
      ensures SameKnown(old(entries), entries, v)
    {
      var index := FindByMacAddressAndInstanceName(text, v);
      if index.None? {
        return false;
      }
      var es := entries[text.mac];
      StampKnown(entries, v, t, text);
      StampOk(es, v, t);
      entries := entries[text.mac := es[index.value := es[index.value].Stamped(t)]];
      return true;
    }

    /** Stamps the given addresses in some order and stops at the first unknown one. */
    method UpdateMacTransactionTimestamps(v: string, t: int, allocs: map<string, MacText>)
        returns (order: seq<string>, ok: bool)
      requires Valid() && IsVmName(v)
      modifies this
      ensures Valid() && Enumerates(order, allocs.Keys)
      ensures entries == StampAll(old(entries), v, t, Pick(allocs, order))
      ensures ok <==> forall n :: n in allocs ==> Known(old(entries), allocs[n], v)
    {
      order := SomeOrder(allocs.Keys);
      ghost var M, S := entries, StampAll(entries, v, t, Pick(allocs, order));
      assert order[0..] == order;
      for k := 0 to |order|
        invariant Valid() && SameKnown(M, entries, v)
        invariant StampAll(entries, v, t, PickFrom(allocs, order, k)) == S
        invariant forall j :: 0 <= j < k ==> Known(M, allocs[order[j]], v)
      {
        PickTail(allocs, order, k);
        assert order[k] in allocs;
        ghost var texts, before := PickFrom(allocs, order, k), entries;
        var found := StampOne(allocs[order[k]], v, t);
        StampHead(before, v, t, texts);
        if !found {
          return order, false;
        }
      }
      return order, true;
    }

    /** The sub-map of one instance's entries. */
    method FilterInByInstanceName(v: string) returns (sub: MacMap)
      ensures sub == FilterIn(entries, v)
    {
      var left := entries.Keys;
      sub := map[];
      while left != {}
        invariant left <= entries.Keys
        invariant forall m :: m in sub <==> m in entries && m !in left && Only(entries[m], v) != []
        invariant forall m :: m in sub ==> sub[m] == Only(entries[m], v)
        decreases |left|
      {
        var m :| m in left;
        left := left - {m};
        var kept := OwnEntries(entries[m], v);
        if kept != [] {
          sub := sub[m := kept];
        }
      }
    }

    static method OwnEntries(es: seq<Entry>, v: string) returns (kept: seq<Entry>)
      ensures kept == Only(es, v)
    {
      kept := [];
      for j := 0 to |es|
        invariant kept == Only(es[..j], v)
      {
        OnlySplit(es[..j], [es[j]], v);
        assert es[..j] + [es[j]] == es[..j + 1];
        if es[j].inst == v {
          kept := kept + [es[j]];
        }
      }
      assert es[..|es|] == es;
    }

    static method ReadyEntries(es: seq<Entry>, persisted: int) returns (kept: seq<Entry>)
      ensures kept == ReadyOnly(es, persisted)
    {
      kept := [];
      for j := 0 to |es|
        invariant kept == ReadyOnly(es[..j], persisted)
      {
        ReadySplit(es[..j], [es[j]], persisted);
        assert es[..j] + [es[j]] == es[..j + 1];
        if es[j].Pending() {
          if es[j].Ready(persisted) {
            kept := kept + [es[j]];
          }
        }
      }
      assert es[..|es|] == es;
    }

    /** Drops the entries that the persisted time has not reached. */
    static method FilterMacsThatRequireCommit(sub: MacMap, persisted: int) returns (ready: MacMap)
      ensures ready == FilterReady(sub, persisted)
    {
      var left := sub.Keys;
      ready := map[];
      while left != {}
        invariant left <= sub.Keys
        invariant forall m :: m in ready <==> m in sub && m !in left && ReadyOnly(sub[m], persisted) != []
        invariant forall m :: m in ready ==> ready[m] == ReadyOnly(sub[m], persisted)
        decreases |left|
      {
        var m :| m in left;
        left := left - {m};
        var kept := ReadyEntries(sub[m], persisted);
        if |kept| > 0 {
          ready := ready[m := kept];
        }
      }
    }

    /** Confirms the instance's first entry at the address when the VM still has it, else drops it. */
    method AlignMacEntryAccordingToVmInterface(m: Mac, v: string, ifs: seq<Interface>)
      requires Valid()
      modifies this
      ensures entries == Align(old(entries), m, v, ifs)
    {
      var index := FindByMacAddressAndInstanceName(Written(m, 0), v);
      if index.None? {
        return;
      }
      var entry := entries[m][index.value];
      for j := 0 to |ifs|
        invariant entries == old(entries)
        invariant forall x :: 0 <= x < j ==> !(ifs[x].mac.Written? && ifs[x].mac.mac == m && ifs[x].name == entry.key)
      {
        if ifs[j].mac.Written? && ifs[j].mac.mac == m {
          if ifs[j].name == entry.key {
            assert OnVm(ifs, m, entry.key);
            ClearMacTransactionFromMacEntry(m, v);
            return;
          }
        }
      }
      RemoveInstanceFromMac(Written(m, 0), v);
    }
  }

  lemma StampKnown(M: MacMap, v: string, t: int, text: MacText)
    requires Known(M, text, v)
    ensures forall x: MacText :: Known(Put(M, text.mac, StampList(Entries(M, text.mac), v, t)), x, v) == Known(M, x, v)
    ensures Put(M, text.mac, StampList(Entries(M, text.mac), v, t))
            == M[text.mac := StampList(Entries(M, text.mac), v, t)]
  {
    StampListFacts(Entries(M, text.mac), v, t);
    PutEntries(M, text.mac, StampList(Entries(M, text.mac), v, t));
  }

  // ---- loops that stop early ------------------------------------------------------------------

  function Nones(n: nat): seq<Option<Mac>> {
    seq(n, _ => None)
  }

  /** Once the create loop has failed, the remaining interfaces make no difference. */
  lemma {:induction false} CreateStuck(M: MacMap, v: string, nets: seq<Network>, live: bool, ifs: seq<Interface>,
                                       answers: seq<Option<Mac>>, k: nat)
    requires k <= |ifs| && |answers| == k && CreateLoop(M, v, nets, live, ifs[..k], answers).failed
    requires CreateAnswersFree(M, v, nets, live, ifs[..k], answers)
    ensures CreateLoop(M, v, nets, live, ifs, answers + Nones(|ifs| - k))
            == CreateLoop(M, v, nets, live, ifs[..k], answers)
    ensures CreateAnswersFree(M, v, nets, live, ifs, answers + Nones(|ifs| - k))
    decreases |ifs|
  {
    var n := |ifs| - 1;
    var all := answers + Nones(|ifs| - k);
    if k == |ifs| {
      assert ifs[..k] == ifs && all == answers;
    } else {
      assert ifs[..n][..k] == ifs[..k];
      assert all[..n] == answers + Nones(n - k);
      CreateStuck(M, v, nets, live, ifs[..n], answers, k);
      assert all[n].None?;
    }
  }

  lemma {:induction false} UpdateStuck(M: MacMap, cur: map<string, MacText>, v: string, live: bool, ifs: seq<Interface>,
                                       answers: seq<Option<Mac>>, k: nat)
    requires k <= |ifs| && |answers| == k && UpdateLoop(M, cur, v, live, ifs[..k], answers).failed
    requires UpdateAnswersFree(M, cur, v, live, ifs[..k], answers)
    ensures UpdateLoop(M, cur, v, live, ifs, answers + Nones(|ifs| - k))
            == UpdateLoop(M, cur, v, live, ifs[..k], answers)
    ensures UpdateAnswersFree(M, cur, v, live, ifs, answers + Nones(|ifs| - k))
    decreases |ifs|
  {
    var n := |ifs| - 1;
    var all := answers + Nones(|ifs| - k);
    if k == |ifs| {
      assert ifs[..k] == ifs && all == answers;
    } else {
      assert ifs[..n][..k] == ifs[..k];
      assert all[..n] == answers + Nones(n - k);
      UpdateStuck(M, cur, v, live, ifs[..n], answers, k);
      assert all[n].None?;
    }
  }

  /** The states of the loops after one more interface. */
  lemma CreateNextState(M: MacMap, v: string, nets: seq<Network>, live: bool, ifs: seq<Interface>,
                        answers: seq<Option<Mac>>, k: nat, a: Option<Mac>)
    requires k < |ifs| && |answers| == k
    ensures CreateLoop(M, v, nets, live, ifs[..k + 1], answers + [a])
            == CreateStep(CreateLoop(M, v, nets, live, ifs[..k], answers), v, nets, live, ifs[k], a)
    ensures CreateAnswersFree(M, v, nets, live, ifs[..k + 1], answers + [a]) <==>
            CreateAnswersFree(M, v, nets, live, ifs[..k], answers)
            && (a.Some? ==> a.value !in CreateLoop(M, v, nets, live, ifs[..k], answers).pool)
  {
    assert ifs[..k + 1][..k] == ifs[..k];
    assert (answers + [a])[..k] == answers;
  }

  lemma UpdateNextState(M: MacMap, cur: map<string, MacText>, v: string, live: bool, ifs: seq<Interface>,
                        answers: seq<Option<Mac>>, k: nat, a: Option<Mac>)
    requires k < |ifs| && |answers| == k
    ensures UpdateLoop(M, cur, v, live, ifs[..k + 1], answers + [a])
            == UpdateStep(UpdateLoop(M, cur, v, live, ifs[..k], answers), cur, v, live, ifs[k], a)
    ensures UpdateAnswersFree(M, cur, v, live, ifs[..k + 1], answers + [a]) <==>
            UpdateAnswersFree(M, cur, v, live, ifs[..k], answers)
            && (a.Some? ==> a.value !in UpdateLoop(M, cur, v, live, ifs[..k], answers).pool)
  {
    assert ifs[..k + 1][..k] == ifs[..k];
    assert (answers + [a])[..k] == answers;
  }

  /** The update loop has served the first k interfaces and its variables are u. */
  ghost predicate UpdateReached(M: MacMap, cur: map<string, MacText>, v: string, live: bool, ifs: seq<Interface>,
                                answers: seq<Option<Mac>>, k: nat, u: UpdateRun)
    requires k <= |ifs|
  {
    && |answers| == k && UpdateAnswersFree(M, cur, v, live, ifs[..k], answers)
    && u == UpdateLoop(M, cur, v, live, ifs[..k], answers)
  }

  lemma UpdateReachedNext(M: MacMap, cur: map<string, MacText>, v: string, live: bool, ifs: seq<Interface>,
                          answers: seq<Option<Mac>>, k: nat, u: UpdateRun, a: Option<Mac>)
    requires k < |ifs| && UpdateReached(M, cur, v, live, ifs, answers, k, u) && (a.Some? ==> a.value !in u.pool)
    ensures UpdateReached(M, cur, v, live, ifs, answers + [a], k + 1, UpdateStep(u, cur, v, live, ifs[k], a))
  {
    UpdateNextState(M, cur, v, live, ifs, answers, k, a);
  }

  lemma UpdateReachedEnd(M: MacMap, cur: map<string, MacText>, v: string, live: bool, ifs: seq<Interface>,
                         answers: seq<Option<Mac>>, k: nat, u: UpdateRun)
    requires k <= |ifs| && UpdateReached(M, cur, v, live, ifs, answers, k, u) && (u.failed || k == |ifs|)
    ensures UpdateReached(M, cur, v, live, ifs, answers + Nones(|ifs| - k), |ifs|, u)
  {
    if u.failed {
      UpdateStuck(M, cur, v, live, ifs, answers, k);
    }
    assert ifs[..|ifs|] == ifs;
    assert k == |ifs| ==> answers + Nones(|ifs| - k) == answers;
  }

  // ---- checks on the requested VM -------------------------------------------------------------

  method CheckIntraVMDuplicateMACs(ifs: seq<Interface>) returns (ok: bool)
    ensures ok == RequestsDistinct(ifs)
  {
    var seen: map<Mac, string> := map[];
    for i := 0 to |ifs|
      invariant RequestsDistinct(ifs[..i])
      invariant forall m :: m in seen <==> exists j :: 0 <= j < i && ifs[j].mac.Written? && ifs[j].mac.mac == m
    {
      assert ifs[..i + 1][..i] == ifs[..i];
      if ifs[i].mac.Blank? {
        continue;
      }
      if ifs[i].mac.Garbled? {
        return false;
      }
      if ifs[i].mac.mac in seen {
        return false;
      }
      seen := seen[ifs[i].mac.mac := ifs[i].name];
    }
    assert ifs[..|ifs|] == ifs;
    return true;
  }

  method CheckVmForInterfaceDuplication(ifs: seq<Interface>) returns (ok: bool)
    ensures ok == NamesDistinct(ifs)
  {
    var seen: set<string> := {};
    for i := 0 to |ifs|
      invariant NamesDistinct(ifs[..i])
      invariant forall n :: n in seen <==> exists j :: 0 <= j < i && ifs[j].name == n
    {
      if ifs[i].name in seen {
        return false;
      }
      seen := seen + {ifs[i].name};
    }
    assert ifs[..|ifs|] == ifs;
    return true;
  }

  /** The networks by name; a later network of the same name replaces an earlier one. */
  method NetworksByName(nets: seq<Network>) returns (byName: map<string, Network>)
    ensures forall n :: (n in byName && byName[n].multus) <==> MultusNamed(nets, n)
  {
    byName := map[];
    for i := 0 to |nets|
      invariant forall n :: n in byName ==> (byName[n].multus <==> MultusNamed(nets[..i], n))
      invariant forall n :: n !in byName ==> !MultusNamed(nets[..i], n)
    {
      assert nets[..i + 1][..i] == nets[..i];
      byName := byName[nets[i].name := nets[i]];
    }
    assert nets[..|nets|] == nets;
  }

  method CurrentInterfaces(ifs: seq<Interface>) returns (texts: map<string, MacText>)
    ensures texts == CurrentTexts(ifs)
  {
    texts := map[];
    for i := 0 to |ifs|
      invariant texts == CurrentTexts(ifs[..i])
    {
      assert ifs[..i + 1][..i] == ifs[..i];
      texts := texts[ifs[i].name := ifs[i].mac];
    }
    assert ifs[..|ifs|] == ifs;
  }

  // ---- the pool manager -----------------------------------------------------------------------

  class PoolManager {
    const macs: MacPool
    const ranges: RangeAllocator
    const waitTime: nat

    ghost predicate Valid()
      reads macs, ranges, ranges.rangeStart, ranges.rangeEnd, ranges.currentMac
    {
      macs.Valid() && ranges.Configured()
    }

    constructor (ranges: RangeAllocator, waitTime: nat)
      requires ranges.Configured()
      ensures Valid() && this.ranges == ranges && this.waitTime == waitTime && fresh(macs) && macs.entries == map[]
    {
      this.ranges := ranges;
      this.waitTime := waitTime;
      this.macs := new MacPool();
    }

    method AllocateRequested(v: string, iface: Interface, live: bool) returns (ok: bool)
      requires macs.Valid() && !iface.mac.Blank?
      modifies macs
      ensures macs.Valid() && ok == iface.mac.Written?
      ensures macs.entries == if ok then Record(old(macs.entries), iface.mac.mac, v, iface.name, live)
              else old(macs.entries)
    {
      if iface.mac.Garbled? {
        return false;
      }
      if live {
        macs.CreateOrUpdateEntry(iface.mac.mac, v, iface.name);
      }
      return true;
    }

    /** Takes the next free address of the range and records it unless this is a dry run. */
    method AllocateFromPool(v: string, name: string, live: bool) returns (mac: Option<Mac>)
      requires Valid()
      modifies macs, ranges.currentMac
      ensures Valid()
      ensures mac.Some? ==>
                mac.value !in old(macs.entries) && macs.entries == Record(old(macs.entries), mac.value, v, name, live)
      ensures mac.None? ==> macs.entries == old(macs.entries)
      ensures FreeMacResult(Value(ranges.rangeStart[..]), Value(ranges.rangeEnd[..]), old(Value(ranges.currentMac[..])),
                            old(macs.entries).Keys, if mac.Some? then Some(Value(mac.value))
                                else None, Value(ranges.currentMac[..]))
    {
      var free := ranges.GetFreeMac(macs.entries.Keys);
      if free == null {
        return None;
      }
      var octets: Mac := free[..];
      if live {
        macs.CreateOrUpdateEntry(octets, v, name);
      }
      return Some(octets);
    }

    method RevertAllocation(v: string, allocs: map<string, MacText>, live: bool) returns (order: seq<string>)
      requires macs.Valid()
      modifies macs
      ensures macs.Valid() && Enumerates(order, allocs.Keys)
      ensures macs.entries == if live then RevertAll(old(macs.entries), v, Pick(allocs, order)) else old(macs.entries)
    {
      order := SomeOrder(allocs.Keys);
      if !live {
        return;
      }
      assert order[0..] == order;
      for k := 0 to |order|
        invariant macs.Valid()
        invariant forall n :: n in order[k..] ==> n in allocs
        invariant RevertAll(macs.entries, v, Pick(allocs, order[k..]))
                  == RevertAll(old(macs.entries), v, Pick(allocs, order))
      {
        PickTail(allocs, order, k);
        macs.RemoveInstanceFromMac(allocs[order[k]], v);
      }
      assert order[|order|..] == [];
    }

    /** One round of the allocation loop of a create. */
    method CreateInterface(v: string, nets: seq<Network>, byName: map<string, Network>, iface: Interface, live: bool,
                           allocs: map<string, MacText>, done: seq<Interface>)
        returns (allocs': map<string, MacText>, done': seq<Interface>, failed: bool, ghost a: Option<Mac>)
      requires Valid() && forall n :: (n in byName && byName[n].multus) <==> MultusNamed(nets, n)
      modifies macs, ranges.currentMac
      ensures Valid() && (a.Some? ==> a.value !in old(macs.entries))
      ensures CreateRun(macs.entries, allocs', done', failed)
              == CreateStep(CreateRun(old(macs.entries), allocs, done, false), v, nets, live, iface, a)
    {
      allocs', done', failed, a := allocs, done, false, None;
      if !(iface.masquerade || (iface.name in byName && byName[iface.name].multus)) {
        done' := done + [iface];
      } else if !iface.mac.Blank? {
        var ok := AllocateRequested(v, iface, live);
        failed := !ok;
        if ok {
          allocs', done' := allocs[iface.name := iface.mac], done + [iface];
        }
      } else {
        var mac := AllocateFromPool(v, iface.name, live);
        a, failed := mac, mac.None?;
        if mac.Some? {
          allocs' := allocs[iface.name := Written(mac.value, 0)];
          done' := done + [iface.(mac := Written(mac.value, 0))];
        }
      }
    }

    /** The allocation loop of a create. */
    method CreateInterfaces(v: string, nets: seq<Network>, ifs: seq<Interface>, live: bool)
        returns (allocs: map<string, MacText>, done: seq<Interface>, failed: bool, ghost answers: seq<Option<Mac>>)
      requires Valid()
      modifies macs, ranges.currentMac
      ensures Valid() && |answers| == |ifs|
      ensures CreateAnswersFree(old(macs.entries), v, nets, live, ifs, answers)
      ensures CreateRun(macs.entries, allocs, done, failed)
              == CreateLoop(old(macs.entries), v, nets, live, ifs, answers)
    {
      var byName := NetworksByName(nets);
      allocs, done, failed, answers := map[], [], false, [];
      ghost var M := macs.entries;
      for k := 0 to |ifs|
        invariant Valid() && |answers| == k && !failed
        invariant CreateAnswersFree(M, v, nets, live, ifs[..k], answers)
        invariant CreateRun(macs.entries, allocs, done, false) == CreateLoop(M, v, nets, live, ifs[..k], answers)
      {
        ghost var a;
        allocs, done, failed, a := CreateInterface(v, nets, byName, ifs[k], live, allocs, done);
        CreateNextState(M, v, nets, live, ifs, answers, k, a);
        answers := answers + [a];
        if failed {
          CreateStuck(M, v, nets, live, ifs, answers, k + 1);
          answers := answers + Nones(|ifs| - (k + 1));
          return;
        }
      }
      assert ifs[..|ifs|] == ifs;
    }

    /** AllocateVirtualMachineMac: the map, the verdict and the interfaces of the specification, for
        the answers the allocator gave and the orders the loops took. */
    method AllocateVirtualMachineMac(vm: Vm, t: int, live: bool)
        returns (ok: bool, interfaces: seq<Interface>, ghost answers: seq<Option<Mac>>, ghost order: seq<string>)
      requires Valid() && IsVmName(vm.FullName())
      modifies macs, ranges.currentMac
      ensures Valid() && |answers| == |vm.interfaces|
      ensures CreateAnswersFree(old(macs.entries), vm.FullName(), vm.networks, live, vm.interfaces, answers)
      ensures Enumerates(order, CreateLoop(old(macs.entries), vm.FullName(), vm.networks, live, vm.interfaces,
                                           answers).allocs.Keys)
      ensures Outcome(macs.entries, ok, interfaces) == Allocate(old(macs.entries), vm, t, live, answers, order)
    {
      var v, ifs := vm.FullName(), vm.interfaces;
      answers := Nones(|ifs|);
      CreateWithNones(macs.entries, v, vm.networks, live, ifs);
      order := AnyOrder(CreateLoop(macs.entries, v, vm.networks, live, ifs, answers).allocs.Keys);
      if |ifs| == 0 {
        return true, ifs, answers, order;
      }
      if live {
        var distinct := CheckIntraVMDuplicateMACs(ifs);
        if !distinct {
          return false, ifs, answers, order;
        }
        distinct := CheckVmForInterfaceDuplication(ifs);
        if !distinct {
          return false, ifs, answers, order;
        }
      }
      if |vm.networks| == 0 {
        return true, ifs, answers, order;
      }
      var allocs, done, failed;
      allocs, done, failed, answers := CreateInterfaces(v, vm.networks, ifs, live);
      if failed {
        order := RevertAllocation(v, allocs, live);
        return false, ifs, answers, order;
      }
      order := AnyOrder(allocs.Keys);
      if live {
        var o, _ := macs.UpdateMacTransactionTimestamps(v, t, allocs);
        order := o;
      }
      return true, done, answers, order;
    }

    /** One round of the interface loop of an update; `u` holds the loop's variables. */
    method UpdateInterface(v: string, cur: map<string, MacText>, iface: Interface, live: bool, u: UpdateRun)
        returns (u': UpdateRun, ghost a: Option<Mac>)
      requires Valid() && u.pool == macs.entries && !u.failed
      modifies macs, ranges.currentMac
      ensures Valid() && u'.pool == macs.entries && (a.Some? ==> a.value !in u.pool)
      ensures u' == UpdateStep(u, cur, v, live, iface, a)
    {
      var name := iface.name;
      u', a := u, None;
      if name in cur {
        if iface.mac.Blank? {
          u' := u.(allocs := u.allocs[name := cur[name]], done := u.done + [iface.(mac := cur[name])]);
        } else if Normal(iface.mac) != cur[name] {
          var ok := AllocateRequested(v, iface, live);
          if !ok {
            u' := u.(failed := true);
            return;
          }
          u' := u.(pool := macs.entries, release := u.release[name := cur[name]],
                   allocs := u.allocs[name := iface.mac], done := u.done + [iface]);
        } else {
          u' := u.(done := u.done + [iface]);
        }
        u' := u'.(delta := u.delta - {name});
      } else if !iface.mac.Blank? {
        var ok := AllocateRequested(v, iface, live);
        if !ok {
          u' := u.(failed := true);
          return;
        }
        u' := u.(pool := macs.entries, allocs := u.allocs[name := iface.mac], done := u.done + [iface]);
      } else {
        var mac := AllocateFromPool(v, name, live);
        a := mac;
        if mac.None? {
          u' := u.(failed := true);
          return;
        }
        u' := u.(pool := macs.entries, allocs := u.allocs[name := Written(mac.value, 0)],
                 done := u.done + [iface.(mac := Written(mac.value, 0))]);
      }
    }

    /** The interface loop of an update. */
    method UpdateInterfaces(v: string, cur: map<string, MacText>, ifs: seq<Interface>, live: bool)
        returns (u: UpdateRun, ghost answers: seq<Option<Mac>>)
      requires Valid()
      modifies macs, ranges.currentMac
      ensures Valid() && u.pool == macs.entries
      ensures UpdateReached(old(macs.entries), cur, v, live, ifs, answers, |ifs|, u)
    {
      u, answers := UpdateRun(macs.entries, map[], cur, map[], [], false), [];
      ghost var M := macs.entries;
      for k := 0 to |ifs|
        invariant Valid() && !u.failed && u.pool == macs.entries
        invariant UpdateReached(M, cur, v, live, ifs, answers, k, u)
      {
        ghost var u0, a := u, None;
        u, a := UpdateInterface(v, cur, ifs[k], live, u);
        UpdateReachedNext(M, cur, v, live, ifs, answers, k, u0, a);
        answers := answers + [a];
        if u.failed {
          UpdateReachedEnd(M, cur, v, live, ifs, answers, k + 1, u);
          answers := answers + Nones(|ifs| - (k + 1));
          return;
        }
      }
    }

    /** Stamps the new, the vanished and the replaced addresses of an update. */
    method StampUpdate(v: string, t: int, u: UpdateRun) returns (orders: Orders)
      requires macs.Valid() && IsVmName(v)
      modifies macs
      ensures macs.Valid() && OrdersFit(orders, u)
      ensures var s1 := StampAll(old(macs.entries), v, t, Pick(u.allocs, orders.allocs));
              var s2 := StampAll(s1, v, t, Pick(u.delta, orders.delta));
              macs.entries == StampAll(s2, v, t, Pick(u.release, orders.release))
    {
      var o1, _ := macs.UpdateMacTransactionTimestamps(v, t, u.allocs);
      var o2, _ := macs.UpdateMacTransactionTimestamps(v, t, u.delta);
      var o3, _ := macs.UpdateMacTransactionTimestamps(v, t, u.release);
      orders := Orders(o1, o2, o3);
    }

    /** UpdateMacAddressesForVirtualMachine for an existing previous VM. */
    method UpdateMacAddressesForVirtualMachine(prev: seq<Interface>, vm: Vm, t: int, live: bool)
        returns (ok: bool, interfaces: seq<Interface>, ghost answers: seq<Option<Mac>>, ghost orders: Orders)
      requires Valid() && IsVmName(vm.FullName())
      modifies macs, ranges.currentMac
      ensures Valid() && |answers| == |vm.interfaces|
      ensures UpdateAnswersFree(old(macs.entries), CurrentTexts(prev), vm.FullName(), live, vm.interfaces, answers)
      ensures OrdersFit(orders, UpdateLoop(old(macs.entries), CurrentTexts(prev), vm.FullName(), live, vm.interfaces,
                                           answers))
      ensures Outcome(macs.entries, ok, interfaces) == Update(old(macs.entries), prev, vm, t, live, answers, orders)
    {
      var v, ifs := vm.FullName(), vm.interfaces;
      if live {
        var distinct := CheckIntraVMDuplicateMACs(ifs);
        if distinct {
          distinct := CheckVmForInterfaceDuplication(ifs);
        }
        if !distinct {
          answers := Nones(|ifs|);
          UpdateWithNones(macs.entries, CurrentTexts(prev), v, live, ifs);
          orders := AnyOrders(UpdateLoop(macs.entries, CurrentTexts(prev), v, live, ifs, answers));
          return false, ifs, answers, orders;
        }
      }
      var cur := CurrentInterfaces(prev);
      var u;
      u, answers := UpdateInterfaces(v, cur, ifs, live);
      assert ifs[..|ifs|] == ifs;
      orders := AnyOrders(u);
      if u.failed {
        var o := RevertAllocation(v, u.allocs, live);
        orders := orders.(allocs := o);
        return false, ifs, answers, orders;
      }
      if live {
        var o := StampUpdate(v, t, u);
        orders := o;
      }
      return true, u.done, answers, orders;
    }

    /** Deletes every address at which the instance has an entry (VMs and pods alike). */
    method ReleaseAllMacs(v: string)
      requires macs.Valid()
      modifies macs
      ensures macs.Valid() && macs.entries == ReleaseAll(old(macs.entries), v)
    {
      ghost var M := macs.entries;
      var sub := macs.FilterInByInstanceName(v);
      var left := sub.Keys;
      while left != {}
        invariant macs.Valid() && left <= sub.Keys
        invariant forall m :: m in macs.entries <==> m in M && (m in sub ==> m in left)
        invariant forall m :: m in macs.entries ==> macs.entries[m] == M[m]
        decreases |left|
      {
        var m :| m in left;
        left := left - {m};
        macs.entries := macs.entries - {m};
      }
      ReleasedAll(M, macs.entries, v);
    }

    /** Commits what the API server has persisted for a VM. */
    method MarkVMAsReady(v: string, ifs: seq<Interface>, persisted: int)
      requires macs.Valid()
      modifies macs
      ensures macs.Valid() && macs.entries == MarkReady(old(macs.entries), v, persisted, ifs)
    {
      ghost var M := macs.entries;
      var sub := macs.FilterInByInstanceName(v);
      var ready := MacPool.FilterMacsThatRequireCommit(sub, persisted);
      forall m ensures m in ready <==> ReadyAt(M, m, v, persisted) {
        ReadyKeys(M, m, v, persisted);
      }
      var order := SomeMacOrder(ready.Keys);
      for i := 0 to |order|
        invariant macs.Valid() && PartlyCommitted(M, macs.entries, order[..i], v, persisted, ifs)
      {
        CommitOne(M, macs.entries, order, i, v, persisted, ifs);
        macs.AlignMacEntryAccordingToVmInterface(order[i], v, ifs);
      }
      assert order[..|order|] == order;
      CommittedAll(M, macs.entries, order, v, persisted, ifs);
    }

    /** The scan of one address: the vanished instance to remove and the VMs to align with. */
    static method ScanAddress(es: seq<Entry>, now: int, wait: nat, api: (string, string) -> Lookup)
        returns (failed: bool, victim: Option<string>, aligns: seq<(string, seq<Interface>)>)
      requires PendingAreVms(es)
      ensures failed == LookupFails(es, now, wait, api)
      ensures !failed ==> victim == Victim(es, now, wait, api) && ListsVms(aligns, ToAlign(es, now, wait, api), api)
    {
      failed, victim, aligns := false, None, [];
      for k := 0 to |es|
        invariant forall j :: 0 <= j < k ==> !(es[j].Expired(now, wait) && Ask(api, es[j].inst).Failed?)
        invariant victim == Victim(es[..k], now, wait, api)
        invariant ListsVms(aligns, ToAlign(es[..k], now, wait, api), api)
      {
        assert es[..k + 1][..k] == es[..k];
        if es[k].Expired(now, wait) {
          var vm := GetVmInstance(api, es[k].inst);
          if vm.Failed? {
            assert es[k] in es;
            return true, None, [];
          }
          if vm.Vanished? {
            victim := Some(es[k].inst);
          } else {
            VmNameRebuilt(es[k].inst);
            aligns := aligns + [(VmNamespaced(Split(es[k].inst)[1], Split(es[k].inst)[2]), vm.interfaces)];
          }
        }
      }
      assert es[..|es|] == es;
    }

    /** Removes one vanished instance from each address that has one. */
    method RemoveVictims(victims: map<Mac, string>)
      requires macs.Valid()
      modifies macs
      ensures macs.Valid()
      ensures forall m :: Entries(macs.entries, m) == RemovedAt(old(macs.entries), victims, m)
    {
      ghost var M := macs.entries;
      var left := victims.Keys;
      while left != {}
        invariant macs.Valid() && left <= victims.Keys
        invariant forall m :: Entries(macs.entries, m) == if m in left then Entries(M, m) else RemovedAt(M, victims, m)
        decreases |left|
      {
        var m :| m in left;
        left := left - {m};
        PutEntries(macs.entries, m, RemoveList(Entries(macs.entries, m), victims[m]));
        macs.RemoveInstanceFromMac(Written(m, 0), victims[m]);
      }
    }

    /** Aligns one address with the VMs found for it. */
    method AlignAddress(m: Mac, vms: seq<(string, seq<Interface>)>)
      requires macs.Valid()
      modifies macs
      ensures macs.Valid() && macs.entries
              == Put(old(macs.entries), m, AlignWith(Entries(old(macs.entries), m), m, vms))
    {
      ghost var M := macs.entries;
      ghost var es := Entries(M, m);
      PutSame(M, m);
      for k := 0 to |vms|
        invariant macs.Valid() && macs.entries == Put(M, m, AlignWith(es, m, vms[..k]))
      {
        AlignOk(macs.entries, m, vms[k].0, vms[k].1);
        PutPut(M, m, AlignWith(es, m, vms[..k]), AlignList(AlignWith(es, m, vms[..k]), m, vms[k].0, vms[k].1));
        assert vms[..k + 1][..k] == vms[..k];
        macs.AlignMacEntryAccordingToVmInterface(m, vms[k].0, vms[k].1);
      }
      assert vms[..|vms|] == vms;
    }

    method AlignAddresses(aligns: map<Mac, seq<(string, seq<Interface>)>>)
      requires macs.Valid()
      modifies macs
      ensures macs.Valid()
      ensures forall m :: Entries(macs.entries, m) == AlignedAt(Entries(old(macs.entries), m), aligns, m)
    {
      ghost var M := macs.entries;
      var left := aligns.Keys;
      while left != {}
        invariant macs.Valid() && left <= aligns.Keys
        invariant forall m :: Entries(macs.entries, m) == if m in left then Entries(M, m)
                  else AlignedAt(Entries(M, m), aligns, m)
        decreases |left|
      {
        var m :| m in left;
        left := left - {m};
        PutEntries(macs.entries, m, AlignWith(Entries(macs.entries, m), m, aligns[m]));
        AlignAddress(m, aligns[m]);
      }
    }

    /** The scan of all addresses; it changes nothing. */
    method ScanAll(now: int, api: (string, string) -> Lookup)
        returns (ok: bool, victims: map<Mac, string>, aligns: map<Mac, seq<(string, seq<Interface>)>>)
      requires macs.Valid()
      ensures ok == !HealFails(macs.entries, now, waitTime, api)
      ensures ok ==> forall m :: Scanned(macs.entries, m, victims, aligns, now, waitTime, api)
    {
      ok, victims, aligns := true, map[], map[];
      ghost var spec := ScanSpec(macs.entries, now, waitTime, api);
      ScanStart(macs.entries, now, waitTime, api);
      var left := macs.entries.Keys;
      while left != {}
        invariant left <= macs.entries.Keys
        invariant ScannedBut(spec, left, victims, aligns)
        decreases |left|
      {
        var m :| m in left;
        var failed, victim, list := ScanAddress(macs.entries[m], now, waitTime, api);
        if failed {
          FailureShows(macs.entries, m, now, waitTime, api);
          return false, map[], map[];
        }
        assert ScanOk(Entries(macs.entries, m), victim, list, now, waitTime, api);
        ScanNext(spec, left, victims, aligns, m, victim, list);
        left := left - {m};
        if victim.Some? {
          victims := victims[m := victim.value];
        }
        if |list| > 0 {
          aligns := aligns[m := list];
        }
      }
      NoFailure(macs.entries, victims, aligns, now, waitTime, api);
    }

    /** healStaleMacEntries: everything is scanned first, so a failed lookup changes nothing; then
        the vanished instances are removed, and then the addresses still on a VM are aligned. */
    method HealStaleMacEntries(now: int, api: (string, string) -> Lookup) returns (ok: bool)
      requires macs.Valid()
      modifies macs
      ensures macs.Valid() && macs.entries == Heal(old(macs.entries), now, waitTime, api)
      ensures ok == !HealFails(old(macs.entries), now, waitTime, api)
    {
      ghost var M := macs.entries;
      var victims, aligns;
      ok, victims, aligns := ScanAll(now, api);
      if ok {
        RemoveVictims(victims);
        AlignAddresses(aligns);
        HealedAll(M, macs.entries, victims, aligns, now, waitTime, api);
      }
    }

    /** The start-up scan over the VMs of managed namespaces; counts foreign holders. */
    method InitMacMapFromCluster(vms: seq<Vm>) returns (duplicates: nat, ok: bool)
      requires macs.Valid()
      modifies macs
      ensures macs.Valid()
      ensures Rebuild(macs.entries, duplicates, !ok) == RebuildVms(Rebuild(old(macs.entries), 0, false), vms)
    {
      duplicates, ok := 0, true;
      ghost var start := Rebuild(macs.entries, 0, false);
      for i := 0 to |vms|
        invariant macs.Valid() && ok
        invariant Rebuild(macs.entries, duplicates, false) == RebuildVms(start, vms[..i])
      {
        assert vms[..i + 1][..i] == vms[..i];
        if |vms[i].interfaces| == 0 || |vms[i].networks| == 0 {
          continue;
        }
        var found;
        found, ok := RebuildVm(vms[i], Rebuild(macs.entries, duplicates, false));
        duplicates := duplicates + found;
        if !ok {
          RebuildStops(start, vms, i + 1);
          return;
        }
      }
      assert vms[..|vms|] == vms;
    }

    method RebuildVm(vm: Vm, ghost r: Rebuild) returns (duplicates: nat, ok: bool)
      requires macs.Valid() && r.pool == macs.entries && !r.failed
      modifies macs
      ensures macs.Valid()
      ensures Rebuild(macs.entries, r.duplicates + duplicates, !ok)
              == RebuildInterfaces(r, vm.FullName(), vm.networks, vm.interfaces)
    {
      var byName := NetworksByName(vm.networks);
      var v, ifs := vm.FullName(), vm.interfaces;
      duplicates, ok := 0, true;
      for k := 0 to |ifs|
        invariant macs.Valid() && ok
        invariant Rebuild(macs.entries, r.duplicates + duplicates, false)
                  == RebuildInterfaces(r, v, vm.networks, ifs[..k])
      {
        assert ifs[..k + 1][..k] == ifs[..k];
        ghost var before := Rebuild(macs.entries, r.duplicates + duplicates, false);
        var found;
        found, ok := RebuildInterface(v, vm.networks, byName, ifs[k], before);
        duplicates := duplicates + found;
        if !ok {
          RebuildInterfacesStop(r, v, vm.networks, ifs, k + 1);
          return;
        }
      }
      assert ifs[..|ifs|] == ifs;
    }

    /** One interface of the start-up scan. */
    method RebuildInterface(v: string, ghost nets: seq<Network>, byName: map<string, Network>, iface: Interface,
                            ghost r: Rebuild) returns (duplicates: nat, ok: bool)
      requires macs.Valid() && r.pool == macs.entries && !r.failed
      requires forall n :: (n in byName && byName[n].multus) <==> MultusNamed(nets, n)
      modifies macs
      ensures macs.Valid()
      ensures Rebuild(macs.entries, r.duplicates + duplicates, !ok) == RebuildStep(r, v, nets, iface)
    {
      duplicates, ok := 0, true;
      if !(iface.masquerade || (iface.name in byName && byName[iface.name].multus)) || iface.mac.Blank? {
        return;
      }
      if iface.mac.Garbled? {
        ok := false;
        return;
      }
      if iface.mac.mac in macs.entries && PairAt(macs.entries[iface.mac.mac], v, iface.name)
          == |macs.entries[iface.mac.mac]| {
        duplicates := 1;
      }
      var _ := AllocateRequested(v, iface, true);
    }
  }

  // ---- facts behind the methods ---------------------------------------------------------------

  lemma ReleasedAll(M: MacMap, R: MacMap, v: string)
    requires forall m :: m in R <==> m in M && Only(M[m], v) == []
    requires forall m :: m in R ==> R[m] == M[m]
    ensures R == ReleaseAll(M, v)
  {
    forall m | m in M ensures Only(M[m], v) == [] <==> FirstOf(M[m], v) == |M[m]| {
      OnlyIff(M[m], v);
    }
  }

  lemma AnyOrder(keys: set<string>) returns (order: seq<string>)
    ensures Enumerates(order, keys)
    decreases |keys|
  {
    if keys == {} {
      order := [];
    } else {
      var n :| n in keys;
      var rest := AnyOrder(keys - {n});
      order := [n] + rest;
    }
  }

  lemma AnyOrders(u: UpdateRun) returns (o: Orders)
    ensures OrdersFit(o, u)
  {
    var a := AnyOrder(u.allocs.Keys);
    var d := AnyOrder(u.delta.Keys);
    var r := AnyOrder(u.release.Keys);
    o := Orders(a, d, r);
  }

  lemma {:induction false} CreateWithNones(M: MacMap, v: string, nets: seq<Network>, live: bool, ifs: seq<Interface>)
    ensures CreateAnswersFree(M, v, nets, live, ifs, Nones(|ifs|))
  {
    if ifs != [] {
      var n := |ifs| - 1;
      assert Nones(|ifs|)[..n] == Nones(n);
      CreateWithNones(M, v, nets, live, ifs[..n]);
    }
  }

  lemma {:induction false} UpdateWithNones(M: MacMap, cur: map<string, MacText>, v: string, live: bool,
                                           ifs: seq<Interface>)
    ensures UpdateAnswersFree(M, cur, v, live, ifs, Nones(|ifs|))
  {
    if ifs != [] {
      var n := |ifs| - 1;
      assert Nones(|ifs|)[..n] == Nones(n);
      UpdateWithNones(M, cur, v, live, ifs[..n]);
    }
  }

  ghost predicate ReadyAt(M: MacMap, m: Mac, v: string, persisted: int) {
    exists e :: In(M, m, e) && e.inst == v && e.Ready(persisted)
  }

  function CommitList(M: MacMap, m: Mac, v: string, persisted: int, ifs: seq<Interface>): seq<Entry> {
    Rewrite(Entries(M, m), (e: Entry) => e.inst == v && e.Ready(persisted), (e: Entry) => OnVm(ifs, m, e.key))
  }

  lemma ReadyKeys(M: MacMap, m: Mac, v: string, persisted: int)
    ensures m in FilterReady(FilterIn(M, v), persisted) <==> ReadyAt(M, m, v, persisted)
  {
    var es := Entries(M, m);
    OnlyIff(es, v);
    ReadyIff(Only(es, v), persisted);
    var r := ReadyOnly(Only(es, v), persisted);
    if r != [] {
      assert r[0] in r;
      assert In(M, m, r[0]);
    }
    if ReadyAt(M, m, v, persisted) {
      var e :| In(M, m, e) && e.inst == v && e.Ready(persisted);
      assert e in r;
    }
  }

  lemma AlignOk(M: MacMap, m: Mac, v: string, ifs: seq<Interface>)
    requires WellFormed(M)
    ensures WellFormed(Align(M, m, v, ifs))
  {
    var es := Entries(M, m);
    RemoveOk(es, v);
    var k := FirstOf(es, v);
    if k < |es| {
      ClearOk(es, k);
    }
  }

  lemma ClearOk(es: seq<Entry>, k: nat)
    requires ListOk(es) && k < |es|
    ensures ListOk(es[k := es[k].Cleared()])
  {
  }

  /** Under the invariant, first-match alignment commits exactly the ready entry. */
  lemma AlignCommits(M: MacMap, m: Mac, v: string, persisted: int, ifs: seq<Interface>)
    requires WellFormed(M) && ReadyAt(M, m, v, persisted)
    ensures AlignList(Entries(M, m), m, v, ifs) == CommitList(M, m, v, persisted, ifs)
  {
    var es := Entries(M, m);
    var e :| In(M, m, e) && e.inst == v && e.Ready(persisted);
    FirstIsThePending(es, v, e);
    AlignIsRewrite(es, m, v, ifs);
    PendingIsUnique(es, v);
    RewriteSame(es, (x: Entry) => x.inst == v && x.Pending(), (x: Entry) => OnVm(ifs, m, x.key),
                (x: Entry) => x.inst == v && x.Ready(persisted), (x: Entry) => OnVm(ifs, m, x.key));
  }

  /** The addresses in `done` are committed, the others are as in M. */
  ghost predicate PartlyCommitted(M: MacMap, B: MacMap, done: seq<Mac>, v: string, persisted: int,
                                  ifs: seq<Interface>) {
    forall m :: Entries(B, m) == if m in done then CommitList(M, m, v, persisted, ifs) else Entries(M, m)
  }

  lemma CommitOne(M: MacMap, B: MacMap, order: seq<Mac>, i: nat, v: string, persisted: int, ifs: seq<Interface>)
    requires WellFormed(M) && WellFormed(B) && i < |order| && order[i] !in order[..i]
             && ReadyAt(M, order[i], v, persisted)
    requires PartlyCommitted(M, B, order[..i], v, persisted, ifs)
    ensures WellFormed(Align(B, order[i], v, ifs))
    ensures PartlyCommitted(M, Align(B, order[i], v, ifs), order[..i + 1], v, persisted, ifs)
  {
    var m := order[i];
    AlignCommits(M, m, v, persisted, ifs);
    AlignOk(B, m, v, ifs);
    PutEntries(B, m, AlignList(Entries(B, m), m, v, ifs));
    assert Entries(B, m) == Entries(M, m);
    assert order[..i + 1] == order[..i] + [m];
  }

  lemma CommittedAll(M: MacMap, B: MacMap, order: seq<Mac>, v: string, persisted: int, ifs: seq<Interface>)
    requires WellFormed(M) && WellFormed(B) && PartlyCommitted(M, B, order, v, persisted, ifs)
    requires forall m :: m in order <==> ReadyAt(M, m, v, persisted)
    ensures B == MarkReady(M, v, persisted, ifs)
  {
    forall m ensures Entries(B, m) == Entries(MarkReady(M, v, persisted, ifs), m) {
      if m !in order {
        NothingToCommit(M, m, v, persisted, ifs);
      }
      RewriteSame(Entries(M, m), (e: Entry) => e.inst == v && e.Ready(persisted), (e: Entry) => OnVm(ifs, m, e.key),
                  e => ((m: Mac, e: Entry) => e.inst == v && e.Ready(persisted))(m, e),
                  e => ((m: Mac, e: Entry) => OnVm(ifs, m, e.key))(m, e));
    }
    SameEntries(B, MarkReady(M, v, persisted, ifs));
  }

  lemma NothingToCommit(M: MacMap, m: Mac, v: string, persisted: int, ifs: seq<Interface>)
    requires !ReadyAt(M, m, v, persisted)
    ensures CommitList(M, m, v, persisted, ifs) == Entries(M, m)
  {
    var es := Entries(M, m);
    forall k | 0 <= k < |es| ensures !(es[k].inst == v && es[k].Ready(persisted)) {
      if es[k].inst == v && es[k].Ready(persisted) {
        assert In(M, m, es[k]);
      }
    }
    RewriteNone(es, (x: Entry) => x.inst == v && x.Ready(persisted), (x: Entry) => OnVm(ifs, m, x.key));
  }

  /** The list names exactly the given instances, each with the interfaces of its VM. */
  ghost predicate ListsVms(aligns: seq<(string, seq<Interface>)>, insts: seq<string>, api: (string, string) -> Lookup) {
    && |aligns| == |insts|
    && forall k :: 0 <= k < |insts| ==>
         Ask(api, insts[k]).Found? && aligns[k] == (insts[k], Ask(api, insts[k]).interfaces)
  }

  /** Some expired entry of the list cannot be looked up. */
  ghost predicate LookupFails(es: seq<Entry>, now: int, wait: nat, api: (string, string) -> Lookup) {
    exists e :: e in es && e.Expired(now, wait) && Ask(api, e.inst).Failed?
  }

  lemma FailureShows(M: MacMap, m: Mac, now: int, wait: nat, api: (string, string) -> Lookup)
    requires m in M && LookupFails(M[m], now, wait, api)
    ensures HealFails(M, now, wait, api)
  {
    var e :| e in M[m] && e.Expired(now, wait) && Ask(api, e.inst).Failed?;
    assert In(M, m, e);
  }

  lemma NoFailure(M: MacMap, victims: map<Mac, string>, aligns: map<Mac, seq<(string, seq<Interface>)>>,
                  now: int, wait: nat, api: (string, string) -> Lookup)
    requires ScannedBut(ScanSpec(M, now, wait, api), {}, victims, aligns)
    ensures !HealFails(M, now, wait, api)
    ensures forall m :: Scanned(M, m, victims, aligns, now, wait, api)
  {
    var spec := ScanSpec(M, now, wait, api);
    forall m ensures Scanned(M, m, victims, aligns, now, wait, api) {
      assert spec(m, VictimAt(victims, m), VmsAt(aligns, m));
    }
    forall m, e | In(M, m, e) && e.Expired(now, wait) ensures !Ask(api, e.inst).Failed? {
      assert ScanOk(Entries(M, m), VictimAt(victims, m), VmsAt(aligns, m), now, wait, api);
    }
  }

  /** What the scan must find at an address with these entries. */
  ghost predicate ScanOk(es: seq<Entry>, victim: Option<string>, list: seq<(string, seq<Interface>)>,
                         now: int, wait: nat, api: (string, string) -> Lookup) {
    victim == Victim(es, now, wait, api) && ListsVms(list, ToAlign(es, now, wait, api), api)
        && !LookupFails(es, now, wait, api)
  }

  function VictimAt(victims: map<Mac, string>, m: Mac): Option<string> {
    if m in victims then Some(victims[m]) else None
  }

  function VmsAt(aligns: map<Mac, seq<(string, seq<Interface>)>>, m: Mac): seq<(string, seq<Interface>)> {
    if m in aligns then aligns[m] else []
  }

  /** The scan's maps say of address m what the specification says. */
  ghost predicate Scanned(M: MacMap, m: Mac, victims: map<Mac, string>, aligns: map<Mac, seq<(string, seq<Interface>)>>,
                          now: int, wait: nat, api: (string, string) -> Lookup) {
    ScanOk(Entries(M, m), VictimAt(victims, m), VmsAt(aligns, m), now, wait, api)
  }

  ghost function ScanSpec(M: MacMap, now: int, wait: nat, api: (string, string) -> Lookup)
      : (Mac, Option<string>, seq<(string, seq<Interface>)>) -> bool {
    (m: Mac, victim: Option<string>, list: seq<(string, seq<Interface>)>) =>
      ScanOk(Entries(M, m), victim, list, now, wait, api)
  }

  /** The scan has done every address but those left. */
  ghost predicate ScannedBut(spec: (Mac, Option<string>, seq<(string, seq<Interface>)>) -> bool, left: set<Mac>,
                             victims: map<Mac, string>, aligns: map<Mac, seq<(string, seq<Interface>)>>) {
    && (forall m :: m in left ==> m !in victims && m !in aligns)
    && (forall m :: m !in left ==> spec(m, VictimAt(victims, m), VmsAt(aligns, m)))
  }

  lemma ScanStart(M: MacMap, now: int, wait: nat, api: (string, string) -> Lookup)
    ensures ScannedBut(ScanSpec(M, now, wait, api), M.Keys, map[], map[])
  {
    forall m | m !in M ensures ScanOk(Entries(M, m), None, [], now, wait, api) {
    }
  }

  lemma ScanNext(spec: (Mac, Option<string>, seq<(string, seq<Interface>)>) -> bool, left: set<Mac>,
                 victims: map<Mac, string>, aligns: map<Mac, seq<(string, seq<Interface>)>>,
                 m: Mac, victim: Option<string>, list: seq<(string, seq<Interface>)>)
    requires ScannedBut(spec, left, victims, aligns) && m in left && spec(m, victim, list)
    ensures ScannedBut(spec, left - {m}, if victim.Some? then victims[m := victim.value] else victims,
                       if |list| > 0 then aligns[m := list] else aligns)
  {
    var vs := if victim.Some? then victims[m := victim.value] else victims;
    var as_ := if |list| > 0 then aligns[m := list] else aligns;
    assert VictimAt(vs, m) == victim && VmsAt(as_, m) == list;
    forall x | x !in left - {m} ensures spec(x, VictimAt(vs, x), VmsAt(as_, x)) {
      if x != m {
        assert VictimAt(vs, x) == VictimAt(victims, x) && VmsAt(as_, x) == VmsAt(aligns, x);
      }
    }
  }

  function RemovedAt(M: MacMap, victims: map<Mac, string>, m: Mac): seq<Entry> {
    if m in victims then RemoveList(Entries(M, m), victims[m]) else Entries(M, m)
  }

  function AlignWith(es: seq<Entry>, m: Mac, vms: seq<(string, seq<Interface>)>): seq<Entry> {
    if vms == [] then es
    else var k := |vms| - 1; AlignList(AlignWith(es, m, vms[..k]), m, vms[k].0, vms[k].1)
  }

  function AlignedAt(es: seq<Entry>, aligns: map<Mac, seq<(string, seq<Interface>)>>, m: Mac): seq<Entry> {
    if m in aligns then AlignWith(es, m, aligns[m]) else es
  }

  lemma {:induction false} AlignWithVms(es: seq<Entry>, m: Mac, vms: seq<(string, seq<Interface>)>, insts: seq<string>,
                                        api: (string, string) -> Lookup)
    requires ListsVms(vms, insts, api)
    ensures AlignWith(es, m, vms) == AlignEach(es, m, insts, api)
  {
    if vms != [] {
      AlignWithVms(es, m, vms[..|vms| - 1], insts[..|insts| - 1], api);
    }
  }

  lemma PutSame(M: MacMap, m: Mac)
    requires WellFormed(M)
    ensures Put(M, m, Entries(M, m)) == M
  {
  }

  lemma PutPut(M: MacMap, m: Mac, a: seq<Entry>, b: seq<Entry>)
    ensures Put(Put(M, m, a), m, b) == Put(M, m, b)
    ensures Entries(Put(M, m, a), m) == a
  {
  }

  lemma HealedAt(M: MacMap, B: MacMap, victims: map<Mac, string>, aligns: map<Mac, seq<(string, seq<Interface>)>>,
                 now: int, wait: nat, api: (string, string) -> Lookup, m: Mac)
    requires WellFormed(M) && Scanned(M, m, victims, aligns, now, wait, api)
    requires Entries(B, m) == AlignedAt(RemovedAt(M, victims, m), aligns, m)
    ensures Entries(B, m) == Entries(HealPass(M, now, wait, api), m)
  {
    AlignWithVms(RemovedAt(M, victims, m), m, VmsAt(aligns, m), ToAlign(Entries(M, m), now, wait, api), api);
    HealAddressExact(M, m, now, wait, api);
  }

  /** All removals followed by all alignments are one pass of the specification. */
  lemma HealedAll(M: MacMap, B: MacMap, victims: map<Mac, string>, aligns: map<Mac, seq<(string, seq<Interface>)>>,
                  now: int, wait: nat, api: (string, string) -> Lookup)
    requires WellFormed(M) && WellFormed(B) && forall m :: Scanned(M, m, victims, aligns, now, wait, api)
    requires forall m :: Entries(B, m) == AlignedAt(RemovedAt(M, victims, m), aligns, m)
    ensures B == HealPass(M, now, wait, api)
  {
    var R := HealPass(M, now, wait, api);
    forall m ensures Entries(B, m) == Entries(R, m) {
      HealedAt(M, B, victims, aligns, now, wait, api, m);
    }
    RewriteMapOk(M, (m: Mac, e: Entry) => HealPicks(Entries(M, m), e, now, wait, api),
                 (m: Mac, e: Entry) => HealKeeps(m, e, api));
    SameEntries(B, R);
  }

  lemma {:induction false} RebuildInterfacesStop(r: Rebuild, v: string, nets: seq<Network>, ifs: seq<Interface>, k: nat)
    requires k <= |ifs| && RebuildInterfaces(r, v, nets, ifs[..k]).failed
    ensures RebuildInterfaces(r, v, nets, ifs) == RebuildInterfaces(r, v, nets, ifs[..k])
    decreases |ifs|
  {
    if k == |ifs| {
      assert ifs[..k] == ifs;
    } else {
      assert ifs[..|ifs| - 1][..k] == ifs[..k];
      RebuildInterfacesStop(r, v, nets, ifs[..|ifs| - 1], k);
    }
  }

  lemma {:induction false} RebuildStops(r: Rebuild, vms: seq<Vm>, k: nat)
    requires k <= |vms| && RebuildVms(r, vms[..k]).failed
    ensures RebuildVms(r, vms) == RebuildVms(r, vms[..k])
    decreases |vms|
  {
    if k == |vms| {
      assert vms[..k] == vms;
    } else {
      var n := |vms| - 1;
      assert vms[..n][..k] == vms[..k];
      RebuildStops(r, vms[..n], k);
      assert vms[n].interfaces[..0] == [];
      RebuildInterfacesStop(RebuildVms(r, vms[..n]), vms[n].FullName(), vms[n].networks, vms[n].interfaces, 0);
    }
  }
}
