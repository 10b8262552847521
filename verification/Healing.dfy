/** Confirming persisted entries, healing stale ones, and rebuilding the map at start-up
    (pkg/pool-manager/virtualmachine_pool.go, transaction.go). */
module Healing {
  import opened Addresses
  import opened MacMaps
  import opened Transactions
  import opened VmOperations

  lemma SamePairSameEntry(M: MacMap, m: Mac, e: Entry, f: Entry)
    requires WellFormed(M) && In(M, m, e) && In(M, m, f) && e.inst == f.inst && e.key == f.key
    ensures e == f
  {
    var a :| 0 <= a < |M[m]| && M[m][a] == e;
    var b :| 0 <= b < |M[m]| && M[m][b] == f;
    assert a == b;
  }

  /** Every entry after a rewrite comes from one of the same pair that was not picked, or was kept. */
  lemma PairOrigin(M: MacMap, sel: (Mac, Entry) -> bool, keep: (Mac, Entry) -> bool, m: Mac, x: Entry)
      returns (f: Entry)
    requires In(RewriteMap(M, sel, keep), m, x)
    ensures In(M, m, f) && f.inst == x.inst && f.key == x.key && (sel(m, f) ==> keep(m, f))
  {
    RewriteMapOrigin(M, sel, keep, m, x);
    if In(M, m, x) && !sel(m, x) {
      f := x;
    } else {
      f :| In(M, m, f) && sel(m, f) && keep(m, f) && x == f.Cleared();
    }
  }

  /** An entry that is picked and not kept leaves no entry for its pair behind. */
  lemma RewriteDrops(M: MacMap, sel: (Mac, Entry) -> bool, keep: (Mac, Entry) -> bool, m: Mac, e: Entry)
    requires WellFormed(M) && In(M, m, e) && sel(m, e) && !keep(m, e)
    ensures !Recorded(RewriteMap(M, sel, keep), m, e.inst, e.key)
  {
    if Recorded(RewriteMap(M, sel, keep), m, e.inst, e.key) {
      var st :| In(RewriteMap(M, sel, keep), m, Entry(e.inst, e.key, st));
      var f := PairOrigin(M, sel, keep, m, Entry(e.inst, e.key, st));
      SamePairSameEntry(M, m, e, f);
    }
  }

  // ---- MarkVMAsReady --------------------------------------------------------------------------

  /** Exactly the VM's entries pending at or before the persisted time change: those on the VM are
      confirmed, the others are dropped. */
  lemma MarkReadyExact(M: MacMap, v: string, persisted: int, ifs: seq<Interface>, m: Mac, e: Entry)
    requires WellFormed(M) && In(M, m, e)
    ensures var R := MarkReady(M, v, persisted, ifs);
            if e.inst == v && e.Ready(persisted) then
              if OnVm(ifs, m, e.key) then In(R, m, e.Cleared()) else !Recorded(R, m, v, e.key)
            else In(R, m, e)
  {
    var sel := (m: Mac, e: Entry) => e.inst == v && e.Ready(persisted);
    var keep := (m: Mac, e: Entry) => OnVm(ifs, m, e.key);
    RewriteMapKeeps(M, sel, keep, m, e);
    if sel(m, e) && !keep(m, e) {
      RewriteDrops(M, sel, keep, m, e);
    }
  }

  /** Nothing is invented, other instances keep their entries in order, none of the VM's entries is
      ready afterwards, and a second call does nothing. */
  lemma MarkReadyStable(M: MacMap, v: string, persisted: int, ifs: seq<Interface>)
    requires WellFormed(M)
    ensures var R := MarkReady(M, v, persisted, ifs);
            && WellFormed(R)
            && OthersSame(M, R, v)
            && (forall m, x :: In(R, m, x) ==> Recorded(M, m, x.inst, x.key))
            && (forall m, x :: In(R, m, x) && x.inst == v ==> !x.Ready(persisted))
            && MarkReady(R, v, persisted, ifs) == R
  {
    var sel := (m: Mac, e: Entry) => e.inst == v && e.Ready(persisted);
    var keep := (m: Mac, e: Entry) => OnVm(ifs, m, e.key);
    var R := MarkReady(M, v, persisted, ifs);
    RewriteMapOk(M, sel, keep);
    forall m ensures Others(Entries(M, m), v) == Others(Entries(R, m), v) {
      RewriteOthers(Entries(M, m), e => sel(m, e), e => keep(m, e), v);
    }
    forall m, x | In(R, m, x) ensures Recorded(M, m, x.inst, x.key) && !(x.inst == v && x.Ready(persisted)) {
      RewriteMapOrigin(M, sel, keep, m, x);
      if In(M, m, x) && !sel(m, x) {
        assert In(M, m, Entry(x.inst, x.key, x.stamp));
      } else {
        var e :| In(M, m, e) && sel(m, e) && keep(m, e) && x == e.Cleared();
        assert In(M, m, Entry(x.inst, x.key, e.stamp));
      }
    }
    var R2 := MarkReady(R, v, persisted, ifs);
    forall m ensures Entries(R2, m) == Entries(R, m) {
      var es := Entries(R, m);
      forall k | 0 <= k < |es| ensures !sel(m, es[k]) {
        assert In(R, m, es[k]);
      }
      RewriteNone(es, e => sel(m, e), e => keep(m, e));
    }
    SameEntries(R2, R);
  }

  // ---- healing --------------------------------------------------------------------------------

  /** What the API server answers for an instance. */
  datatype Lookup = Found(interfaces: seq<Interface>) | Vanished | Failed

  /** getvmInstance: takes the name apart, refuses empty parts, asks the API server. */
  function GetVmInstance(api: (string, string) -> Lookup, inst: string): Lookup
    requires IsVmName(inst)
  {
    var p := Split(inst);
    if p[1] == "" || p[2] == "" then Failed else api(p[1], p[2])
  }

  function Ask(api: (string, string) -> Lookup, inst: string): Lookup {
    if IsVmName(inst) then GetVmInstance(api, inst) else Failed
  }

  /** The vanished instance recorded for removal at one address: macsToRemove keeps the last one. */
  function Victim(es: seq<Entry>, now: int, wait: nat, api: (string, string) -> Lookup): Option<string> {
    if es == [] then None
    else
      var e := es[|es| - 1];
      if e.Expired(now, wait) && Ask(api, e.inst).Vanished? then Some(e.inst)
      else Victim(es[..|es| - 1], now, wait, api)
  }

  lemma {:induction false} VictimFacts(es: seq<Entry>, now: int, wait: nat, api: (string, string) -> Lookup)
    ensures Victim(es, now, wait, api).None? <==> forall e :: e in es ==>
              !(e.Expired(now, wait) && Ask(api, e.inst).Vanished?)
    ensures Victim(es, now, wait, api).Some? ==>
              exists e :: e in es && e.Expired(now, wait) && Ask(api, e.inst).Vanished?
                  && e.inst == Victim(es, now, wait, api).value
  {
    if es != [] {
      var n := |es| - 1;
      VictimFacts(es[..n], now, wait, api);
      assert es[n] in es;
      assert forall e :: e in es <==> e in es[..n] || e == es[n];
    }
  }

  predicate HealPicks(es: seq<Entry>, e: Entry, now: int, wait: nat, api: (string, string) -> Lookup) {
    && e.Expired(now, wait)
    && (Ask(api, e.inst).Found? || (Ask(api, e.inst).Vanished? && Victim(es, now, wait, api) == Some(e.inst)))
  }

  predicate HealKeeps(m: Mac, e: Entry, api: (string, string) -> Lookup) {
    Ask(api, e.inst).Found? && OnVm(Ask(api, e.inst).interfaces, m, e.key)
  }

  /** One error-free pass. */
  function HealPass(M: MacMap, now: int, wait: nat, api: (string, string) -> Lookup): MacMap {
    RewriteMap(M, (m: Mac, e: Entry) => HealPicks(Entries(M, m), e, now, wait, api),
               (m: Mac, e: Entry) => HealKeeps(m, e, api))
  }

  /** Some expired entry cannot be looked up. */
  ghost predicate HealFails(M: MacMap, now: int, wait: nat, api: (string, string) -> Lookup) {
    exists m, e :: In(M, m, e) && e.Expired(now, wait) && Ask(api, e.inst).Failed?
  }

  /** healStaleMacEntries: the scan finishes before any change, so an error changes nothing. */
  ghost function Heal(M: MacMap, now: int, wait: nat, api: (string, string) -> Lookup): MacMap {
    if HealFails(M, now, wait, api) then M else HealPass(M, now, wait, api)
  }

  /** Only expired entries are touched; one still on its VM is kept and confirmed; one that left its
      VM goes. */
  lemma HealExact(M: MacMap, now: int, wait: nat, api: (string, string) -> Lookup, m: Mac, e: Entry)
    requires WellFormed(M) && In(M, m, e)
    ensures var R := HealPass(M, now, wait, api);
            && (!e.Expired(now, wait) ==> In(R, m, e))
            && (e.Expired(now, wait) && Ask(api, e.inst).Found? ==>
                  if OnVm(Ask(api, e.inst).interfaces, m, e.key) then In(R, m, e.Cleared())
                      else !Recorded(R, m, e.inst, e.key))
            && (e.Expired(now, wait) && Ask(api, e.inst).Vanished? ==> In(R, m, e) || !Recorded(R, m, e.inst, e.key))
  {
    var sel := (m: Mac, e: Entry) => HealPicks(Entries(M, m), e, now, wait, api);
    var keep := (m: Mac, e: Entry) => HealKeeps(m, e, api);
    RewriteMapKeeps(M, sel, keep, m, e);
    if sel(m, e) && !keep(m, e) {
      RewriteDrops(M, sel, keep, m, e);
    }
  }

  ghost function ExpiredIn(M: MacMap, now: int, wait: nat): set<(Mac, Entry)> {
    set m, e | m in M && e in M[m] && e.Expired(now, wait) :: (m, e)
  }

  /** A list with an expired entry has one that the pass picks. */
  lemma SomeExpiredPicked(es: seq<Entry>, e: Entry, now: int, wait: nat, api: (string, string) -> Lookup)
      returns (f: Entry)
    requires e in es && e.Expired(now, wait) && !Ask(api, e.inst).Failed?
    ensures f in es && f.Expired(now, wait) && HealPicks(es, f, now, wait, api)
  {
    VictimFacts(es, now, wait, api);
    f := e;
    if Ask(api, e.inst).Vanished? {
      f :| f in es && f.Expired(now, wait) && Ask(api, f.inst).Vanished? && f.inst == Victim(es, now, wait, api).value;
    }
  }

  /** What is expired after a pass was so before and was not picked. */
  lemma HealKeepsExpired(M: MacMap, now: int, wait: nat, api: (string, string) -> Lookup)
    requires WellFormed(M)
    ensures var R := HealPass(M, now, wait, api);
            && WellFormed(R)
            && forall m, x :: In(R, m, x) && x.Expired(now, wait) ==>
                 In(M, m, x) && !HealPicks(Entries(M, m), x, now, wait, api)
  {
    var sel := (m: Mac, e: Entry) => HealPicks(Entries(M, m), e, now, wait, api);
    var keep := (m: Mac, e: Entry) => HealKeeps(m, e, api);
    var R := HealPass(M, now, wait, api);
    RewriteMapOk(M, sel, keep);
    forall m, x | In(R, m, x) && x.Expired(now, wait) ensures In(M, m, x) && !sel(m, x) {
      RewriteMapOrigin(M, sel, keep, m, x);
    }
  }

  /** Each error-free pass strictly lowers the set of expired entries while any remain, although it
      removes at most one vanished instance per address. */
  lemma HealDrains(M: MacMap, now: int, wait: nat, api: (string, string) -> Lookup)
    requires WellFormed(M) && !HealFails(M, now, wait, api)
    ensures var R := HealPass(M, now, wait, api);
            && WellFormed(R)
            && !HealFails(R, now, wait, api)
            && ExpiredIn(R, now, wait) <= ExpiredIn(M, now, wait)
            && (ExpiredIn(M, now, wait) != {} ==> |ExpiredIn(R, now, wait)| < |ExpiredIn(M, now, wait)|)
  {
    var R := HealPass(M, now, wait, api);
    HealKeepsExpired(M, now, wait, api);
    forall p | p in ExpiredIn(R, now, wait) ensures p in ExpiredIn(M, now, wait) {
      assert In(R, p.0, p.1);
    }
    if ExpiredIn(M, now, wait) != {} {
      var p :| p in ExpiredIn(M, now, wait);
      assert In(M, p.0, p.1) && !Ask(api, p.1.inst).Failed?;
      var f := SomeExpiredPicked(Entries(M, p.0), p.1, now, wait, api);
      assert (p.0, f) in ExpiredIn(M, now, wait);
      assert !In(R, p.0, f);
      CardOfSubset(ExpiredIn(R, now, wait), ExpiredIn(M, now, wait));
    }
  }

  ghost function HealTimes(M: MacMap, now: int, wait: nat, api: (string, string) -> Lookup, passes: nat): MacMap
    decreases passes
  {
    if passes == 0 then M else HealTimes(Heal(M, now, wait, api), now, wait, api, passes - 1)
  }

  /** At a fixed time and cluster, as many passes as there are expired entries leave none. */
  lemma {:induction false} HealingTerminates(M: MacMap, now: int, wait: nat, api: (string, string) -> Lookup,
                                             passes: nat)
    requires WellFormed(M) && !HealFails(M, now, wait, api)
    requires passes >= |ExpiredIn(M, now, wait)|
    ensures ExpiredIn(HealTimes(M, now, wait, api, passes), now, wait) == {}
    decreases passes
  {
    if passes > 0 {
      HealDrains(M, now, wait, api);
      var R := HealPass(M, now, wait, api);
      assert Heal(M, now, wait, api) == R;
      PassCounts(ExpiredIn(M, now, wait), ExpiredIn(R, now, wait), passes);
      HealingTerminates(R, now, wait, api, passes - 1);
    } else {
      NothingLeft(ExpiredIn(M, now, wait));
    }
  }

  lemma PassCounts<T>(before: set<T>, after: set<T>, passes: nat)
    requires passes > 0 && |before| <= passes && after <= before && (before != {} ==> |after| < |before|)
    ensures |after| <= passes - 1
  {
    if before == {} {
      assert after == {};
    }
  }

  lemma NothingLeft<T>(s: set<T>)
    requires |s| == 0
    ensures s == {}
  {
  }

  /** A VM admitted without a name blocks healing: once its entry expires, every pass fails and the
      whole map stays as it is, for every cluster. */
  lemma NamelessVmBlocksHealing(M: MacMap, now: int, wait: nat, api: (string, string) -> Lookup,
                                ns: string, m: Mac, e: Entry)
    requires '/' !in ns && In(M, m, e) && e.inst == VmNamespaced(ns, "") && e.Expired(now, wait)
    ensures Heal(M, now, wait, api) == M && (m, e) in ExpiredIn(Heal(M, now, wait, api), now, wait)
  {
    SplitVmName(ns, "");
    assert Ask(api, e.inst).Failed?;
  }

  // ---- the scan-then-apply form of a pass -----------------------------------------------------

  /** The instances a scan of one address lists for alignment: those with an expired entry whose VM
      still exists. */
  function ToAlign(es: seq<Entry>, now: int, wait: nat, api: (string, string) -> Lookup): seq<string> {
    if es == [] then []
    else
      var e := es[|es| - 1];
      ToAlign(es[..|es| - 1], now, wait, api) + (if e.Expired(now, wait) && Ask(api, e.inst).Found? then [e.inst]
                                                 else [])
  }

  function AlignEach(es: seq<Entry>, m: Mac, insts: seq<string>, api: (string, string) -> Lookup): seq<Entry> {
    if insts == [] then es
    else
      var prior := AlignEach(es, m, insts[..|insts| - 1], api);
      var v := insts[|insts| - 1];
      AlignList(prior, m, v, if Ask(api, v).Found? then Ask(api, v).interfaces else [])
  }

  /** What one pass does at one address, in the order the code does it: first the removal of the
      last vanished instance, then the alignments. */
  function HealAddress(es: seq<Entry>, m: Mac, now: int, wait: nat, api: (string, string) -> Lookup): seq<Entry> {
    var victim := Victim(es, now, wait, api);
    AlignEach(if victim.Some? then RemoveList(es, victim.value) else es, m, ToAlign(es, now, wait, api), api)
  }

  lemma {:induction false} ToAlignIff(es: seq<Entry>, now: int, wait: nat, api: (string, string) -> Lookup, v: string)
    ensures v in ToAlign(es, now, wait, api) <==>
            exists e :: e in es && e.inst == v && e.Expired(now, wait) && Ask(api, v).Found?
  {
    if es != [] {
      var n := |es| - 1;
      ToAlignIff(es[..n], now, wait, api, v);
      assert es[n] in es;
      if exists e :: e in es && e.inst == v && e.Expired(now, wait) && Ask(api, v).Found? {
        var e :| e in es && e.inst == v && e.Expired(now, wait) && Ask(api, v).Found?;
        assert e in es[..n] || e == es[n];
      }
    }
  }

  lemma {:induction false} ToAlignDistinct(es: seq<Entry>, now: int, wait: nat, api: (string, string) -> Lookup)
    requires OnlyFirstPending(es)
    ensures Distinct(ToAlign(es, now, wait, api))
  {
    if es != [] {
      var n := |es| - 1;
      ToAlignDistinct(es[..n], now, wait, api);
      var e := es[n];
      ToAlignIff(es[..n], now, wait, api, e.inst);
      assert e.Expired(now, wait) ==> e.inst !in ToAlign(es[..n], now, wait, api);
    }
  }

  /** Picked so far: expired entries of the vanished victim and of the instances already aligned. */
  predicate PickedSoFar(e: Entry, done: seq<string>, victim: Option<string>, now: int, wait: nat) {
    e.Expired(now, wait) && (victim == Some(e.inst) || e.inst in done)
  }

  /** The list once those are confirmed or dropped. */
  function HealedSoFar(es: seq<Entry>, m: Mac, done: seq<string>, victim: Option<string>, now: int, wait: nat,
                       api: (string, string) -> Lookup): seq<Entry> {
    Rewrite(es, e => PickedSoFar(e, done, victim, now, wait), e => HealKeeps(m, e, api))
  }

  /** Under the invariant the first-match edits of a pass add up to one rewrite. */
  lemma {:induction false} AlignEachIsRewrite(es: seq<Entry>, m: Mac, done: seq<string>, now: int, wait: nat,
                                              api: (string, string) -> Lookup)
    requires ListOk(es)
    requires forall v :: v in done ==> v in ToAlign(es, now, wait, api)
    requires Distinct(done)
    ensures var victim := Victim(es, now, wait, api);
            AlignEach(if victim.Some? then RemoveList(es, victim.value) else es, m, done, api)
            == HealedSoFar(es, m, done, victim, now, wait, api)
  {
    var victim := Victim(es, now, wait, api);
    VictimFacts(es, now, wait, api);
    if done == [] {
      RemovalIsRewrite(es, m, now, wait, api);
    } else {
      var n := |done| - 1;
      AlignEachIsRewrite(es, m, done[..n], now, wait, api);
      ToAlignIff(es, now, wait, api, done[n]);
      AlignNext(es, m, done[..n], done[n], victim, now, wait, api);
      assert done[..n] + [done[n]] == done;
    }
  }

  lemma RemovalIsRewrite(es: seq<Entry>, m: Mac, now: int, wait: nat, api: (string, string) -> Lookup)
    requires ListOk(es)
    ensures var victim := Victim(es, now, wait, api);
            (if victim.Some? then RemoveList(es, victim.value) else es)
            == HealedSoFar(es, m, [], victim, now, wait, api)
  {
    var victim := Victim(es, now, wait, api);
    VictimFacts(es, now, wait, api);
    if victim.Some? {
      VictimIsRewrite(es, m, victim.value, now, wait, api);
    } else {
      RewriteNone(es, e => PickedSoFar(e, [], victim, now, wait), e => HealKeeps(m, e, api));
    }
  }

  lemma VictimIsRewrite(es: seq<Entry>, m: Mac, w: string, now: int, wait: nat, api: (string, string) -> Lookup)
    requires ListOk(es) && exists e :: e in es && e.Expired(now, wait) && Ask(api, e.inst).Vanished? && e.inst == w
    ensures RemoveList(es, w) == HealedSoFar(es, m, [], Some(w), now, wait, api)
  {
    var e :| e in es && e.Expired(now, wait) && Ask(api, e.inst).Vanished? && e.inst == w;
    FirstIsThePending(es, w, e);
    RemoveIsRewrite(es, w);
    PendingIsUnique(es, w);
    RewriteSame(es, (e: Entry) => e.inst == w && e.Pending(), (e: Entry) => false,
                e => PickedSoFar(e, [], Some(w), now, wait), e => HealKeeps(m, e, api));
  }

  /** Aligning one more instance picks exactly its expired entry. */
  lemma AlignNext(es: seq<Entry>, m: Mac, done: seq<string>, v: string, victim: Option<string>,
                  now: int, wait: nat, api: (string, string) -> Lookup)
    requires ListOk(es) && v !in done && victim != Some(v)
    requires exists e :: e in es && e.inst == v && e.Expired(now, wait) && Ask(api, v).Found?
    ensures AlignList(HealedSoFar(es, m, done, victim, now, wait, api), m, v, Ask(api, v).interfaces)
            == HealedSoFar(es, m, done + [v], victim, now, wait, api)
  {
    var keep := (e: Entry) => HealKeeps(m, e, api);
    var s1 := (e: Entry) => PickedSoFar(e, done, victim, now, wait);
    var s2 := (e: Entry) => e.inst == v && e.Expired(now, wait);
    var cur := Rewrite(es, s1, keep);
    var e :| e in es && e.inst == v && e.Expired(now, wait) && Ask(api, v).Found?;
    RewriteKeeps(es, s1, keep, e);
    RewriteOk(es, s1, keep);
    FirstIsThePending(cur, v, e);
    AlignIsRewrite(cur, m, v, Ask(api, v).interfaces);
    PendingIsUnique(cur, v);
    RewriteSame(cur, (x: Entry) => x.inst == v && x.Pending(), (x: Entry) => OnVm(Ask(api, v).interfaces, m, x.key), s2,
                keep);
    RewriteTwice(es, s1, s2, keep);
    RewriteSame(es, x => s1(x) || s2(x), keep, x => PickedSoFar(x, done + [v], victim, now, wait),
                x => HealKeeps(m, x, api));
    RewriteSame(es, s1, keep, x => PickedSoFar(x, done, victim, now, wait), x => HealKeeps(m, x, api));
  }

  /** The sequential form at one address is the declarative one. */
  lemma HealAddressExact(M: MacMap, m: Mac, now: int, wait: nat, api: (string, string) -> Lookup)
    requires WellFormed(M)
    ensures HealAddress(Entries(M, m), m, now, wait, api) == Entries(HealPass(M, now, wait, api), m)
  {
    var es := Entries(M, m);
    var victim := Victim(es, now, wait, api);
    var l := ToAlign(es, now, wait, api);
    ToAlignDistinct(es, now, wait, api);
    AlignEachIsRewrite(es, m, l, now, wait, api);
    forall k | 0 <= k < |es| ensures PickedSoFar(es[k], l, victim, now, wait) == HealPicks(es, es[k], now, wait, api) {
      ToAlignIff(es, now, wait, api, es[k].inst);
      VictimFacts(es, now, wait, api);
    }
    RewriteSame(es, e => PickedSoFar(e, l, victim, now, wait), e => HealKeeps(m, e, api),
                e => ((m: Mac, e: Entry) => HealPicks(Entries(M, m), e, now, wait, api))(m, e),
                e => ((m: Mac, e: Entry) => HealKeeps(m, e, api))(m, e));
  }

  // ---- start-up rebuild -----------------------------------------------------------------------

  datatype Rebuild = Rebuild(pool: MacMap, duplicates: nat, failed: bool)

  /** The pair (v, i) is among the entries. */
  predicate Belongs(es: seq<Entry>, v: string, i: string) {
    PairAt(es, v, i) < |es|
  }

  /** One interface of the start-up scan: count a foreign holder, then record the pair regardless. */
  function RebuildStep(r: Rebuild, v: string, nets: seq<Network>, iface: Interface): Rebuild {
    if r.failed || !Supported(iface, nets) || iface.mac.Blank? then r
    else if iface.mac.Garbled? then r.(failed := true)
    else
      var m := iface.mac.mac;
      var clash := m in r.pool && !Belongs(r.pool[m], v, iface.name);
      Rebuild(CreateOrUpdate(r.pool, m, v, iface.name), r.duplicates + (if clash then 1 else 0), false)
  }

  function RebuildInterfaces(r: Rebuild, v: string, nets: seq<Network>, ifs: seq<Interface>): Rebuild {
    if ifs == [] then r
    else RebuildStep(RebuildInterfaces(r, v, nets, ifs[..|ifs| - 1]), v, nets, ifs[|ifs| - 1])
  }

  function RebuildVms(r: Rebuild, vms: seq<Vm>): Rebuild {
    if vms == [] then r
    else
      var vm := vms[|vms| - 1];
      var p := RebuildVms(r, vms[..|vms| - 1]);
      if vm.interfaces == [] || vm.networks == [] then p
      else RebuildInterfaces(p, vm.FullName(), vm.networks, vm.interfaces)
  }

  /** All list positions of the map. */
  ghost function Slots(M: MacMap): set<(Mac, nat)> {
    set m, k: nat | m in M && k < |M[m]| :: (m, k)
  }

  /** Entries beyond one per address. */
  ghost function Surplus(M: MacMap): int {
    |Slots(M)| - |M|
  }

  lemma SlotsAppended(M: MacMap, C: MacMap, m: Mac, n: nat)
    requires n == |Entries(M, m)| && m in C && |C[m]| == n + 1
    requires forall x :: x != m ==> (x in C <==> x in M) && (x in M ==> |C[x]| == |M[x]|)
    ensures (m, n) !in Slots(M) && Slots(C) == Slots(M) + {(m, n)}
  {
    forall p | p in Slots(C) ensures p in Slots(M) + {(m, n)} {
      assert p.0 in C && p.1 < |C[p.0]|;
      if p != (m, n) {
        assert p.0 in M && p.1 < |M[p.0]|;
      }
    }
    forall p | p in Slots(M) + {(m, n)} ensures p in Slots(C) {
      if p != (m, n) {
        assert p.0 in M && p.1 < |M[p.0]|;
      }
      assert p.0 in C && p.1 < |C[p.0]|;
    }
  }

  lemma SlotsSame(M: MacMap, C: MacMap)
    requires C.Keys == M.Keys && forall x :: x in M ==> |C[x]| == |M[x]|
    ensures Slots(C) == Slots(M)
  {
  }

  lemma SurplusOfNewPair(M: MacMap, m: Mac, v: string, i: string)
    requires !Belongs(Entries(M, m), v, i)
    ensures Surplus(CreateOrUpdate(M, m, v, i)) == Surplus(M) + (if m in M then 1 else 0)
  {
    var C, es := CreateOrUpdate(M, m, v, i), Entries(M, m);
    assert C == M[m := es + [Entry(v, i, None)]];
    SlotsAppended(M, C, m, |es|);
    assert C.Keys == M.Keys + {m};
    assert |C| == |C.Keys| && |M| == |M.Keys|;
  }

  lemma SurplusOfKnownPair(M: MacMap, m: Mac, v: string, i: string)
    requires Belongs(Entries(M, m), v, i)
    ensures Surplus(CreateOrUpdate(M, m, v, i)) == Surplus(M)
  {
    var C := CreateOrUpdate(M, m, v, i);
    assert C.Keys == M.Keys;
    SlotsSame(M, C);
    assert |C| == |C.Keys| && |M| == |M.Keys|;
  }

  /** Recording a pair adds a surplus entry exactly when someone else already has the address. */
  lemma SurplusOfUpsert(M: MacMap, m: Mac, v: string, i: string)
    ensures Surplus(CreateOrUpdate(M, m, v, i)) == Surplus(M) + (if m in M && !Belongs(M[m], v, i) then 1 else 0)
  {
    if Belongs(Entries(M, m), v, i) {
      SurplusOfKnownPair(M, m, v, i);
    } else {
      SurplusOfNewPair(M, m, v, i);
    }
  }

  /** What the start-up scan keeps from the state it continues. */
  ghost predicate RebuildKeeps(r: Rebuild, r': Rebuild) {
    && WellFormed(r'.pool)
    && Surplus(r'.pool) - Surplus(r.pool) == r'.duplicates - r.duplicates
    && (forall m, e :: In(r.pool, m, e) ==> Recorded(r'.pool, m, e.inst, e.key))
    && (r.failed ==> r'.failed)
  }

  lemma RebuildStepKeeps(r: Rebuild, v: string, nets: seq<Network>, iface: Interface)
    requires WellFormed(r.pool)
    ensures RebuildKeeps(r, RebuildStep(r, v, nets, iface))
    ensures var r' := RebuildStep(r, v, nets, iface);
            !r'.failed && Supported(iface, nets) && iface.mac.Written? ==>
                  Recorded(r'.pool, iface.mac.mac, v, iface.name)
  {
    var r' := RebuildStep(r, v, nets, iface);
    forall m, e | In(r.pool, m, e) ensures Recorded(r'.pool, m, e.inst, e.key) {
      if r'.pool == r.pool {
        assert In(r'.pool, m, Entry(e.inst, e.key, e.stamp));
      } else {
        var st := if m == iface.mac.mac && e.inst == v && e.key == iface.name then None else e.stamp;
        CreateOrUpdateIn(r.pool, iface.mac.mac, v, iface.name, m, Entry(e.inst, e.key, st));
      }
    }
    if !r'.failed && Supported(iface, nets) && iface.mac.Written? {
      SurplusOfUpsert(r.pool, iface.mac.mac, v, iface.name);
      CreateOrUpdateOk(r.pool, iface.mac.mac, v, iface.name);
      CreateOrUpdateIn(r.pool, iface.mac.mac, v, iface.name, iface.mac.mac, Entry(v, iface.name, None));
    }
  }

  lemma KeepsTrans(a: Rebuild, b: Rebuild, c: Rebuild)
    requires RebuildKeeps(a, b) && RebuildKeeps(b, c)
    ensures RebuildKeeps(a, c)
  {
    forall m, e | In(a.pool, m, e) ensures Recorded(c.pool, m, e.inst, e.key) {
      var st :| In(b.pool, m, Entry(e.inst, e.key, st));
      assert Recorded(c.pool, m, Entry(e.inst, e.key, st).inst, Entry(e.inst, e.key, st).key);
    }
  }

  lemma KeepsRecorded(a: Rebuild, b: Rebuild, m: Mac, v: string, i: string)
    requires RebuildKeeps(a, b) && Recorded(a.pool, m, v, i)
    ensures Recorded(b.pool, m, v, i)
  {
    var st :| In(a.pool, m, Entry(v, i, st));
    assert Recorded(b.pool, m, Entry(v, i, st).inst, Entry(v, i, st).key);
  }

  lemma {:induction false} RebuildInterfacesKeeps(r: Rebuild, v: string, nets: seq<Network>, ifs: seq<Interface>)
    requires WellFormed(r.pool)
    ensures RebuildKeeps(r, RebuildInterfaces(r, v, nets, ifs))
    ensures var r' := RebuildInterfaces(r, v, nets, ifs);
            !r'.failed ==> forall k :: 0 <= k < |ifs| && Supported(ifs[k], nets) && ifs[k].mac.Written? ==>
                             Recorded(r'.pool, ifs[k].mac.mac, v, ifs[k].name)
  {
    if ifs == [] {
      forall m, e | In(r.pool, m, e) ensures Recorded(r.pool, m, e.inst, e.key) {
        assert In(r.pool, m, Entry(e.inst, e.key, e.stamp));
      }
    } else {
      var n := |ifs| - 1;
      var p := RebuildInterfaces(r, v, nets, ifs[..n]);
      RebuildInterfacesKeeps(r, v, nets, ifs[..n]);
      RebuildStepKeeps(p, v, nets, ifs[n]);
      var r' := RebuildInterfaces(r, v, nets, ifs);
      KeepsTrans(r, p, r');
      forall k | 0 <= k < n && !r'.failed && Supported(ifs[k], nets) && ifs[k].mac.Written?
        ensures Recorded(r'.pool, ifs[k].mac.mac, v, ifs[k].name)
      {
        assert ifs[..n][k] == ifs[k];
        KeepsRecorded(p, r', ifs[k].mac.mac, v, ifs[k].name);
      }
    }
  }

  /** The start-up scan takes interface k of the VM into account. */
  predicate Counted(vm: Vm, k: nat)
    requires k < |vm.interfaces|
  {
    vm.networks != [] && Supported(vm.interfaces[k], vm.networks) && vm.interfaces[k].mac.Written?
  }

  /** Start-up conservation: total entries minus distinct addresses grows by exactly the number of
      duplicate-counter increments, and every supported interface with an address is recorded. */
  lemma {:induction false} RebuildConserves(r: Rebuild, vms: seq<Vm>)
    requires WellFormed(r.pool)
    ensures RebuildKeeps(r, RebuildVms(r, vms))
    ensures var r' := RebuildVms(r, vms);
            !r'.failed ==> forall j, k :: 0 <= j < |vms| && 0 <= k < |vms[j].interfaces| && Counted(vms[j], k) ==>
                             Recorded(r'.pool, vms[j].interfaces[k].mac.mac, vms[j].FullName(),
                                      vms[j].interfaces[k].name)
  {
    if vms == [] {
      RebuildInterfacesKeeps(r, "", [], []);
    } else {
      var n := |vms| - 1;
      var p := RebuildVms(r, vms[..n]);
      var r' := RebuildVms(r, vms);
      RebuildConserves(r, vms[..n]);
      if vms[n].interfaces == [] || vms[n].networks == [] {
        RebuildInterfacesKeeps(p, "", [], []);
      } else {
        RebuildInterfacesKeeps(p, vms[n].FullName(), vms[n].networks, vms[n].interfaces);
      }
      KeepsTrans(r, p, r');
      forall j, k | 0 <= j < |vms| && 0 <= k < |vms[j].interfaces| && Counted(vms[j], k) && !r'.failed
        ensures Recorded(r'.pool, vms[j].interfaces[k].mac.mac, vms[j].FullName(), vms[j].interfaces[k].name)
      {
        if j < n {
          assert vms[..n][j] == vms[j];
          KeepsRecorded(p, r', vms[j].interfaces[k].mac.mac, vms[j].FullName(), vms[j].interfaces[k].name);
        }
      }
    }
  }
}
