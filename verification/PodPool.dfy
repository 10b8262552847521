/** Admission and release of pods (pkg/pool-manager/pod_pool.go). A pod's networks go through the same
    allocation loop as a VM's interfaces, without support filter, duplicate checks or stamps. */
module PodPool {
  import opened Addresses
  import opened MacMaps
  import opened Transactions
  import opened VmOperations
  import opened Failures
  import opened PoolManagement

  const TEMP_POD_NAME := "tempPodName"

  datatype PodNetwork = PodNetwork(name: string, request: MacText)

  /** The network-attachment annotation: missing, malformed, or a list of networks. */
  datatype Annotation = Absent | Malformed | Networks(list: seq<PodNetwork>)

  datatype Pod = Pod(namespace: string, name: string, annotation: Annotation, hasStatus: bool, ofVm: bool)

  /** The name entries are recorded under: a nameless pod gets a shared placeholder. */
  function RecordName(pod: Pod): string {
    if pod.name == "" then TEMP_POD_NAME else PodNamespaced(pod.namespace, pod.name)
  }

  /** The name a failed admission reverts under, always the pod's own. */
  function RevertName(pod: Pod): string {
    PodNamespaced(pod.namespace, pod.name)
  }

  function AsInterfaces(list: seq<PodNetwork>): (ifs: seq<Interface>)
    ensures |ifs| == |list|
    ensures forall k :: 0 <= k < |list| ==> ifs[k] == Interface(list[k].name, list[k].request, true)
  {
    seq(|list|, k requires 0 <= k < |list| => Interface(list[k].name, list[k].request, true))
  }

  predicate EntersLoop(pod: Pod) {
    pod.annotation.Networks? && !pod.hasStatus && pod.annotation.list != [] && !pod.ofVm
  }

  function PodLoop(M: MacMap, pod: Pod, live: bool, answers: seq<Option<Mac>>): CreateRun
    requires EntersLoop(pod) && |answers| == |pod.annotation.list|
  {
    CreateLoop(M, RecordName(pod), [], live, AsInterfaces(pod.annotation.list), answers)
  }

  /** AllocatePodMac once its loop is entered: map and verdict. */
  ghost function AllocatePod(M: MacMap, pod: Pod, live: bool, answers: seq<Option<Mac>>, order: seq<string>)
      : (MacMap, bool)
    requires EntersLoop(pod) && |answers| == |pod.annotation.list|
    requires Enumerates(order, PodLoop(M, pod, live, answers).allocs.Keys)
  {
    var r := PodLoop(M, pod, live, answers);
    if r.failed then (if live then RevertAll(r.pool, RevertName(pod), Pick(r.allocs, order)) else r.pool, false)
    else (r.pool, true)
  }

  // ---- what a run records ---------------------------------------------------------------------

  /** The (name, address) pairs of the rounds before k. */
  function PairsBefore(ifs: seq<Interface>, answers: seq<Option<Mac>>, k: nat): set<(string, Mac)>
    requires k <= |ifs| == |answers|
  {
    set j | 0 <= j < k && TextOf(ifs[j], answers[j]).Written? :: (ifs[j].name, TextOf(ifs[j], answers[j]).mac)
  }

  /** Of all rounds before k with this name, the last had address m. */
  ghost predicate Remembered(ifs: seq<Interface>, answers: seq<Option<Mac>>, k: nat, n: string, m: Mac)
    requires k <= |ifs| == |answers|
  {
    exists j :: 0 <= j < k && LastOfName(ifs, k, j) && ifs[j].name == n
                && TextOf(ifs[j], answers[j]).Written? && TextOf(ifs[j], answers[j]).mac == m
  }

  ghost predicate LastOfName(ifs: seq<Interface>, k: nat, j: nat)
    requires j < k <= |ifs|
  {
    forall i :: j < i < k ==> ifs[i].name != ifs[j].name
  }

  /** The round after which the pod's allocation loop stops. */
  function PodEnd(pod: Pod, answers: seq<Option<Mac>>): (k: nat)
    requires EntersLoop(pod) && |answers| == |pod.annotation.list|
    ensures k <= |answers|
  {
    CreateEnd(AsInterfaces(pod.annotation.list), [], answers)
  }

  lemma PodTextsWritten(pod: Pod, answers: seq<Option<Mac>>, j: nat)
    requires EntersLoop(pod) && |answers| == |pod.annotation.list| && j < PodEnd(pod, answers)
    ensures TextOf(AsInterfaces(pod.annotation.list)[j], answers[j]).Written?
  {
    assert !CreateStops(AsInterfaces(pod.annotation.list), [], answers)[j];
  }

  lemma PairsGrow(ifs: seq<Interface>, answers: seq<Option<Mac>>, k: nat)
    requires k < |ifs| == |answers| && TextOf(ifs[k], answers[k]).Written?
    ensures PairsBefore(ifs, answers, k + 1) == PairsBefore(ifs, answers, k)
            + {(ifs[k].name, TextOf(ifs[k], answers[k]).mac)}
  {
  }

  /** The first n rounds, or those before the loop stopped, have recorded exactly their pairs. */
  ghost predicate RoundsRecorded(M: MacMap, v: string, ifs: seq<Interface>, answers: seq<Option<Mac>>, n: nat,
                                 pool: MacMap)
    requires n <= |ifs| == |answers|
  {
    var k := CreateEnd(ifs, [], answers);
    Recordings(M, pool, v, PairsBefore(ifs, answers, if k < n then k else n))
  }

  lemma {:induction false} PodRecordings(M: MacMap, v: string, ifs: seq<Interface>, answers: seq<Option<Mac>>, n: nat)
    requires WellFormed(M) && n <= |ifs| == |answers| && forall j :: 0 <= j < |ifs| ==> ifs[j].masquerade
    ensures RoundsRecorded(M, v, ifs, answers, n, CreateLoop(M, v, [], true, ifs[..n], answers[..n]).pool)
  {
    if n == 0 {
      RecordingsStart(M, v);
      assert PairsBefore(ifs, answers, 0) == {};
    } else {
      var k := n - 1;
      PodRecordings(M, v, ifs, answers, k);
      CreateRound(M, v, [], true, ifs, answers, k);
      CreateFailedIff(M, v, [], true, ifs, answers, k);
      PodRoundRecords(M, v, ifs, answers, k, CreateLoop(M, v, [], true, ifs[..k], answers[..k]));
      assert k + 1 == n;
    }
  }

  lemma PodRoundRecords(M: MacMap, v: string, ifs: seq<Interface>, answers: seq<Option<Mac>>, n: nat, p: CreateRun)
    requires WellFormed(M) && n < |ifs| == |answers| && ifs[n].masquerade
    requires p.failed <==> CreateEnd(ifs, [], answers) < n
    requires RoundsRecorded(M, v, ifs, answers, n, p.pool)
    ensures RoundsRecorded(M, v, ifs, answers, n + 1, CreateStep(p, v, [], true, ifs[n], answers[n]).pool)
  {
    PodRoundPool(p, v, ifs[n], answers[n]);
    if CreateEnd(ifs, [], answers) > n {
      assert !CreateStops(ifs, [], answers)[n];
      PairsGrow(ifs, answers, n);
      RecordingsStep(M, p.pool, v, PairsBefore(ifs, answers, n), TextOf(ifs[n], answers[n]).mac, ifs[n].name);
    } else if CreateEnd(ifs, [], answers) == n {
      assert CreateStops(ifs, [], answers)[n];
    }
  }

  lemma PodRoundPool(p: CreateRun, v: string, iface: Interface, answer: Option<Mac>)
    requires iface.masquerade
    ensures CreateStep(p, v, [], true, iface, answer).pool
            == if !p.failed && TextOf(iface, answer).Written?
                then CreateOrUpdate(p.pool, TextOf(iface, answer).mac, v, iface.name) else p.pool
  {
  }

  /** newAllocations holds, for every name, the address of its last round. */
  lemma RememberedIff(M: MacMap, pod: Pod, answers: seq<Option<Mac>>, n: string, m: Mac)
    requires EntersLoop(pod) && |answers| == |pod.annotation.list|
    ensures AllocatedAt(PodLoop(M, pod, true, answers).allocs, n, m)
            <==> Remembered(AsInterfaces(pod.annotation.list), answers, PodEnd(pod, answers), n, m)
  {
    var ifs, k := AsInterfaces(pod.annotation.list), PodEnd(pod, answers);
    CreateNotesAll(M, RecordName(pod), [], true, ifs, answers);
    var notes := CreateNotes(ifs, [], answers);
    forall j | 0 <= j < k ensures LastNote(ifs, notes, k, j) <==> LastOfName(ifs, k, j) {
    }
    var allocs := PodLoop(M, pod, true, answers).allocs;
    if Remembered(ifs, answers, k, n, m) {
      var j :| 0 <= j < k && LastOfName(ifs, k, j) && ifs[j].name == n && TextOf(ifs[j], answers[j]).Written?
               && TextOf(ifs[j], answers[j]).mac == m;
      assert LastNote(ifs, notes, k, j);
    }
  }

  lemma PodChosen(M: MacMap, pod: Pod, answers: seq<Option<Mac>>)
    requires EntersLoop(pod) && |answers| == |pod.annotation.list|
    ensures Chosen(PairsBefore(AsInterfaces(pod.annotation.list), answers, PodEnd(pod, answers)),
                   PodLoop(M, pod, true, answers).allocs)
  {
    var ifs, k := AsInterfaces(pod.annotation.list), PodEnd(pod, answers);
    CreateNotesAll(M, RecordName(pod), [], true, ifs, answers);
    var allocs := PodLoop(M, pod, true, answers).allocs;
    forall n | n in allocs ensures allocs[n].Written? && (n, allocs[n].mac) in PairsBefore(ifs, answers, k) {
      var j :| 0 <= j < k && LastNote(ifs, CreateNotes(ifs, [], answers), k, j) && ifs[j].name == n;
      PodTextsWritten(pod, answers, j);
    }
  }

  lemma PodRun(M: MacMap, pod: Pod, answers: seq<Option<Mac>>)
    requires WellFormed(M) && EntersLoop(pod) && |answers| == |pod.annotation.list|
    ensures Recordings(M, PodLoop(M, pod, true, answers).pool, RecordName(pod),
                       PairsBefore(AsInterfaces(pod.annotation.list), answers, PodEnd(pod, answers)))
  {
    var ifs := AsInterfaces(pod.annotation.list);
    assert ifs[..|ifs|] == ifs && answers[..|ifs|] == answers;
    PodRecordings(M, RecordName(pod), ifs, answers, |ifs|);
  }

  // ---- when a failed admission leaves the map as it was ---------------------------------------

  /** Round j of a named pod is undone: its address is the last one of its name and the pod held
      nothing there, or the pair was recorded before. */
  ghost predicate RoundReverts(M: MacMap, pod: Pod, answers: seq<Option<Mac>>, j: nat)
    requires EntersLoop(pod) && |answers| == |pod.annotation.list| && j < PodEnd(pod, answers)
  {
    PodTextsWritten(pod, answers, j);
    var ifs := AsInterfaces(pod.annotation.list);
    var m := TextOf(ifs[j], answers[j]).mac;
    if Remembered(ifs, answers, PodEnd(pod, answers), ifs[j].name, m) then !Holds(M, m, RecordName(pod))
    else In(M, m, Entry(RecordName(pod), ifs[j].name, None))
  }

  /** A failed admission of a named pod, repeated network names and earlier entries included, leaves
      the map as it was, for any revert order, if and only if every round before the failure is undone. */
  lemma FailedPodRestoresIff(M: MacMap, pod: Pod, answers: seq<Option<Mac>>, order: seq<string>)
    requires WellFormed(M) && EntersLoop(pod) && |answers| == |pod.annotation.list| && pod.name != ""
    requires Enumerates(order, PodLoop(M, pod, true, answers).allocs.Keys)
    requires !AllocatePod(M, pod, true, answers, order).1
    ensures AllocatePod(M, pod, true, answers, order).0 == M
            <==> forall j :: 0 <= j < PodEnd(pod, answers) ==> RoundReverts(M, pod, answers, j)
  {
    var v, ifs, k := RecordName(pod), AsInterfaces(pod.annotation.list), PodEnd(pod, answers);
    var r, P := PodLoop(M, pod, true, answers), PairsBefore(ifs, answers, k);
    PodRun(M, pod, answers);
    PodChosen(M, pod, answers);
    RecordingsRevertedIff(M, r.pool, v, P, r.allocs, order);
    forall j | 0 <= j < k
      ensures TextOf(ifs[j], answers[j]).Written? && (ifs[j].name, TextOf(ifs[j], answers[j]).mac) in P
      ensures RoundReverts(M, pod, answers, j)
              <==> PairReverts(M, v, r.allocs, (ifs[j].name, TextOf(ifs[j], answers[j]).mac))
    {
      PodTextsWritten(pod, answers, j);
      RememberedIff(M, pod, answers, ifs[j].name, TextOf(ifs[j], answers[j]).mac);
    }
  }

  /** No network name comes up with two addresses before the failure. */
  ghost predicate OneAddressPerName(ifs: seq<Interface>, answers: seq<Option<Mac>>, k: nat)
    requires k <= |ifs| == |answers|
  {
    forall i, j :: 0 <= i < j < k && ifs[i].name == ifs[j].name ==>
          Normal(TextOf(ifs[i], answers[i])) == Normal(TextOf(ifs[j], answers[j]))
  }

  lemma LastExists(ifs: seq<Interface>, k: nat, j: nat) returns (l: nat)
    requires j < k <= |ifs|
    ensures j <= l < k && ifs[l].name == ifs[j].name && LastOfName(ifs, k, l)
    decreases k - j
  {
    l := j;
    if i :| j < i < k && ifs[i].name == ifs[j].name {
      l := LastExists(ifs, k, i);
    }
  }

  lemma AllRememberedIff(ifs: seq<Interface>, answers: seq<Option<Mac>>, k: nat)
    requires k <= |ifs| == |answers| && forall j :: 0 <= j < k ==> TextOf(ifs[j], answers[j]).Written?
    ensures OneAddressPerName(ifs, answers, k) <==>
            forall j :: 0 <= j < k ==> Remembered(ifs, answers, k, ifs[j].name, TextOf(ifs[j], answers[j]).mac)
  {
    if OneAddressPerName(ifs, answers, k) {
      forall j | 0 <= j < k ensures Remembered(ifs, answers, k, ifs[j].name, TextOf(ifs[j], answers[j]).mac) {
        var l := LastExists(ifs, k, j);
        assert j < l ==> Normal(TextOf(ifs[j], answers[j])) == Normal(TextOf(ifs[l], answers[l]));
      }
    } else {
      var i, j :| 0 <= i < j < k && ifs[i].name == ifs[j].name
          && Normal(TextOf(ifs[i], answers[i])) != Normal(TextOf(ifs[j], answers[j]));
      if Remembered(ifs, answers, k, ifs[i].name, TextOf(ifs[i], answers[i]).mac)
         && Remembered(ifs, answers, k, ifs[j].name, TextOf(ifs[j], answers[j]).mac) {
        OneRemembered(ifs, answers, k, ifs[i].name, TextOf(ifs[i], answers[i]).mac, TextOf(ifs[j], answers[j]).mac);
      }
    }
  }

  lemma OneRemembered(ifs: seq<Interface>, answers: seq<Option<Mac>>, k: nat, n: string, m1: Mac, m2: Mac)
    requires k <= |ifs| == |answers| && Remembered(ifs, answers, k, n, m1) && Remembered(ifs, answers, k, n, m2)
    ensures m1 == m2
  {
    var a :| 0 <= a < k && LastOfName(ifs, k, a) && ifs[a].name == n && TextOf(ifs[a], answers[a]).Written?
        && TextOf(ifs[a], answers[a]).mac == m1;
    var b :| 0 <= b < k && LastOfName(ifs, k, b) && ifs[b].name == n && TextOf(ifs[b], answers[b]).Written?
        && TextOf(ifs[b], answers[b]).mac == m2;
    assert a == b;
  }

  /** So for a pod without earlier entries: exactly when no network name was recorded at two
      different addresses before the failure. */
  lemma FailedNewPodRestoresIff(M: MacMap, pod: Pod, answers: seq<Option<Mac>>, order: seq<string>)
    requires WellFormed(M) && EntersLoop(pod) && |answers| == |pod.annotation.list| && pod.name != ""
    requires Enumerates(order, PodLoop(M, pod, true, answers).allocs.Keys)
    requires !AllocatePod(M, pod, true, answers, order).1
    requires forall m :: m in M ==> !Holds(M, m, RecordName(pod))
    ensures AllocatePod(M, pod, true, answers, order).0 == M
            <==> OneAddressPerName(AsInterfaces(pod.annotation.list), answers, PodEnd(pod, answers))
  {
    var ifs, k := AsInterfaces(pod.annotation.list), PodEnd(pod, answers);
    FailedPodRestoresIff(M, pod, answers, order);
    forall j | 0 <= j < k
      ensures TextOf(ifs[j], answers[j]).Written?
      ensures RoundReverts(M, pod, answers, j)
              <==> Remembered(ifs, answers, k, ifs[j].name, TextOf(ifs[j], answers[j]).mac)
    {
      PodTextsWritten(pod, answers, j);
      NotRecorded(M, TextOf(ifs[j], answers[j]).mac, RecordName(pod), ifs[j].name);
    }
    AllRememberedIff(ifs, answers, k);
  }

  lemma NotRecorded(M: MacMap, m: Mac, v: string, n: string)
    requires forall x :: x in M ==> !Holds(M, x, v)
    ensures !Holds(M, m, v) && !In(M, m, Entry(v, n, None))
  {
  }

  /** And for distinct network names: exactly when the pod held none of the addresses recorded
      before the failure. */
  lemma FailedDistinctPodRestoresIff(M: MacMap, pod: Pod, answers: seq<Option<Mac>>, order: seq<string>)
    requires WellFormed(M) && EntersLoop(pod) && |answers| == |pod.annotation.list| && pod.name != ""
    requires NamesDistinct(AsInterfaces(pod.annotation.list))
    requires Enumerates(order, PodLoop(M, pod, true, answers).allocs.Keys)
    requires !AllocatePod(M, pod, true, answers, order).1
    ensures AllocatePod(M, pod, true, answers, order).0 == M
            <==> forall p :: p in PairsBefore(AsInterfaces(pod.annotation.list), answers, PodEnd(pod, answers)) ==>
                  !Holds(M, p.1, RecordName(pod))
  {
    var ifs, k := AsInterfaces(pod.annotation.list), PodEnd(pod, answers);
    FailedPodRestoresIff(M, pod, answers, order);
    forall j | 0 <= j < k
      ensures TextOf(ifs[j], answers[j]).Written?
              && (ifs[j].name, TextOf(ifs[j], answers[j]).mac) in PairsBefore(ifs, answers, k)
      ensures RoundReverts(M, pod, answers, j) <==> !Holds(M, TextOf(ifs[j], answers[j]).mac, RecordName(pod))
    {
      PodTextsWritten(pod, answers, j);
      assert LastOfName(ifs, k, j);
    }
  }

  /** A pod that repeats network a and ends in a request that does not parse. */
  function Repeating(m1: Mac, m2: Mac): Pod {
    Pod("ns", "p", Networks([PodNetwork("a", Written(m1, 0)), PodNetwork("a", Written(m2, 0)),
                             PodNetwork("b", Garbled)]), false, false)
  }

  lemma RepeatingRun(m1: Mac, m2: Mac)
    ensures var v := RecordName(Repeating(m1, m2));
            var r := PodLoop(map[], Repeating(m1, m2), true, [None, None, None]);
            && r.pool == CreateOrUpdate(CreateOrUpdate(map[], m1, v, "a"), m2, v, "a")
            && r.allocs == map["a" := Written(m2, 0)] && r.failed
  {
    var v := RecordName(Repeating(m1, m2));
    var i0, i1 := Interface("a", Written(m1, 0), true), Interface("a", Written(m2, 0), true);
    var i2 := Interface("b", Garbled, true);
    assert AsInterfaces(Repeating(m1, m2).annotation.list) == [i0, i1, i2];
    ThreeRounds(map[], v, i0, i1, i2);
    var p1 := CreateStep(CreateRun(map[], map[], [], false), v, [], true, i0, None);
    assert p1 == CreateRun(CreateOrUpdate(map[], m1, v, "a"), map["a" := Written(m1, 0)], [i0], false);
    var p2 := CreateStep(p1, v, [], true, i1, None);
    assert p2.pool == CreateOrUpdate(p1.pool, m2, v, "a") && p2.allocs == map["a" := Written(m2, 0)] && !p2.failed;
  }

  /** With a repeated network name the earlier address is forgotten by newAllocations and leaks. */
  lemma RepeatedNetworkLeaks(m1: Mac, m2: Mac)
    requires m1 != m2
    ensures var pod := Repeating(m1, m2);
            && PodLoop(map[], pod, true, [None, None, None]).allocs.Keys == {"a"}
            && Enumerates(["a"], {"a"})
            && !AllocatePod(map[], pod, true, [None, None, None], ["a"]).1
            && m1 in AllocatePod(map[], pod, true, [None, None, None], ["a"]).0
  {
    RepeatingRun(m1, m2);
    PickOne(map["a" := Written(m2, 0)], "a");
    EarlierStays(m1, m2, RecordName(Repeating(m1, m2)), "a");
  }

  lemma EarlierStays(m1: Mac, m2: Mac, v: string, n: string)
    requires m1 != m2
    ensures m1 in RevertAll(CreateOrUpdate(CreateOrUpdate(map[], m1, v, n), m2, v, n), v, [Written(m2, 0)])
  {
    var P2 := CreateOrUpdate(CreateOrUpdate(map[], m1, v, n), m2, v, n);
    assert m1 in P2 && P2[m1] == Upsert([], v, n);
    RevertAllExact(P2, v, [Written(m2, 0)], m1);
    assert [Written(m2, 0)][1..] == [];
  }

  lemma ThreeRounds(M: MacMap, v: string, i0: Interface, i1: Interface, i2: Interface)
    ensures CreateLoop(M, v, [], true, [i0, i1, i2], [None, None, None])
            == CreateStep(CreateStep(CreateStep(CreateRun(M, map[], [], false), v, [], true, i0, None),
                                     v, [], true, i1, None), v, [], true, i2, None)
  {
    var a: seq<Option<Mac>> := [None, None, None];
    var ifs := [i0, i1, i2];
    assert ifs[..2][..1] == ifs[..1] && a[..2][..1] == a[..1];
    assert ifs[..1][..0] == [] && a[..1][..0] == [];
    var r0 := CreateLoop(M, v, [], true, ifs[..1][..0], a[..1][..0]);
    assert r0 == CreateRun(M, map[], [], false);
    var r1 := CreateLoop(M, v, [], true, ifs[..1], a[..1]);
    assert ifs[..1][0] == i0 && ifs[..2][1] == i1;
    assert r1 == CreateStep(CreateRun(M, map[], [], false), v, [], true, i0, None);
    assert CreateLoop(M, v, [], true, ifs[..2], a[..2]) == CreateStep(r1, v, [], true, i1, None);
  }

  lemma PickOne(allocs: map<string, MacText>, n: string)
    requires n in allocs
    ensures Pick(allocs, [n]) == [allocs[n]]
  {
    assert [n][1..] == [];
    assert Pick(allocs, []) == [];
  }

  /** Round j of a nameless pod is undone by a revert under another name: its pair was recorded
      under the placeholder before, and the other name holds nothing at an address the revert names. */
  ghost predicate NamelessRoundReverts(M: MacMap, pod: Pod, answers: seq<Option<Mac>>, j: nat)
    requires EntersLoop(pod) && |answers| == |pod.annotation.list| && j < PodEnd(pod, answers)
  {
    PodTextsWritten(pod, answers, j);
    var ifs := AsInterfaces(pod.annotation.list);
    var m := TextOf(ifs[j], answers[j]).mac;
    && In(M, m, Entry(TEMP_POD_NAME, ifs[j].name, None))
    && (Remembered(ifs, answers, PodEnd(pod, answers), ifs[j].name, m) ==> !Holds(M, m, RevertName(pod)))
  }

  lemma PlaceholderIsNoPod(pod: Pod)
    ensures TEMP_POD_NAME != RevertName(pod)
  {
    assert RevertName(pod)[0] != TEMP_POD_NAME[0];
  }

  /** A nameless pod is reverted under a name nothing was recorded for, so whatever the failed run
      recorded under the placeholder stays: the map is as it was exactly when there was nothing new
      to record and nothing of the other name to take away. */
  lemma NamelessPodRestoresIff(M: MacMap, pod: Pod, answers: seq<Option<Mac>>, order: seq<string>)
    requires WellFormed(M) && EntersLoop(pod) && |answers| == |pod.annotation.list| && pod.name == ""
    requires Enumerates(order, PodLoop(M, pod, true, answers).allocs.Keys)
    requires !AllocatePod(M, pod, true, answers, order).1
    ensures AllocatePod(M, pod, true, answers, order).0 == M
            <==> forall j :: 0 <= j < PodEnd(pod, answers) ==> NamelessRoundReverts(M, pod, answers, j)
  {
    var v, w, ifs, k := RecordName(pod), RevertName(pod), AsInterfaces(pod.annotation.list), PodEnd(pod, answers);
    var r, P := PodLoop(M, pod, true, answers), PairsBefore(ifs, answers, k);
    PlaceholderIsNoPod(pod);
    PodRun(M, pod, answers);
    PodChosen(M, pod, answers);
    RevertedElsewhereIff(M, r.pool, v, w, P, r.allocs, order);
    forall j | 0 <= j < k
      ensures TextOf(ifs[j], answers[j]).Written? && (ifs[j].name, TextOf(ifs[j], answers[j]).mac) in P
      ensures NamelessRoundReverts(M, pod, answers, j)
              <==> PairRevertsElsewhere(M, v, w, r.allocs, (ifs[j].name, TextOf(ifs[j], answers[j]).mac))
    {
      PodTextsWritten(pod, answers, j);
      RememberedIff(M, pod, answers, ifs[j].name, TextOf(ifs[j], answers[j]).mac);
    }
  }

  /** A dry run leaves the map identical, whether it succeeds or fails. */
  lemma PodDryRun(M: MacMap, pod: Pod, answers: seq<Option<Mac>>, order: seq<string>)
    requires EntersLoop(pod) && |answers| == |pod.annotation.list|
    requires Enumerates(order, PodLoop(M, pod, false, answers).allocs.Keys)
    ensures AllocatePod(M, pod, false, answers, order).0 == M
  {
    CreateDryRunPure(M, RecordName(pod), [], AsInterfaces(pod.annotation.list), answers);
  }

  // ---- the outcome on the fields of the pod ---------------------------------------------------

  /** An admission succeeds exactly when every requested address parses and every network without a
      request gets an answer. */
  lemma PodOkIff(M: MacMap, pod: Pod, live: bool, answers: seq<Option<Mac>>, order: seq<string>)
    requires EntersLoop(pod) && |answers| == |pod.annotation.list|
    requires Enumerates(order, PodLoop(M, pod, live, answers).allocs.Keys)
    ensures var list := pod.annotation.list;
            AllocatePod(M, pod, live, answers, order).1 <==> forall j :: 0 <= j < |list| ==>
              !list[j].request.Garbled? && (list[j].request.Blank? ==> answers[j].Some?)
  {
    var ifs := AsInterfaces(pod.annotation.list);
    CreateNotesAll(M, RecordName(pod), [], live, ifs, answers);
    var stops := CreateStops(ifs, [], answers);
    forall j | 0 <= j < |ifs| ensures stops[j] <==> ifs[j].mac.Garbled? || (ifs[j].mac.Blank? && answers[j].None?) {
    }
  }

  /** Then each network comes back with its request or, if it had none, the answer. */
  lemma PodReturns(M: MacMap, pod: Pod, live: bool, answers: seq<Option<Mac>>, order: seq<string>)
    requires EntersLoop(pod) && |answers| == |pod.annotation.list|
    requires Enumerates(order, PodLoop(M, pod, live, answers).allocs.Keys)
    requires AllocatePod(M, pod, live, answers, order).1
    ensures var list, got := pod.annotation.list, PodLoop(M, pod, live, answers).done;
            && |got| == |list|
            && forall j :: 0 <= j < |list| ==>
                 && got[j].name == list[j].name && got[j].mac.Written?
                 && if list[j].request.Blank? then answers[j].Some? && got[j].mac == Written(answers[j].value, 0)
                    else got[j].mac == list[j].request
  {
    var ifs := AsInterfaces(pod.annotation.list);
    assert ifs[..|ifs|] == ifs && answers[..|ifs|] == answers;
    CreateFills(M, RecordName(pod), [], live, ifs, answers, |ifs|);
    assert Filled(ifs, [], live, answers, |ifs|, PodLoop(M, pod, live, answers));
  }

  lemma OthersStay(M: MacMap, P: MacMap, v: string, m: Mac, e: Entry)
    requires OthersSame(M, P, v) && e.inst != v
    ensures In(P, m, e) <==> In(M, m, e)
  {
    OthersMembers(Entries(M, m), v);
    OthersMembers(Entries(P, m), v);
    assert e in Entries(P, m) <==> e in Others(Entries(P, m), v);
    assert e in Entries(M, m) <==> e in Others(Entries(M, m), v);
  }

  /** The network named n came back with address m. */
  ghost predicate CameBack(got: seq<Interface>, n: string, m: Mac) {
    exists j :: 0 <= j < |got| && got[j].name == n && got[j].mac.Written? && got[j].mac.mac == m
  }

  lemma GrantedPairs(M: MacMap, pod: Pod, answers: seq<Option<Mac>>, order: seq<string>, n: string, m: Mac)
    requires EntersLoop(pod) && |answers| == |pod.annotation.list|
    requires Enumerates(order, PodLoop(M, pod, true, answers).allocs.Keys)
    requires AllocatePod(M, pod, true, answers, order).1
    ensures (n, m) in PairsBefore(AsInterfaces(pod.annotation.list), answers, PodEnd(pod, answers))
            <==> CameBack(PodLoop(M, pod, true, answers).done, n, m)
  {
    var ifs, got := AsInterfaces(pod.annotation.list), PodLoop(M, pod, true, answers).done;
    CreateNotesAll(M, RecordName(pod), [], true, ifs, answers);
    PodReturns(M, pod, true, answers, order);
    forall j | 0 <= j < |ifs| ensures TextOf(ifs[j], answers[j]) == got[j].mac && ifs[j].name == got[j].name {
    }
  }

  /** A granted admission leaves a confirmed entry for every network at its address, under the pod's
      name or the placeholder of a nameless one. It touches no other name's entries and records
      nothing else. */
  lemma GrantedPodIsRecorded(M: MacMap, pod: Pod, answers: seq<Option<Mac>>, order: seq<string>, m: Mac, e: Entry)
    requires WellFormed(M) && EntersLoop(pod) && |answers| == |pod.annotation.list|
    requires Enumerates(order, PodLoop(M, pod, true, answers).allocs.Keys)
    requires AllocatePod(M, pod, true, answers, order).1
    ensures var P, got := AllocatePod(M, pod, true, answers, order).0, PodLoop(M, pod, true, answers).done;
            var v := if pod.name == "" then "tempPodName" else "pod/" + pod.namespace + "/" + pod.name;
            && (CameBack(got, e.key, m) ==> In(P, m, Entry(v, e.key, None)))
            && (e.inst != v ==> (In(P, m, e) <==> In(M, m, e)))
            && (e.inst == v && In(P, m, e) ==> In(M, m, e) || CameBack(got, e.key, m))
  {
    PodRun(M, pod, answers);
    GrantedPairs(M, pod, answers, order, e.key, m);
    if e.inst != RecordName(pod) {
      OthersStay(M, PodLoop(M, pod, true, answers).pool, RecordName(pod), m, e);
    }
  }

  /** AllocatePodMac with its early exits; returns the networks with the addresses filled in. */
  method AllocatePodMac(p: PoolManager, pod: Pod, live: bool)
      returns (ok: bool, networks: seq<PodNetwork>, ghost answers: seq<Option<Mac>>, ghost order: seq<string>)
    requires p.Valid()
    modifies p.macs, p.ranges.currentMac
    ensures p.Valid()
    ensures !pod.annotation.Networks? || pod.hasStatus || pod.annotation.list == [] || pod.ofVm ==>
              && p.macs.entries == old(p.macs.entries)
              && (!ok <==> pod.annotation.Malformed? && !pod.hasStatus)
    ensures EntersLoop(pod) ==>
              && |answers| == |pod.annotation.list|
              && Enumerates(order, PodLoop(old(p.macs.entries), pod, live, answers).allocs.Keys)
              && CreateAnswersFree(old(p.macs.entries), RecordName(pod), [], live, AsInterfaces(pod.annotation.list),
                                   answers)
              && (p.macs.entries, ok) == AllocatePod(old(p.macs.entries), pod, live, answers, order)
              && (ok ==> AsInterfaces(networks) == PodLoop(old(p.macs.entries), pod, live, answers).done)
  {
    networks, answers, order := [], [], [];
    if pod.annotation.Absent? || pod.hasStatus {
      return true, networks, answers, order;
    }
    if pod.annotation.Malformed? {
      return false, networks, answers, order;
    }
    if |pod.annotation.list| == 0 || pod.ofVm {
      return true, networks, answers, order;
    }
    var allocs, done, failed;
    allocs, done, failed, answers := p.CreateInterfaces(RecordName(pod), [], AsInterfaces(pod.annotation.list), live);
    if failed {
      order := p.RevertAllocation(RevertName(pod), allocs, live);
      return false, networks, answers, order;
    }
    order := AnyOrder(allocs.Keys);
    networks := seq(|done|, k requires 0 <= k < |done| => PodNetwork(done[k].name, done[k].mac));
    AllMasquerade(old(p.macs.entries), RecordName(pod), live, AsInterfaces(pod.annotation.list), answers);
    assert AsInterfaces(networks) == done;
    return true, networks, answers, order;
  }

  lemma {:induction false} AllMasquerade(M: MacMap, v: string, live: bool, ifs: seq<Interface>,
                                         answers: seq<Option<Mac>>)
    requires |ifs| == |answers| && forall k :: 0 <= k < |ifs| ==> ifs[k].masquerade
    ensures forall i :: i in CreateLoop(M, v, [], live, ifs, answers).done ==> i.masquerade
  {
    if ifs != [] {
      var n := |ifs| - 1;
      AllMasquerade(M, v, live, ifs[..n], answers[..n]);
    }
  }
}
