/** The shared collision map and its gauge (pkg/pool-manager/vmi_collision.go). */
module Collisions {
  import opened Addresses
  import opened MacMaps

  datatype Kind = VmiKind | PodKind

  datatype Ref = Ref(kind: Kind, ns: string, name: string) {
    function Key(): string {
      (if kind.VmiKind? then "vmi" else "pod") + "/" + ns + "/" + name
    }
  }

  type CollisionMap = map<Mac, seq<Ref>>

  /** The text key identifies the object as long as namespaces contain no slash. */
  lemma KeyInjective(a: Ref, b: Ref)
    requires '/' !in a.ns && '/' !in b.ns && a.Key() == b.Key()
    ensures a == b
  {
    KeyParts(a);
    KeyParts(b);
    JoinSplit(a.name);
    JoinSplit(b.name);
    assert Split(a.Key())[2..] == Split(a.name);
    assert Split(b.Key())[2..] == Split(b.name);
  }

  lemma KeyParts(a: Ref)
    requires '/' !in a.ns
    ensures Split(a.Key()) == [if a.kind.VmiKind? then "vmi" else "pod", a.ns] + Split(a.name)
  {
    var k := if a.kind.VmiKind? then "vmi" else "pod";
    SplitPart(k, a.ns + "/" + a.name);
    SplitPart(a.ns, a.name);
    ConcatAssoc(k + "/", a.ns, "/");
    ConcatAssoc(k + "/", a.ns + "/", a.name);
    ConcatAssoc([k], [a.ns], Split(a.name));
  }

  ghost predicate Slashless(objs: seq<Ref>) {
    forall k :: 0 <= k < |objs| ==> '/' !in objs[k].ns
  }

  /** The list without the object of that key. */
  function Without(objs: seq<Ref>, key: string): seq<Ref> {
    if objs == [] then [] else (if objs[0].Key() != key then [objs[0]] else []) + Without(objs[1..], key)
  }

  /** The map after an object is taken out everywhere; lists of fewer than two objects go. */
  function RemoveObject(C: CollisionMap, key: string): CollisionMap {
    map m | m in C && |Without(C[m], key)| > 1 :: Without(C[m], key)
  }

  /** The map after UpdateCollisionsMap: the object's own report replaces the list at each reported address. */
  function UpdateMap(C: CollisionMap, ref: Ref, report: CollisionMap): CollisionMap {
    RemoveObject(C, ref.Key()) + map m | m in report :: [ref] + report[m]
  }

  function UpdateGauge(g: map<Mac, int>, before: set<Mac>, C: CollisionMap): map<Mac, int> {
    map m | m in g.Keys + C.Keys && (m in C || m !in before) :: if m in C then |C[m]| else g[m]
  }

  lemma Added(R: CollisionMap, C: CollisionMap, ref: Ref, report: CollisionMap)
    requires forall m :: m in C <==> m in R || m in report
    requires forall m :: m in C ==> C[m] == if m in report then [ref] + report[m] else R[m]
    ensures C == R + map m | m in report :: [ref] + report[m]
  {
  }

  lemma {:induction false} WithoutIff(objs: seq<Ref>, key: string)
    ensures forall r :: r in Without(objs, key) <==> r in objs && r.Key() != key
    ensures |Without(objs, key)| <= |objs|
    ensures Distinct(objs) ==> Distinct(Without(objs, key))
  {
    if objs != [] {
      WithoutIff(objs[1..], key);
      if Distinct(objs) {
        assert forall a, b :: 0 <= a < b < |objs| - 1 ==> objs[1..][a] != objs[1..][b];
        assert objs[0] !in objs[1..];
        var r := Without(objs[1..], key);
        assert objs[0] !in r;
        var all := [objs[0]] + r;
        assert forall j :: 1 <= j < |all| ==> all[j] == r[j - 1];
      }
    }
  }

  lemma {:induction false} WithoutAbsent(objs: seq<Ref>, key: string)
    requires forall r :: r in objs ==> r.Key() != key
    ensures Without(objs, key) == objs
  {
    if objs != [] {
      WithoutAbsent(objs[1..], key);
      assert objs[0] in objs;
      assert objs == [objs[0]] + objs[1..];
    }
  }

  lemma {:induction false} WithoutSplit(a: seq<Ref>, b: seq<Ref>, key: string)
    ensures Without(a + b, key) == Without(a, key) + Without(b, key)
  {
    if a == [] {
      assert a + b == b;
    } else {
      WithoutSplit(a[1..], b, key);
      assert (a + b)[1..] == a[1..] + b;
      var h := if a[0].Key() != key then [a[0]] else [];
      assert (a + b)[0] == a[0];
      ConcatAssoc(h, Without(a[1..], key), Without(b, key));
    }
  }

  // ---- gauge agreement ------------------------------------------------------------------------

  /** A report as the controllers make it: every list non-empty, without repetition and without the object itself. */
  ghost predicate ProperReport(ref: Ref, report: CollisionMap) {
    forall m :: m in report ==> report[m] != [] && Distinct(report[m]) && ref !in report[m]
  }

  /** Every listed address has at least two distinct objects, and the gauge shows exactly the map. */
  ghost predicate Agrees(C: CollisionMap, g: map<Mac, int>) {
    && g.Keys == C.Keys
    && forall m :: m in C ==> g[m] == |C[m]| && |C[m]| >= 2 && Distinct(C[m])
  }

  lemma UpdateAgrees(C: CollisionMap, g: map<Mac, int>, ref: Ref, report: CollisionMap)
    requires Agrees(C, g) && ProperReport(ref, report)
    ensures Agrees(UpdateMap(C, ref, report), UpdateGauge(g, C.Keys, UpdateMap(C, ref, report)))
  {
    var C' := UpdateMap(C, ref, report);
    forall m | m in C' ensures |C'[m]| >= 2 && Distinct(C'[m]) {
      if m in report {
        var r := [ref] + report[m];
        assert forall j :: 1 <= j < |r| ==> r[j] == report[m][j - 1];
        assert C'[m] == r;
      } else {
        WithoutIff(C[m], ref.Key());
        assert C'[m] == Without(C[m], ref.Key());
      }
    }
  }

  /** One call of UpdateCollisionsMap. */
  datatype Call = Call(ref: Ref, report: CollisionMap)

  /** From the empty map, after every sequence of proper reports map and gauge agree. */
  lemma {:induction false} GaugeAlwaysAgrees(calls: seq<Call>, maps: seq<CollisionMap>, gauges: seq<map<Mac, int>>,
                                             k: nat)
    requires |maps| == |gauges| == |calls| + 1 && k < |maps|
    requires maps[0] == map[] && gauges[0] == map[]
    requires forall i :: 0 <= i < |calls| ==> ProperReport(calls[i].ref, calls[i].report)
    requires forall i :: 0 <= i < |calls| ==> maps[i + 1] == UpdateMap(maps[i], calls[i].ref, calls[i].report)
    requires forall i :: 0 <= i < |calls| ==> gauges[i + 1] == UpdateGauge(gauges[i], maps[i].Keys, maps[i + 1])
    ensures Agrees(maps[k], gauges[k])
  {
    if k > 0 {
      GaugeAlwaysAgrees(calls, maps, gauges, k - 1);
      UpdateAgrees(maps[k - 1], gauges[k - 1], calls[k - 1].ref, calls[k - 1].report);
      assert maps[(k - 1) + 1] == maps[k] && gauges[(k - 1) + 1] == gauges[k];
    }
  }

  // ---- the object that carries map and gauge --------------------------------------------------

  class CollisionIndex {
    var colliding: CollisionMap
    var gauge: map<Mac, int>

    constructor ()
      ensures colliding == map[] && gauge == map[]
    {
      colliding, gauge := map[], map[];
    }

    static method DropObject(objects: seq<Ref>, key: string) returns (kept: seq<Ref>)
      ensures kept == Without(objects, key)
    {
      kept := [];
      for j := 0 to |objects|
        invariant kept == Without(objects[..j], key)
      {
        WithoutSplit(objects[..j], [objects[j]], key);
        assert objects[..j] + [objects[j]] == objects[..j + 1];
        if objects[j].Key() != key {
          kept := kept + [objects[j]];
        }
      }
      assert objects[..|objects|] == objects;
    }

    method RemoveObjectFromAllMACs(key: string)
      modifies this`colliding
      ensures colliding == RemoveObject(old(colliding), key)
    {
      ghost var C := colliding;
      var left := colliding.Keys;
      while left != {}
        invariant left <= C.Keys
        invariant forall m :: m in colliding <==> m in C && (m in left || |Without(C[m], key)| > 1)
        invariant forall m :: m in colliding ==> colliding[m] == if m in left then C[m] else Without(C[m], key)
        decreases |left|
      {
        var m :| m in left;
        var kept := DropObject(colliding[m], key);
        left := left - {m};
        if |kept| <= 1 {
          colliding := colliding - {m};
        } else {
          colliding := colliding[m := kept];
        }
      }
    }

    /** Puts the object in front of its colliders at every reported address. */
    method AddReport(ref: Ref, report: CollisionMap)
      modifies this`colliding
      ensures colliding == old(colliding) + map m | m in report :: [ref] + report[m]
    {
      ghost var R := colliding;
      var left := report.Keys;
      while left != {}
        invariant left <= report.Keys
        invariant forall m :: m in colliding <==> m in R || (m in report && m !in left)
        invariant forall m :: m in colliding ==>
                    colliding[m] == if m in report && m !in left then [ref] + report[m] else R[m]
        decreases |left|
      {
        var m :| m in left;
        left := left - {m};
        colliding := colliding[m := [ref] + report[m]];
      }
      Added(R, colliding, ref, report);
    }

    method SetGauge()
      modifies this`gauge
      ensures forall m :: m in gauge <==> m in old(gauge) || m in colliding
      ensures forall m :: m in gauge ==> gauge[m] == if m in colliding then |colliding[m]| else old(gauge)[m]
    {
      ghost var g := gauge;
      var left := colliding.Keys;
      while left != {}
        invariant left <= colliding.Keys
        invariant forall m :: m in gauge <==> m in g || (m in colliding && m !in left)
        invariant forall m :: m in gauge ==> gauge[m] == if m in colliding && m !in left then |colliding[m]| else g[m]
        decreases |left|
      {
        var m :| m in left;
        left := left - {m};
        gauge := gauge[m := |colliding[m]|];
      }
    }

    /** Sets the gauge for every listed address and deletes it for those that went. */
    method UpdateCollisionGauge(before: set<Mac>)
      modifies this`gauge
      ensures gauge == UpdateGauge(old(gauge), before, colliding)
    {
      SetGauge();
      ghost var g := gauge;
      var left := before;
      while left != {}
        invariant left <= before
        invariant forall m :: m in gauge <==> m in g && (m in colliding || m !in before || m in left)
        invariant forall m :: m in gauge ==> gauge[m] == g[m]
        decreases |left|
      {
        var m :| m in left;
        left := left - {m};
        if m !in colliding {
          gauge := gauge - {m};
        }
      }
    }

    method UpdateCollisionsMap(ref: Ref, report: CollisionMap)
      modifies this
      ensures colliding == UpdateMap(old(colliding), ref, report)
      ensures gauge == UpdateGauge(old(gauge), old(colliding).Keys, colliding)
      ensures old(Agrees(colliding, gauge)) && ProperReport(ref, report) ==> Agrees(colliding, gauge)
    {
      ghost var C, g := colliding, gauge;
      var before := colliding.Keys;
      RemoveObjectFromAllMACs(ref.Key());
      AddReport(ref, report);
      UpdateCollisionGauge(before);
      if Agrees(C, g) && ProperReport(ref, report) {
        UpdateAgrees(C, g, ref, report);
      }
    }
  }
}
