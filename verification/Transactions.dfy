/** What the multi-address operations of the MAC map do as a whole: stamping, reverting, releasing
    and committing (pkg/pool-manager/macpoolmap.go, transaction.go, virtualmachine_pool.go). */
module Transactions {
  import opened Addresses
  import opened MacMaps

  // ---- other instances are left alone ---------------------------------------------------------

  ghost predicate OthersSame(A: MacMap, B: MacMap, v: string) {
    forall m :: Others(Entries(A, m), v) == Others(Entries(B, m), v)
  }

  lemma {:induction false} OthersSplit(a: seq<Entry>, b: seq<Entry>, v: string)
    ensures Others(a + b, v) == Others(a, v) + Others(b, v)
  {
    if a == [] {
      assert a + b == b;
    } else {
      OthersSplit(a[1..], b, v);
      assert (a + b)[1..] == a[1..] + b;
      var h := if a[0].inst != v then [a[0]] else [];
      assert (a + b)[0] == a[0];
      ConcatAssoc(h, Others(a[1..], v), Others(b, v));
    }
  }

  lemma {:induction false} OnlySplit(a: seq<Entry>, b: seq<Entry>, v: string)
    ensures Only(a + b, v) == Only(a, v) + Only(b, v)
  {
    if a == [] {
      assert a + b == b;
    } else {
      OnlySplit(a[1..], b, v);
      assert (a + b)[1..] == a[1..] + b;
      var h := if a[0].inst == v then [a[0]] else [];
      assert (a + b)[0] == a[0];
      ConcatAssoc(h, Only(a[1..], v), Only(b, v));
    }
  }

  lemma OthersOfReplaced(es: seq<Entry>, k: nat, e: Entry, v: string)
    requires k < |es| && es[k].inst == v && e.inst == v
    ensures Others(es[k := e], v) == Others(es, v)
    ensures Others(es[..k] + es[k + 1..], v) == Others(es, v)
    ensures |Only(es[..k] + es[k + 1..], v)| == |Only(es, v)| - 1
  {
    var a, b := es[..k], es[k + 1..];
    assert es == a + ([es[k]] + b);
    assert es[k := e] == a + ([e] + b);
    OthersSplit(a, [es[k]] + b, v);
    OthersSplit(a, [e] + b, v);
    OthersSplit([es[k]], b, v);
    OthersSplit([e], b, v);
    OthersSplit(a, b, v);
    OnlySplit(a, [es[k]] + b, v);
    OnlySplit([es[k]], b, v);
    OnlySplit(a, b, v);
    assert Others([es[k]], v) == [] && Others([e], v) == [] && Only([es[k]], v) == [es[k]];
  }

  lemma OthersOfUpsert(es: seq<Entry>, v: string, i: string)
    ensures Others(Upsert(es, v, i), v) == Others(es, v)
  {
    var k := PairAt(es, v, i);
    if k < |es| {
      OthersOfReplaced(es, k, Entry(v, i, None), v);
    } else {
      OthersSplit(es, [Entry(v, i, None)], v);
    }
  }

  lemma {:induction false} OthersWhenNone(es: seq<Entry>, v: string)
    requires Only(es, v) == []
    ensures Others(es, v) == es
  {
    if es != [] {
      OthersWhenNone(es[1..], v);
    }
  }

  lemma {:induction false} OnlyIff(es: seq<Entry>, v: string)
    ensures forall e :: e in Only(es, v) <==> e in es && e.inst == v
    ensures Only(es, v) == [] <==> FirstOf(es, v) == |es|
  {
    if es != [] {
      OnlyIff(es[1..], v);
    }
  }

  // ---- stamping -------------------------------------------------------------------------------

  /** The addresses reached before the first unknown one. */
  function Reached(M: MacMap, v: string, texts: seq<MacText>): set<Mac> {
    if texts == [] || !Known(M, texts[0], v) then {}
    else {texts[0].mac} + Reached(M, v, texts[1..])
  }

  lemma StampListFacts(es: seq<Entry>, v: string, t: int)
    ensures FirstOf(StampList(es, v, t), v) == FirstOf(es, v)
    ensures StampList(StampList(es, v, t), v, t) == StampList(es, v, t)
    ensures Others(StampList(es, v, t), v) == Others(es, v)
    ensures |StampList(es, v, t)| == |es|
  {
    var k := FirstOf(es, v);
    if k < |es| {
      var r := StampList(es, v, t);
      assert forall j :: 0 <= j < k ==> r[j].inst != v;
      OthersOfReplaced(es, k, es[k].Stamped(t), v);
    }
  }

  lemma {:induction false} ReachedSame(A: MacMap, B: MacMap, v: string, texts: seq<MacText>)
    requires forall x: MacText :: Known(A, x, v) == Known(B, x, v)
    ensures Reached(A, v, texts) == Reached(B, v, texts)
  {
    if texts != [] && Known(A, texts[0], v) {
      ReachedSame(A, B, v, texts[1..]);
    }
  }

  /** Stamping marks the first entry of the instance at exactly the addresses that come before the
      first unknown one, and nothing else. */
  lemma {:induction false} StampAllExact(M: MacMap, v: string, t: int, texts: seq<MacText>)
    ensures forall m :: Entries(StampAll(M, v, t, texts), m)
                        == if m in Reached(M, v, texts) then StampList(Entries(M, m), v, t) else Entries(M, m)
    ensures (forall m :: m in M ==> M[m] != []) ==>
              forall m :: m in StampAll(M, v, t, texts) ==> StampAll(M, v, t, texts)[m] != []
  {
    if texts != [] && Known(M, texts[0], v) {
      var m0 := texts[0].mac;
      var M1 := Put(M, m0, StampList(Entries(M, m0), v, t));
      StampListFacts(Entries(M, m0), v, t);
      PutEntries(M, m0, StampList(Entries(M, m0), v, t));
      forall x: MacText ensures Known(M, x, v) == Known(M1, x, v) {
        if x.Written? && x.mac != m0 {
          assert Entries(M1, x.mac) == Entries(M, x.mac);
        }
      }
      ReachedSame(M, M1, v, texts[1..]);
      StampAllExact(M1, v, t, texts[1..]);
    }
  }

  /** Every entry of A is still in B, or was one of v's and is in B cleared or stamped t. */
  ghost predicate Advance(A: MacMap, B: MacMap, v: string, t: int) {
    forall m, e :: In(A, m, e) ==>
      In(B, m, e) || (e.inst == v && (In(B, m, e.Cleared()) || In(B, m, e.Stamped(t))))
  }

  lemma StampAllAdvances(M: MacMap, v: string, t: int, texts: seq<MacText>)
    requires WellFormed(M) && IsVmName(v)
    ensures WellFormed(StampAll(M, v, t, texts))
    ensures Advance(M, StampAll(M, v, t, texts), v, t)
    ensures OthersSame(M, StampAll(M, v, t, texts), v)
    ensures StampAll(M, v, t, texts).Keys == M.Keys
  {
    StampAllExact(M, v, t, texts);
    var B := StampAll(M, v, t, texts);
    forall m ensures Others(Entries(M, m), v) == Others(Entries(B, m), v) {
      StampListFacts(Entries(M, m), v, t);
    }
    forall m ensures m in M <==> m in B {
      StampListFacts(Entries(M, m), v, t);
      assert m in M <==> Entries(M, m) != [];
      assert m in B <==> Entries(B, m) != [];
    }
    forall m | m in B ensures B[m] != [] && ListOk(B[m]) {
      StampOk(Entries(M, m), v, t);
      assert B[m] == Entries(B, m);
    }
    forall m, e | In(M, m, e)
      ensures In(B, m, e) || (e.inst == v && (In(B, m, e.Cleared()) || In(B, m, e.Stamped(t))))
    {
      var es := Entries(M, m);
      var j :| 0 <= j < |es| && es[j] == e;
      assert B[m] == Entries(B, m);
      if m in Reached(M, v, texts) && j == FirstOf(es, v) {
        assert B[m][j] == e.Stamped(t);
      } else {
        assert B[m][j] == e;
      }
    }
  }

  // ---- a run of allocations and its reverse ---------------------------------------------------

  /** Address text n of the allocations is address m. */
  predicate AllocatedAt(allocs: map<string, MacText>, n: string, m: Mac) {
    n in allocs && allocs[n].Written? && allocs[n].mac == m
  }

  predicate Holds(M: MacMap, m: Mac, v: string) {
    FirstOf(Entries(M, m), v) < |Entries(M, m)|
  }

  ghost predicate NewAreAllocated(A: MacMap, B: MacMap, v: string, allocs: map<string, MacText>) {
    forall m, e :: In(B, m, e) && e.inst == v ==> In(A, m, e) || AllocatedAt(allocs, e.key, m)
  }

  ghost predicate FirstKept(A: MacMap, B: MacMap, v: string) {
    forall m :: Holds(A, m, v) ==>
      Holds(B, m, v) && Entries(B, m)[FirstOf(Entries(B, m), v)].key == Entries(A, m)[FirstOf(Entries(A, m), v)].key
  }

  ghost predicate Untouched(A: MacMap, B: MacMap, allocs: map<string, MacText>) {
    forall m :: (forall n :: n in allocs ==> !AllocatedAt(allocs, n, m)) ==> Entries(B, m) == Entries(A, m)
  }

  /** B is A after recording, for v, some of the allocations. */
  ghost predicate Grown(A: MacMap, B: MacMap, v: string, allocs: map<string, MacText>) {
    && WellFormed(B)
    && OthersSame(A, B, v)
    && NewAreAllocated(A, B, v, allocs)
    && FirstKept(A, B, v)
    && Untouched(A, B, allocs)
  }

  lemma GrownStart(A: MacMap, v: string)
    requires WellFormed(A)
    ensures Grown(A, A, v, map[])
  {
  }

  lemma FirstOfUpsert(es: seq<Entry>, v: string, i: string)
    ensures FirstOf(es, v) < |es| ==>
              FirstOf(Upsert(es, v, i), v) == FirstOf(es, v)
                  && Upsert(es, v, i)[FirstOf(es, v)].key == es[FirstOf(es, v)].key
    ensures FirstOf(es, v) == |es| ==> Upsert(es, v, i) == es + [Entry(v, i, None)]
  {
    var k := FirstOf(es, v);
    var r := Upsert(es, v, i);
    if k < |es| {
      assert forall j :: 0 <= j < k ==> r[j] == es[j];
      assert r[k].inst == v;
    }
  }

  lemma UntouchedStep(A: MacMap, B: MacMap, C: MacMap, allocs: map<string, MacText>, n: string, t: MacText)
    requires Untouched(A, B, allocs) && n !in allocs
    requires forall m :: !(t.Written? && t.mac == m) ==> Entries(C, m) == Entries(B, m)
    ensures Untouched(A, C, allocs[n := t])
  {
    var allocs' := allocs[n := t];
    forall m | (forall x :: x in allocs' ==> !AllocatedAt(allocs', x, m)) ensures Entries(C, m) == Entries(A, m) {
      assert !AllocatedAt(allocs', n, m);
      assert forall x :: x in allocs ==> x in allocs' && AllocatedAt(allocs', x, m) == AllocatedAt(allocs, x, m);
    }
  }

  lemma NewAreAllocatedStep(A: MacMap, B: MacMap, v: string, allocs: map<string, MacText>, n: string, t: MacText)
    requires WellFormed(B) && NewAreAllocated(A, B, v, allocs) && t.Written? && n !in allocs
    ensures NewAreAllocated(A, CreateOrUpdate(B, t.mac, v, n), v, allocs[n := t])
  {
    var C := CreateOrUpdate(B, t.mac, v, n);
    forall m, e | In(C, m, e) && e.inst == v ensures In(A, m, e) || AllocatedAt(allocs[n := t], e.key, m) {
      CreateOrUpdateIn(B, t.mac, v, n, m, e);
    }
  }

  lemma OthersSameStep(A: MacMap, B: MacMap, v: string, m: Mac, n: string)
    requires OthersSame(A, B, v)
    ensures OthersSame(A, CreateOrUpdate(B, m, v, n), v)
  {
    PutEntries(B, m, Upsert(Entries(B, m), v, n));
    OthersOfUpsert(Entries(B, m), v, n);
    assert Others(Entries(A, m), v) == Others(Entries(B, m), v);
  }

  lemma FirstKeptStep(A: MacMap, B: MacMap, v: string, m: Mac, n: string)
    requires FirstKept(A, B, v)
    ensures FirstKept(A, CreateOrUpdate(B, m, v, n), v)
  {
    PutEntries(B, m, Upsert(Entries(B, m), v, n));
    FirstOfUpsert(Entries(B, m), v, n);
  }

  lemma GrownStep(A: MacMap, B: MacMap, v: string, allocs: map<string, MacText>, n: string, t: MacText)
    requires Grown(A, B, v, allocs) && t.Written? && n !in allocs
    ensures Grown(A, CreateOrUpdate(B, t.mac, v, n), v, allocs[n := t])
    ensures In(CreateOrUpdate(B, t.mac, v, n), t.mac, Entry(v, n, None))
  {
    CreateOrUpdateOk(B, t.mac, v, n);
    OthersSameStep(A, B, v, t.mac, n);
    NewAreAllocatedStep(A, B, v, allocs, n, t);
    FirstKeptStep(A, B, v, t.mac, n);
    PutEntries(B, t.mac, Upsert(Entries(B, t.mac), v, n));
    UntouchedStep(A, B, CreateOrUpdate(B, t.mac, v, n), allocs, n, t);
    CreateOrUpdateIn(B, t.mac, v, n, t.mac, Entry(v, n, None));
  }

  lemma GrownNote(A: MacMap, B: MacMap, v: string, allocs: map<string, MacText>, n: string, t: MacText)
    requires Grown(A, B, v, allocs) && n !in allocs
    ensures Grown(A, B, v, allocs[n := t])
  {
    UntouchedStep(A, B, B, allocs, n, t);
  }

  /** A sequence naming every key exactly once: one possible iteration order of a Go map. */
  ghost predicate Enumerates(order: seq<string>, keys: set<string>) {
    (forall n :: n in order <==> n in keys) && Distinct(order)
  }

  function Pick(allocs: map<string, MacText>, order: seq<string>): seq<MacText>
    requires forall n :: n in order ==> n in allocs
  {
    if order == [] then [] else [allocs[order[0]]] + Pick(allocs, order[1..])
  }

  function Tally(texts: seq<MacText>, m: Mac): nat {
    if texts == [] then 0 else (if texts[0].Written? && texts[0].mac == m then 1 else 0) + Tally(texts[1..], m)
  }

  /** Taking out one entry of v at an address leaves the others in order and one entry of v fewer, if there is one. */
  lemma RemoveOneExact(es: seq<Entry>, v: string)
    ensures Others(RemoveList(es, v), v) == Others(es, v)
    ensures |Only(RemoveList(es, v), v)| == if |Only(es, v)| == 0 then 0 else |Only(es, v)| - 1
  {
    OnlyIff(es, v);
    if FirstOf(es, v) < |es| {
      OthersOfReplaced(es, FirstOf(es, v), es[FirstOf(es, v)], v);
    }
  }

  /** Reverting takes away, at each address, as many of v's entries as it is named; the rest stays. */
  lemma {:induction false} RevertAllExact(M: MacMap, v: string, texts: seq<MacText>, m: Mac)
    ensures var r := Entries(RevertAll(M, v, texts), m);
            && Others(r, v) == Others(Entries(M, m), v)
            && |Only(r, v)| == (if |Only(Entries(M, m), v)| <= Tally(texts, m) then 0
                                else |Only(Entries(M, m), v)| - Tally(texts, m))
            && (Tally(texts, m) == 0 ==> r == Entries(M, m))
  {
    if texts != [] {
      RevertAllExact(RemoveInstance(M, texts[0], v), v, texts[1..], m);
      if texts[0].Written? {
        PutEntries(M, texts[0].mac, RemoveList(Entries(M, texts[0].mac), v));
        RemoveOneExact(Entries(M, texts[0].mac), v);
      }
    }
  }

  ghost function NamesAt(allocs: map<string, MacText>, order: seq<string>, m: Mac): set<string> {
    set n | n in order && AllocatedAt(allocs, n, m)
  }

  lemma NamesAtCons(allocs: map<string, MacText>, n: string, rest: seq<string>, m: Mac)
    requires n !in rest
    ensures |NamesAt(allocs, [n] + rest, m)| == |NamesAt(allocs, rest, m)|
            + (if AllocatedAt(allocs, n, m) then 1 else 0)
  {
    var T := NamesAt(allocs, rest, m);
    if AllocatedAt(allocs, n, m) {
      assert NamesAt(allocs, [n] + rest, m) == T + {n};
    } else {
      assert NamesAt(allocs, [n] + rest, m) == T;
    }
  }

  lemma {:induction false} TallyOfNames(allocs: map<string, MacText>, order: seq<string>, m: Mac)
    requires (forall n :: n in order ==> n in allocs) && Distinct(order)
    ensures |NamesAt(allocs, order, m)| == Tally(Pick(allocs, order), m)
  {
    if order != [] {
      TallyOfNames(allocs, order[1..], m);
      assert order == [order[0]] + order[1..];
      assert order[0] !in order[1..];
      NamesAtCons(allocs, order[0], order[1..], m);
    } else {
      assert NamesAt(allocs, order, m) == {};
    }
  }

  lemma {:induction false} OnlyKeysDistinct(es: seq<Entry>, v: string)
    requires ListOk(es)
    ensures |set e | e in Only(es, v) :: e.key| == |Only(es, v)|
  {
    var K := set e | e in Only(es, v) :: e.key;
    if es == [] {
      assert K == {};
    } else {
      TailOk(es);
      OnlyKeysDistinct(es[1..], v);
      OnlyIff(es[1..], v);
      var K1 := set e | e in Only(es[1..], v) :: e.key;
      if es[0].inst == v {
        assert forall e :: e in Only(es, v) <==> e == es[0] || e in Only(es[1..], v);
        assert K == {es[0].key} + K1;
        assert es[0].key !in K1;
      } else {
        assert K == K1;
      }
    }
  }

  /** When v held nothing at the allocated addresses, all its entries there are reverted. */
  lemma RevertClears(A: MacMap, B: MacMap, v: string, allocs: map<string, MacText>, order: seq<string>, m: Mac)
    requires Grown(A, B, v, allocs) && Enumerates(order, allocs.Keys) && !Holds(A, m, v)
    ensures |Only(Entries(B, m), v)| <= Tally(Pick(allocs, order), m)
  {
    var es := Entries(B, m);
    OnlyIff(es, v);
    OnlyIff(Entries(A, m), v);
    OnlyKeysDistinct(es, v);
    TallyOfNames(allocs, order, m);
    var K := set e | e in Only(es, v) :: e.key;
    var N := NamesAt(allocs, order, m);
    forall k | k in K ensures k in N {
      var e :| e in Only(es, v) && e.key == k;
      assert In(B, m, e);
      assert !In(A, m, e);
    }
    CardOfSubset(K, N);
  }

  lemma {:induction false} CardOfSubset<T>(A: set<T>, B: set<T>)
    requires A <= B
    ensures |A| <= |B|
    ensures A != B ==> |A| < |B|
  {
    if A != {} {
      var x :| x in A;
      CardOfSubset(A - {x}, B - {x});
    }
  }

  /** A failed run is undone exactly, list order included and in any revert order, precisely when
      the instance held none of the allocated addresses before. */
  lemma RevertRestoresIff(A: MacMap, B: MacMap, v: string, allocs: map<string, MacText>, order: seq<string>)
    requires WellFormed(A) && Grown(A, B, v, allocs) && Enumerates(order, allocs.Keys)
    ensures RevertAll(B, v, Pick(allocs, order)) == A
            <==> forall n :: n in allocs && allocs[n].Written? ==> !Holds(A, allocs[n].mac, v)
  {
    var texts := Pick(allocs, order);
    var R := RevertAll(B, v, texts);
    if forall n :: n in allocs && allocs[n].Written? ==> !Holds(A, allocs[n].mac, v) {
      RevertAllOk(B, v, texts);
      forall m ensures Entries(R, m) == Entries(A, m) {
        RevertAllExact(B, v, texts, m);
        if Holds(A, m, v) {
          assert forall n :: n in allocs ==> !AllocatedAt(allocs, n, m);
          TallyOfNames(allocs, order, m);
          assert NamesAt(allocs, order, m) == {};
        } else {
          RevertClears(A, B, v, allocs, order, m);
          OnlyIff(Entries(A, m), v);
          OthersWhenNone(Entries(R, m), v);
          OthersWhenNone(Entries(A, m), v);
        }
      }
      SameEntries(R, A);
    } else {
      var n :| n in allocs && allocs[n].Written? && Holds(A, allocs[n].mac, v);
      var m := allocs[n].mac;
      RevertDropsFirst(B, v, texts, m, n, allocs, order);
      var fa := Entries(A, m)[FirstOf(Entries(A, m), v)];
      assert fa in Entries(A, m);
      assert Entries(R, m) != Entries(A, m);
    }
  }

  /** The first entry v had at an allocated address does not survive the revert. */
  lemma RevertDropsFirst(B: MacMap, v: string, texts: seq<MacText>, m: Mac, n: string,
                         allocs: map<string, MacText>, order: seq<string>)
    requires WellFormed(B) && Enumerates(order, allocs.Keys) && texts == Pick(allocs, order)
    requires AllocatedAt(allocs, n, m) && Holds(B, m, v)
    ensures forall e :: e in Entries(RevertAll(B, v, texts), m) && e.inst == v
                        ==> e.key != Entries(B, m)[FirstOf(Entries(B, m), v)].key
  {
    TallyOfNames(allocs, order, m);
    var N := NamesAt(allocs, order, m);
    assert n in N;
    assert |N| > 0;
    RevertDropsFirstSeq(B, v, texts, m, Entries(B, m)[FirstOf(Entries(B, m), v)].key);
  }

  ghost predicate KeyGone(M: MacMap, m: Mac, v: string, key: string) {
    forall e :: e in Entries(M, m) && e.inst == v ==> e.key != key
  }

  lemma {:induction false} KeyStaysGone(M: MacMap, v: string, texts: seq<MacText>, m: Mac, key: string)
    requires KeyGone(M, m, v, key)
    ensures KeyGone(RevertAll(M, v, texts), m, v, key)
  {
    if texts != [] {
      var M1 := RemoveInstance(M, texts[0], v);
      if texts[0].Written? {
        PutEntries(M, texts[0].mac, RemoveList(Entries(M, texts[0].mac), v));
      }
      KeyStaysGone(M1, v, texts[1..], m, key);
    }
  }

  /** Taking out an instance's first entry leaves no other with the same interface. */
  lemma FirstKeyRemoved(M: MacMap, m: Mac, v: string)
    requires WellFormed(M) && Holds(M, m, v)
    ensures var es := Entries(M, m);
            forall e :: e in RemoveList(es, v) && e.inst == v ==> e.key != es[FirstOf(es, v)].key
  {
    var es := Entries(M, m);
    var k := FirstOf(es, v);
    var r := RemoveList(es, v);
    forall j | 0 <= j < |r| && r[j].inst == v ensures r[j].key != es[k].key {
      assert r[j] == es[if j < k then j else j + 1];
    }
  }

  lemma {:induction false} RevertDropsFirstSeq(M: MacMap, v: string, texts: seq<MacText>, m: Mac, key: string)
    requires WellFormed(M) && Tally(texts, m) > 0 && Holds(M, m, v)
    requires Entries(M, m)[FirstOf(Entries(M, m), v)].key == key
    ensures KeyGone(RevertAll(M, v, texts), m, v, key)
  {
    var M1 := RemoveInstance(M, texts[0], v);
    RemoveInstanceOk(M, texts[0], v);
    if texts[0].Written? {
      PutEntries(M, texts[0].mac, RemoveList(Entries(M, texts[0].mac), v));
    }
    if texts[0].Written? && texts[0].mac == m {
      FirstKeyRemoved(M, m, v);
      assert KeyGone(M1, m, v, key);
      KeyStaysGone(M1, v, texts[1..], m, key);
    } else {
      RevertDropsFirstSeq(M1, v, texts[1..], m, key);
    }
  }

  // ---- runs that may record a name at several addresses ---------------------------------------

  ghost predicate AllKnownAt(A: MacMap, v: string, P: set<(string, Mac)>, m: Mac) {
    forall p :: p in P && p.1 == m ==> In(A, m, Entry(v, p.0, None))
  }

  /** B is A after recording, for v, exactly the pairs P. */
  ghost predicate Recordings(A: MacMap, B: MacMap, v: string, P: set<(string, Mac)>) {
    && WellFormed(B)
    && OthersSame(A, B, v)
    && FirstKept(A, B, v)
    && (forall m, e :: In(B, m, e) && e.inst == v ==> In(A, m, e) || (e.key, m) in P)
    && (forall p :: p in P ==> In(B, p.1, Entry(v, p.0, None)))
    && (forall m :: AllKnownAt(A, v, P, m) ==> Entries(B, m) == Entries(A, m))
  }

  lemma RecordingsStart(A: MacMap, v: string)
    requires WellFormed(A)
    ensures Recordings(A, A, v, {})
  {
  }

  lemma RecordAgain(M: MacMap, m: Mac, v: string, n: string)
    requires WellFormed(M) && In(M, m, Entry(v, n, None))
    ensures Entries(CreateOrUpdate(M, m, v, n), m) == Entries(M, m)
  {
    var es := M[m];
    var k := PairAt(es, v, n);
    var j :| 0 <= j < |es| && es[j] == Entry(v, n, None);
    assert k == j;
    assert es[k := Entry(v, n, None)] == es;
  }

  lemma KnownStep(A: MacMap, B: MacMap, v: string, P: set<(string, Mac)>, m: Mac, n: string, x: Mac)
    requires Recordings(A, B, v, P) && WellFormed(A) && AllKnownAt(A, v, P + {(n, m)}, x)
    ensures Entries(CreateOrUpdate(B, m, v, n), x) == Entries(A, x)
  {
    assert forall p :: p in P ==> p in P + {(n, m)};
    assert AllKnownAt(A, v, P, x);
    assert (n, m) in P + {(n, m)};
    PutEntries(B, m, Upsert(Entries(B, m), v, n));
    if x == m {
      assert In(A, m, Entry(v, n, None)) && In(B, m, Entry(v, n, None));
      RecordAgain(B, m, v, n);
    }
  }

  lemma RecordingsStep(A: MacMap, B: MacMap, v: string, P: set<(string, Mac)>, m: Mac, n: string)
    requires WellFormed(A) && Recordings(A, B, v, P)
    ensures Recordings(A, CreateOrUpdate(B, m, v, n), v, P + {(n, m)})
  {
    var C := CreateOrUpdate(B, m, v, n);
    CreateOrUpdateOk(B, m, v, n);
    OthersSameStep(A, B, v, m, n);
    FirstKeptStep(A, B, v, m, n);
    forall x, e | In(C, x, e) && e.inst == v ensures In(A, x, e) || (e.key, x) in P + {(n, m)} {
      CreateOrUpdateIn(B, m, v, n, x, e);
    }
    forall p | p in P + {(n, m)} ensures In(C, p.1, Entry(v, p.0, None)) {
      CreateOrUpdateIn(B, m, v, n, p.1, Entry(v, p.0, None));
    }
    forall x | AllKnownAt(A, v, P + {(n, m)}, x) ensures Entries(C, x) == Entries(A, x) {
      KnownStep(A, B, v, P, m, n, x);
    }
  }

  /** The allocations are, for each recorded name, one of its pairs. */
  ghost predicate Chosen(P: set<(string, Mac)>, allocs: map<string, MacText>) {
    forall n :: n in allocs ==> allocs[n].Written? && (n, allocs[n].mac) in P
  }

  /** What a revert of the allocations asks for at one pair: an allocated pair stands where v held
      nothing, any other was there before. */
  ghost predicate PairReverts(A: MacMap, v: string, allocs: map<string, MacText>, p: (string, Mac)) {
    if AllocatedAt(allocs, p.0, p.1) then !Holds(A, p.1, v) else In(A, p.1, Entry(v, p.0, None))
  }

  ghost function KeysAt(B: MacMap, v: string, m: Mac): set<string> {
    set e | e in Only(Entries(B, m), v) :: e.key
  }

  lemma KeysAtIff(B: MacMap, v: string, m: Mac, n: string)
    ensures n in KeysAt(B, v, m) <==> exists e :: In(B, m, e) && e.inst == v && e.key == n
  {
    OnlyIff(Entries(B, m), v);
    if n in KeysAt(B, v, m) {
      var e :| e in Only(Entries(B, m), v) && e.key == n;
      assert In(B, m, e);
    }
    if e :| In(B, m, e) && e.inst == v && e.key == n {
      assert e in Only(Entries(B, m), v);
    }
  }

  /** Reverting leaves v's part at m empty exactly when every pair there is counted. */
  lemma RevertCounts(B: MacMap, v: string, allocs: map<string, MacText>, order: seq<string>, m: Mac)
    requires WellFormed(B) && Enumerates(order, allocs.Keys)
    ensures Only(Entries(RevertAll(B, v, Pick(allocs, order)), m), v) == []
            <==> |KeysAt(B, v, m)| <= |NamesAt(allocs, order, m)|
  {
    RevertAllExact(B, v, Pick(allocs, order), m);
    TallyOfNames(allocs, order, m);
    assert ListOk(Entries(B, m));
    OnlyKeysDistinct(Entries(B, m), v);
  }

  lemma RevertedAt(A: MacMap, B: MacMap, v: string, P: set<(string, Mac)>, allocs: map<string, MacText>,
                   order: seq<string>, m: Mac)
    requires WellFormed(A) && Recordings(A, B, v, P) && Enumerates(order, allocs.Keys) && Chosen(P, allocs)
    requires forall p :: p in P && p.1 == m ==> PairReverts(A, v, allocs, p)
    ensures Entries(RevertAll(B, v, Pick(allocs, order)), m) == Entries(A, m)
  {
    var R := RevertAll(B, v, Pick(allocs, order));
    RevertAllExact(B, v, Pick(allocs, order), m);
    TallyOfNames(allocs, order, m);
    if NamesAt(allocs, order, m) == {} {
      forall p | p in P && p.1 == m ensures In(A, m, Entry(v, p.0, None)) {
        assert p.0 !in NamesAt(allocs, order, m);
      }
      assert AllKnownAt(A, v, P, m);
    } else {
      var n :| n in NamesAt(allocs, order, m);
      assert (n, m) in P && PairReverts(A, v, allocs, (n, m));
      ClearedAt(A, B, v, P, allocs, order, m);
      RevertCounts(B, v, allocs, order, m);
      OnlyIff(Entries(A, m), v);
      OnlyIff(Entries(R, m), v);
      OthersWhenNone(Entries(R, m), v);
      OthersWhenNone(Entries(A, m), v);
      assert Others(Entries(A, m), v) == Others(Entries(B, m), v);
    }
  }

  lemma ClearedAt(A: MacMap, B: MacMap, v: string, P: set<(string, Mac)>, allocs: map<string, MacText>,
                  order: seq<string>, m: Mac)
    requires WellFormed(A) && Recordings(A, B, v, P) && Enumerates(order, allocs.Keys) && !Holds(A, m, v)
    requires forall p :: p in P && p.1 == m ==> PairReverts(A, v, allocs, p)
    ensures |KeysAt(B, v, m)| <= |NamesAt(allocs, order, m)|
  {
    OnlyIff(Entries(A, m), v);
    forall n | n in KeysAt(B, v, m) ensures n in NamesAt(allocs, order, m) {
      KeysAtIff(B, v, m, n);
      var e :| In(B, m, e) && e.inst == v && e.key == n;
      assert !In(A, m, e);
      assert !In(A, m, Entry(v, n, None));
      assert (n, m) in P && PairReverts(A, v, allocs, (n, m));
    }
    CardOfSubset(KeysAt(B, v, m), NamesAt(allocs, order, m));
  }

  lemma NotRevertedAt(A: MacMap, B: MacMap, v: string, P: set<(string, Mac)>, allocs: map<string, MacText>,
                      order: seq<string>, p: (string, Mac))
    requires WellFormed(A) && Recordings(A, B, v, P) && Enumerates(order, allocs.Keys) && Chosen(P, allocs)
    requires p in P && !PairReverts(A, v, allocs, p)
    ensures Entries(RevertAll(B, v, Pick(allocs, order)), p.1) != Entries(A, p.1)
  {
    var n, m := p.0, p.1;
    var R := RevertAll(B, v, Pick(allocs, order));
    RevertAllExact(B, v, Pick(allocs, order), m);
    TallyOfNames(allocs, order, m);
    if Holds(A, m, v) && NamesAt(allocs, order, m) != {} {
      var x :| x in NamesAt(allocs, order, m);
      RevertDropsFirst(B, v, Pick(allocs, order), m, x, allocs, order);
      var first := Entries(A, m)[FirstOf(Entries(A, m), v)];
      assert first in Entries(A, m) && first !in Entries(R, m);
    } else if Holds(A, m, v) {
      assert Entries(R, m) == Entries(B, m);
      assert n !in NamesAt(allocs, order, m);
      assert Entry(v, n, None) in Entries(B, m) && Entry(v, n, None) !in Entries(A, m);
    } else {
      LeftOver(A, B, v, P, allocs, order, p);
      RevertCounts(B, v, allocs, order, m);
      OnlyIff(Entries(A, m), v);
      OnlyIff(Entries(R, m), v);
    }
  }

  lemma LeftOver(A: MacMap, B: MacMap, v: string, P: set<(string, Mac)>, allocs: map<string, MacText>,
                 order: seq<string>, p: (string, Mac))
    requires WellFormed(A) && Recordings(A, B, v, P) && Enumerates(order, allocs.Keys) && Chosen(P, allocs)
    requires p in P && !AllocatedAt(allocs, p.0, p.1)
    ensures |NamesAt(allocs, order, p.1)| < |KeysAt(B, v, p.1)|
  {
    var N, K := NamesAt(allocs, order, p.1), KeysAt(B, v, p.1);
    forall n | n in N || n == p.0 ensures n in K {
      KeysAtIff(B, v, p.1, n);
      assert (n, p.1) in P && In(B, p.1, Entry(v, n, None));
    }
    assert p.0 !in N;
    CardOfSubset(N, K);
  }

  /** A run that recorded the pairs P, of which newAllocations kept one per name, is undone exactly,
      list order included and in any revert order, if and only if every kept pair stands at an
      address where v held nothing, and every forgotten pair was recorded before. */
  lemma RecordingsRevertedIff(A: MacMap, B: MacMap, v: string, P: set<(string, Mac)>, allocs: map<string, MacText>,
                              order: seq<string>)
    requires WellFormed(A) && Recordings(A, B, v, P) && Enumerates(order, allocs.Keys) && Chosen(P, allocs)
    ensures RevertAll(B, v, Pick(allocs, order)) == A <==> forall p :: p in P ==> PairReverts(A, v, allocs, p)
  {
    var R := RevertAll(B, v, Pick(allocs, order));
    if forall p :: p in P ==> PairReverts(A, v, allocs, p) {
      RevertAllOk(B, v, Pick(allocs, order));
      forall m ensures Entries(R, m) == Entries(A, m) {
        RevertedAt(A, B, v, P, allocs, order, m);
      }
      SameEntries(R, A);
    } else {
      var p :| p in P && !PairReverts(A, v, allocs, p);
      NotRevertedAt(A, B, v, P, allocs, order, p);
    }
  }

  lemma {:induction false} OthersMembers(es: seq<Entry>, v: string)
    ensures forall e :: e in Others(es, v) <==> e in es && e.inst != v
  {
    if es != [] {
      OthersMembers(es[1..], v);
    }
  }

  lemma HoldsElsewhere(A: MacMap, B: MacMap, v: string, w: string, m: Mac)
    requires OthersSame(A, B, v) && v != w
    ensures Holds(A, m, w) <==> Holds(B, m, w)
  {
    OthersMembers(Entries(A, m), v);
    OthersMembers(Entries(B, m), v);
    OnlyIff(Entries(A, m), w);
    OnlyIff(Entries(B, m), w);
    assert Others(Entries(A, m), v) == Others(Entries(B, m), v);
  }

  /** What a revert under another name w asks for at one pair: it was recorded before, and w has
      nothing at an allocated address. */
  ghost predicate PairRevertsElsewhere(A: MacMap, v: string, w: string, allocs: map<string, MacText>,
                                       p: (string, Mac)) {
    In(A, p.1, Entry(v, p.0, None)) && (AllocatedAt(allocs, p.0, p.1) ==> !Holds(A, p.1, w))
  }

  /** A revert under another name w undoes a run for v exactly when there was nothing new to record
      and w holds none of the allocations. */
  lemma RevertedElsewhereIff(A: MacMap, B: MacMap, v: string, w: string, P: set<(string, Mac)>,
                             allocs: map<string, MacText>, order: seq<string>)
    requires WellFormed(A) && Recordings(A, B, v, P) && Enumerates(order, allocs.Keys) && Chosen(P, allocs) && v != w
    ensures RevertAll(B, w, Pick(allocs, order)) == A <==>
            forall p :: p in P ==> PairRevertsElsewhere(A, v, w, allocs, p)
  {
    var R := RevertAll(B, w, Pick(allocs, order));
    if forall p :: p in P ==> PairRevertsElsewhere(A, v, w, allocs, p) {
      RevertAllOk(B, w, Pick(allocs, order));
      forall m ensures Entries(R, m) == Entries(A, m) {
        assert AllKnownAt(A, v, P, m);
        NothingToRevert(B, w, P, allocs, order, m);
      }
      SameEntries(R, A);
    } else {
      var p :| p in P && !PairRevertsElsewhere(A, v, w, allocs, p);
      if In(A, p.1, Entry(v, p.0, None)) {
        HoldsElsewhere(A, B, v, w, p.1);
        RevertDropsOne(A, B, v, w, allocs, order, p);
      } else {
        OthersStay(B, v, w, p, Pick(allocs, order));
      }
    }
  }

  lemma OthersStay(B: MacMap, v: string, w: string, p: (string, Mac), texts: seq<MacText>)
    requires v != w && In(B, p.1, Entry(v, p.0, None))
    ensures Entry(v, p.0, None) in Entries(RevertAll(B, w, texts), p.1)
  {
    RevertAllExact(B, w, texts, p.1);
    OthersMembers(Entries(B, p.1), w);
    OthersMembers(Entries(RevertAll(B, w, texts), p.1), w);
    assert Entry(v, p.0, None) in Others(Entries(B, p.1), w);
  }

  lemma NothingToRevert(B: MacMap, w: string, P: set<(string, Mac)>, allocs: map<string, MacText>, order: seq<string>,
                        m: Mac)
    requires Enumerates(order, allocs.Keys) && Chosen(P, allocs)
    requires forall p :: p in P && AllocatedAt(allocs, p.0, p.1) ==> !Holds(B, p.1, w)
    ensures Entries(RevertAll(B, w, Pick(allocs, order)), m) == Entries(B, m)
  {
    var R := RevertAll(B, w, Pick(allocs, order));
    RevertAllExact(B, w, Pick(allocs, order), m);
    TallyOfNames(allocs, order, m);
    if NamesAt(allocs, order, m) != {} {
      var n :| n in NamesAt(allocs, order, m);
      assert (n, m) in P && !Holds(B, m, w);
      OnlyIff(Entries(B, m), w);
      OnlyIff(Entries(R, m), w);
      OthersWhenNone(Entries(B, m), w);
      OthersWhenNone(Entries(R, m), w);
    }
  }

  /** An allocated address at which w has entries loses one of them. */
  lemma RevertDropsOne(A: MacMap, B: MacMap, v: string, w: string, allocs: map<string, MacText>, order: seq<string>,
                       p: (string, Mac))
    requires WellFormed(B) && OthersSame(A, B, v) && v != w && Enumerates(order, allocs.Keys)
    requires AllocatedAt(allocs, p.0, p.1) && Holds(A, p.1, w) && Holds(B, p.1, w)
    ensures Entries(RevertAll(B, w, Pick(allocs, order)), p.1) != Entries(A, p.1)
  {
    var m := p.1;
    RevertDropsFirst(B, w, Pick(allocs, order), m, p.0, allocs, order);
    var first := Entries(B, m)[FirstOf(Entries(B, m), w)];
    OthersMembers(Entries(A, m), v);
    OthersMembers(Entries(B, m), v);
    assert Others(Entries(A, m), v) == Others(Entries(B, m), v);
    assert first in Others(Entries(B, m), v);
  }
}
