/** The MAC map: who holds which address, and which entries still wait for the API server
    (pkg/pool-manager/macentry.go, macpoolmap.go, mackey.go). */
module MacMaps {
  import opened Addresses

  /** The text of an address as it stands in an object: empty, a spelling of an address (form 0 is
      the canonical one), or something that does not parse. */
  datatype MacText = Blank | Written(mac: Mac, form: nat) | Garbled

  datatype Interface = Interface(name: string, mac: MacText, masquerade: bool)

  datatype Entry = Entry(inst: string, key: string, stamp: Option<int>) {
    predicate Pending() {
      stamp.Some?
    }

    /** The persisted transaction time has reached this entry's stamp. */
    predicate Ready(persisted: int) {
      Pending() && stamp.value <= persisted
    }

    predicate Expired(now: int, wait: nat) {
      Pending() && now > stamp.value + wait
    }

    function Cleared(): Entry {
      Entry(inst, key, None)
    }

    function Stamped(t: int): Entry {
      Entry(inst, key, Some(t))
    }
  }

  type MacMap = map<Mac, seq<Entry>>

  // ---- instance names -------------------------------------------------------------------------

  function VmNamespaced(ns: string, name: string): string {
    "vm/" + ns + "/" + name
  }

  function PodNamespaced(ns: string, name: string): string {
    "pod/" + ns + "/" + name
  }

  /** strings.Split(s, "/"). */
  function Split(s: string): (parts: seq<string>)
    ensures parts != []
  {
    if s == [] then [""]
    else
      var rest := Split(s[1..]);
      if s[0] == '/' then [""] + rest else [[s[0]] + rest[0]] + rest[1..]
  }

  function Join(parts: seq<string>): string
    requires parts != []
  {
    if |parts| == 1 then parts[0] else parts[0] + "/" + Join(parts[1..])
  }

  lemma {:induction false} JoinSplit(s: string)
    ensures Join(Split(s)) == s
  {
    if s != [] {
      JoinSplit(s[1..]);
      var rest := Split(s[1..]);
      if s[0] == '/' {
        assert ([""] + rest)[1..] == rest;
      } else {
        assert ([[s[0]] + rest[0]] + rest[1..])[1..] == rest[1..];
        assert s == [s[0]] + s[1..];
      }
    }
  }

  lemma {:induction false} SplitPart(a: string, rest: string)
    requires '/' !in a
    ensures Split(a) == [a]
    ensures Split(a + "/" + rest) == [a] + Split(rest)
  {
    if a == [] {
      assert a + "/" + rest == "/" + rest;
    } else {
      SplitPart(a[1..], rest);
      assert (a + "/" + rest)[1..] == a[1..] + "/" + rest;
      assert a == [a[0]] + a[1..];
    }
  }

  /** Splitting a VM instance name recovers namespace and name. */
  lemma SplitVmName(ns: string, name: string)
    requires '/' !in ns && '/' !in name
    ensures Split(VmNamespaced(ns, name)) == ["vm", ns, name]
  {
    SplitPart("vm", ns + "/" + name);
    assert VmNamespaced(ns, name) == "vm" + "/" + (ns + "/" + name);
    SplitPart(ns, name);
    SplitPart(name, "");
  }

  /** A name getvmInstance can take apart: indexes 1 and 2 of the split exist. */
  predicate IsVmName(s: string) {
    var parts := Split(s);
    |parts| == 3 && parts[0] == "vm"
  }

  lemma VmNameRebuilt(s: string)
    requires IsVmName(s)
    ensures s == VmNamespaced(Split(s)[1], Split(s)[2])
  {
    var p := Split(s);
    JoinSplit(s);
    assert p[1..][1..] == [p[2]];
    assert Join(p[1..]) == p[1] + "/" + p[2];
    assert s == p[0] + "/" + (p[1] + "/" + p[2]);
    assert p[0] + "/" == "vm/";
  }

  // ---- lists of entries -----------------------------------------------------------------------

  /** Index of the first entry of an instance, or the length when there is none. */
  function FirstOf(es: seq<Entry>, v: string): (k: nat)
    ensures k <= |es|
    ensures forall j :: 0 <= j < k ==> es[j].inst != v
    ensures k < |es| ==> es[k].inst == v
  {
    if es == [] || es[0].inst == v then 0 else 1 + FirstOf(es[1..], v)
  }

  function PairAt(es: seq<Entry>, v: string, i: string): (k: nat)
    ensures k <= |es|
    ensures forall j :: 0 <= j < k ==> !(es[j].inst == v && es[j].key == i)
    ensures k < |es| ==> es[k].inst == v && es[k].key == i
  {
    if es == [] || (es[0].inst == v && es[0].key == i) then 0 else 1 + PairAt(es[1..], v, i)
  }

  function Upsert(es: seq<Entry>, v: string, i: string): seq<Entry> {
    var k := PairAt(es, v, i);
    if k < |es| then es[k := Entry(v, i, None)] else es + [Entry(v, i, None)]
  }

  function StampList(es: seq<Entry>, v: string, t: int): seq<Entry> {
    var k := FirstOf(es, v);
    if k < |es| then es[k := es[k].Stamped(t)] else es
  }

  function ClearList(es: seq<Entry>, v: string): seq<Entry> {
    var k := FirstOf(es, v);
    if k < |es| then es[k := es[k].Cleared()] else es
  }

  function RemoveList(es: seq<Entry>, v: string): seq<Entry> {
    var k := FirstOf(es, v);
    if k < |es| then es[..k] + es[k + 1..] else es
  }

  /** Address m stands on the interface named key. */
  predicate OnVm(ifs: seq<Interface>, m: Mac, key: string) {
    exists j :: 0 <= j < |ifs| && ifs[j].mac.Written? && ifs[j].mac.mac == m && ifs[j].name == key
  }

  /** Compares the first entry of the instance with the VM: confirmed when it is on it, else dropped. */
  function AlignList(es: seq<Entry>, m: Mac, v: string, ifs: seq<Interface>): seq<Entry> {
    var k := FirstOf(es, v);
    if k == |es| then es
    else if OnVm(ifs, m, es[k].key) then ClearList(es, v)
    else RemoveList(es, v)
  }

  /** Entries of one instance, in order. */
  function Only(es: seq<Entry>, v: string): seq<Entry> {
    if es == [] then [] else (if es[0].inst == v then [es[0]] else []) + Only(es[1..], v)
  }

  /** Entries of the other instances, in order. */
  function Others(es: seq<Entry>, v: string): seq<Entry> {
    if es == [] then [] else (if es[0].inst != v then [es[0]] else []) + Others(es[1..], v)
  }

  // ---- the hidden invariant -------------------------------------------------------------------

  ghost predicate PairsDistinct(es: seq<Entry>) {
    forall a, b :: 0 <= a < b < |es| ==> es[a].inst != es[b].inst || es[a].key != es[b].key
  }

  /** Among one instance's entries only the earliest can be pending. */
  ghost predicate OnlyFirstPending(es: seq<Entry>) {
    forall a, b :: 0 <= a < b < |es| && es[a].inst == es[b].inst ==> !es[b].Pending()
  }

  ghost predicate PendingAreVms(es: seq<Entry>) {
    forall k :: 0 <= k < |es| && es[k].Pending() ==> IsVmName(es[k].inst)
  }

  ghost predicate ListOk(es: seq<Entry>) {
    PairsDistinct(es) && OnlyFirstPending(es) && PendingAreVms(es)
  }

  ghost predicate WellFormed(M: MacMap) {
    forall m :: m in M ==> M[m] != [] && ListOk(M[m])
  }

  /** The first-match lookup returns exactly the pending entry. */
  lemma FirstIsThePending(es: seq<Entry>, v: string, e: Entry)
    requires OnlyFirstPending(es) && e in es && e.inst == v && e.Pending()
    ensures FirstOf(es, v) < |es| && es[FirstOf(es, v)] == e
  {
    var k :| 0 <= k < |es| && es[k] == e;
    assert FirstOf(es, v) <= k;
  }

  lemma UpsertOk(es: seq<Entry>, v: string, i: string)
    requires ListOk(es)
    ensures ListOk(Upsert(es, v, i)) && Upsert(es, v, i) != []
  {
  }

  lemma StampOk(es: seq<Entry>, v: string, t: int)
    requires ListOk(es) && IsVmName(v)
    ensures ListOk(StampList(es, v, t)) && |StampList(es, v, t)| == |es|
  {
  }

  lemma RemoveOk(es: seq<Entry>, v: string)
    requires ListOk(es)
    ensures ListOk(RemoveList(es, v))
  {
    var k := FirstOf(es, v);
    if k < |es| {
      var r := RemoveList(es, v);
      assert forall j :: 0 <= j < |r| ==> r[j] == es[if j < k then j else j + 1];
    }
  }

  // ---- confirm-or-drop on a list --------------------------------------------------------------

  /** Entries picked by `sel` are cleared when `keep` holds of them and dropped otherwise; all other
      entries stay, in order. */
  function Rewrite(es: seq<Entry>, sel: Entry -> bool, keep: Entry -> bool): seq<Entry> {
    if es == [] then []
    else
      var rest := Rewrite(es[1..], sel, keep);
      if !sel(es[0]) then [es[0]] + rest
      else if keep(es[0]) then [es[0].Cleared()] + rest
      else rest
  }

  lemma {:induction false} RewriteKeeps(es: seq<Entry>, sel: Entry -> bool, keep: Entry -> bool, e: Entry)
    requires e in es
    ensures !sel(e) ==> e in Rewrite(es, sel, keep)
    ensures sel(e) && keep(e) ==> e.Cleared() in Rewrite(es, sel, keep)
  {
    if e != es[0] {
      RewriteKeeps(es[1..], sel, keep, e);
    }
  }

  lemma {:induction false} RewriteOrigin(es: seq<Entry>, sel: Entry -> bool, keep: Entry -> bool, x: Entry)
    requires x in Rewrite(es, sel, keep)
    ensures (x in es && !sel(x)) || (exists e :: e in es && sel(e) && keep(e) && x == e.Cleared())
  {
    var rest := Rewrite(es[1..], sel, keep);
    if !sel(es[0]) && x == es[0] {
    } else if sel(es[0]) && keep(es[0]) && x == es[0].Cleared() {
    } else {
      RewriteOrigin(es[1..], sel, keep, x);
    }
  }

  lemma {:induction false} RewriteNone(es: seq<Entry>, sel: Entry -> bool, keep: Entry -> bool)
    requires forall k :: 0 <= k < |es| ==> !sel(es[k])
    ensures Rewrite(es, sel, keep) == es
  {
    if es != [] {
      RewriteNone(es[1..], sel, keep);
      assert es == [es[0]] + es[1..];
    }
  }

  /** Only the values on the list's own entries matter. */
  lemma {:induction false} RewriteSame(es: seq<Entry>, sel: Entry -> bool, keep: Entry -> bool,
                                       sel': Entry -> bool, keep': Entry -> bool)
    requires forall k :: 0 <= k < |es| ==> sel(es[k]) == sel'(es[k])
    requires forall k :: 0 <= k < |es| && sel(es[k]) ==> keep(es[k]) == keep'(es[k])
    ensures Rewrite(es, sel, keep) == Rewrite(es, sel', keep')
  {
    if es != [] {
      RewriteSame(es[1..], sel, keep, sel', keep');
    }
  }

  /** Two rewrites in a row are one, when the first clears or drops nothing the second would pick
      and the second picks nothing the first did. */
  lemma {:induction false} RewriteTwice(es: seq<Entry>, s1: Entry -> bool, s2: Entry -> bool, keep: Entry -> bool)
    requires forall k :: 0 <= k < |es| ==> !(s1(es[k]) && s2(es[k]))
    requires forall e :: s2(e) ==> e.Pending()
    ensures Rewrite(Rewrite(es, s1, keep), s2, keep) == Rewrite(es, e => s1(e) || s2(e), keep)
  {
    if es != [] {
      RewriteTwice(es[1..], s1, s2, keep);
      var r1 := Rewrite(es[1..], s1, keep);
      assert ([es[0]] + r1)[1..] == r1;
      assert ([es[0].Cleared()] + r1)[1..] == r1;
    }
  }

  lemma {:induction false} RewriteOthers(es: seq<Entry>, sel: Entry -> bool, keep: Entry -> bool, v: string)
    requires forall k :: 0 <= k < |es| && sel(es[k]) ==> es[k].inst == v
    ensures Others(Rewrite(es, sel, keep), v) == Others(es, v)
  {
    if es != [] {
      RewriteOthers(es[1..], sel, keep, v);
      var r := Rewrite(es[1..], sel, keep);
      assert ([es[0]] + r)[1..] == r;
      assert ([es[0].Cleared()] + r)[1..] == r;
    }
  }

  lemma ConsOk(h: Entry, t: seq<Entry>)
    requires ListOk(t)
    requires forall k :: 0 <= k < |t| ==> t[k].inst != h.inst || (t[k].key != h.key && !t[k].Pending())
    requires h.Pending() ==> IsVmName(h.inst)
    ensures ListOk([h] + t)
  {
    var r := [h] + t;
    assert forall j :: 1 <= j < |r| ==> r[j] == t[j - 1];
  }

  lemma TailOk(es: seq<Entry>)
    requires ListOk(es) && es != []
    ensures ListOk(es[1..])
    ensures forall e :: e in es[1..] ==> e.inst != es[0].inst || (e.key != es[0].key && !e.Pending())
  {
    assert forall j :: 0 <= j < |es| - 1 ==> es[1..][j] == es[j + 1];
  }

  lemma {:induction false} RewriteOk(es: seq<Entry>, sel: Entry -> bool, keep: Entry -> bool)
    requires ListOk(es)
    ensures ListOk(Rewrite(es, sel, keep))
  {
    if es != [] {
      TailOk(es);
      RewriteOk(es[1..], sel, keep);
      var r := Rewrite(es[1..], sel, keep);
      forall k | 0 <= k < |r|
        ensures r[k].inst != es[0].inst || (r[k].key != es[0].key && !r[k].Pending())
      {
        RewriteOrigin(es[1..], sel, keep, r[k]);
      }
      assert es[0] in es;
      ConsOk(es[0], r);
      ConsOk(es[0].Cleared(), r);
    }
  }

  lemma ConsPut<T>(h: T, t: seq<T>, k: nat, x: T)
    requires k < |t|
    ensures [h] + t[k := x] == ([h] + t)[k + 1 := x]
  {
  }

  lemma ConsCut<T>(h: T, t: seq<T>, k: nat)
    requires k < |t|
    ensures [h] + (t[..k] + t[k + 1..]) == ([h] + t)[..k + 1] + ([h] + t)[k + 2..]
  {
  }

  lemma {:induction false} RewriteOne(es: seq<Entry>, k: nat, sel: Entry -> bool, keep: Entry -> bool)
    requires k < |es| && sel(es[k])
    requires forall j :: 0 <= j < |es| && j != k ==> !sel(es[j])
    ensures Rewrite(es, sel, keep) == if keep(es[k]) then es[k := es[k].Cleared()] else es[..k] + es[k + 1..]
  {
    var h, t := es[0], es[1..];
    assert es == [h] + t;
    if k == 0 {
      RewriteNone(t, sel, keep);
    } else {
      RewriteOne(t, k - 1, sel, keep);
      ConsPut(h, t, k - 1, es[k].Cleared());
      ConsCut(h, t, k - 1);
    }
  }

  lemma PendingIsUnique(es: seq<Entry>, v: string)
    requires ListOk(es) && FirstOf(es, v) < |es|
    ensures forall j :: 0 <= j < |es| && j != FirstOf(es, v) && es[j].inst == v ==> !es[j].Pending()
  {
  }

  /** Under the invariant, aligning the first entry of an instance that has a pending one rewrites
      exactly the pending entry. */
  lemma AlignIsRewrite(es: seq<Entry>, m: Mac, v: string, ifs: seq<Interface>)
    requires ListOk(es) && FirstOf(es, v) < |es| && es[FirstOf(es, v)].Pending()
    ensures AlignList(es, m, v, ifs) == Rewrite(es, (e: Entry) => e.inst == v && e.Pending(),
                                                (e: Entry) => OnVm(ifs, m, e.key))
  {
    PendingIsUnique(es, v);
    RewriteOne(es, FirstOf(es, v), (e: Entry) => e.inst == v && e.Pending(), (e: Entry) => OnVm(ifs, m, e.key));
  }

  lemma RemoveIsRewrite(es: seq<Entry>, v: string)
    requires ListOk(es) && FirstOf(es, v) < |es| && es[FirstOf(es, v)].Pending()
    ensures RemoveList(es, v) == Rewrite(es, (e: Entry) => e.inst == v && e.Pending(), (e: Entry) => false)
  {
    PendingIsUnique(es, v);
    RewriteOne(es, FirstOf(es, v), (e: Entry) => e.inst == v && e.Pending(), (e: Entry) => false);
  }

  // ---- operations on the map ------------------------------------------------------------------

  /** The list at an address; empty when the address is free. */
  function Entries(M: MacMap, m: Mac): seq<Entry> {
    if m in M then M[m] else []
  }

  /** Writes a list back; an empty list deletes the address. */
  function Put(M: MacMap, m: Mac, es: seq<Entry>): MacMap {
    if es == [] then M - {m} else M[m := es]
  }

  /** e is one of the entries at m. */
  predicate In(M: MacMap, m: Mac, e: Entry) {
    m in M && e in M[m]
  }

  ghost predicate Recorded(M: MacMap, m: Mac, v: string, i: string) {
    exists st :: In(M, m, Entry(v, i, st))
  }

  lemma PutEntries(M: MacMap, m: Mac, es: seq<Entry>)
    ensures Entries(Put(M, m, es), m) == es
    ensures forall x :: x != m ==> Entries(Put(M, m, es), x) == Entries(M, x)
  {
  }

  /** A map without empty lists is determined by its lists. */
  lemma SameEntries(A: MacMap, B: MacMap)
    requires forall m :: m in A ==> A[m] != []
    requires forall m :: m in B ==> B[m] != []
    requires forall m :: Entries(A, m) == Entries(B, m)
    ensures A == B
  {
    forall m | m in A ensures m in B && A[m] == B[m] {
      assert Entries(A, m) == Entries(B, m);
    }
    forall m | m in B ensures m in A {
      assert Entries(A, m) == Entries(B, m);
    }
    assert A.Keys == B.Keys;
  }

  function CreateOrUpdate(M: MacMap, m: Mac, v: string, i: string): MacMap {
    Put(M, m, Upsert(Entries(M, m), v, i))
  }

  function RemoveInstance(M: MacMap, t: MacText, v: string): MacMap {
    if t.Written? then Put(M, t.mac, RemoveList(Entries(M, t.mac), v)) else M
  }

  function Align(M: MacMap, m: Mac, v: string, ifs: seq<Interface>): MacMap {
    Put(M, m, AlignList(Entries(M, m), m, v, ifs))
  }

  /** The lookup by address text and instance succeeds. */
  predicate Known(M: MacMap, t: MacText, v: string) {
    t.Written? && FirstOf(Entries(M, t.mac), v) < |Entries(M, t.mac)|
  }

  /** Stamps address after address and stops at the first unknown one. */
  function StampAll(M: MacMap, v: string, t: int, texts: seq<MacText>): MacMap {
    if texts == [] || !Known(M, texts[0], v) then M
    else StampAll(Put(M, texts[0].mac, StampList(Entries(M, texts[0].mac), v, t)), v, t, texts[1..])
  }

  function RevertAll(M: MacMap, v: string, texts: seq<MacText>): MacMap {
    if texts == [] then M else RevertAll(RemoveInstance(M, texts[0], v), v, texts[1..])
  }

  /** Deletes every address at which the instance has an entry, with all its holders. */
  function ReleaseAll(M: MacMap, v: string): MacMap {
    map m | m in M && FirstOf(M[m], v) == |M[m]| :: M[m]
  }

  function RewriteMap(M: MacMap, sel: (Mac, Entry) -> bool, keep: (Mac, Entry) -> bool): (R: MacMap)
    ensures forall m :: Entries(R, m) == Rewrite(Entries(M, m), e => sel(m, e), e => keep(m, e))
    ensures forall m :: m in R ==> R[m] != []
  {
    map m | m in M && Rewrite(M[m], e => sel(m, e), e => keep(m, e)) != []
      :: Rewrite(M[m], e => sel(m, e), e => keep(m, e))
  }

  /** The result of MarkVMAsReady: exactly the VM's ready entries are confirmed or dropped. */
  function MarkReady(M: MacMap, v: string, persisted: int, ifs: seq<Interface>): MacMap {
    RewriteMap(M, (m: Mac, e: Entry) => e.inst == v && e.Ready(persisted), (m: Mac, e: Entry) => OnVm(ifs, m, e.key))
  }

  lemma CreateOrUpdateIn(M: MacMap, m: Mac, v: string, i: string, x: Mac, e: Entry)
    requires WellFormed(M)
    ensures In(CreateOrUpdate(M, m, v, i), x, e) <==>
            if x == m && e.inst == v && e.key == i then e.stamp.None? else In(M, x, e)
  {
    var es := Entries(M, m);
    var r := Upsert(es, v, i);
    PutEntries(M, m, r);
    var k := PairAt(es, v, i);
    if x == m {
      if k < |es| {
        assert r[k] == Entry(v, i, None);
        assert forall j :: 0 <= j < |es| && j != k ==> r[j] == es[j];
        if e in r {
          var j :| 0 <= j < |r| && r[j] == e;
        }
        if e in es {
          var j :| 0 <= j < |es| && es[j] == e;
        }
      } else {
        assert r[|es|] == Entry(v, i, None);
      }
    }
  }

  lemma CreateOrUpdateOk(M: MacMap, m: Mac, v: string, i: string)
    requires WellFormed(M)
    ensures WellFormed(CreateOrUpdate(M, m, v, i))
  {
    UpsertOk(Entries(M, m), v, i);
  }

  lemma RemoveInstanceOk(M: MacMap, t: MacText, v: string)
    requires WellFormed(M)
    ensures WellFormed(RemoveInstance(M, t, v))
  {
    if t.Written? {
      RemoveOk(Entries(M, t.mac), v);
    }
  }

  lemma {:induction false} RevertAllOk(M: MacMap, v: string, texts: seq<MacText>)
    requires WellFormed(M)
    ensures WellFormed(RevertAll(M, v, texts))
  {
    if texts != [] {
      RemoveInstanceOk(M, texts[0], v);
      RevertAllOk(RemoveInstance(M, texts[0], v), v, texts[1..]);
    }
  }

  lemma RewriteMapOk(M: MacMap, sel: (Mac, Entry) -> bool, keep: (Mac, Entry) -> bool)
    requires WellFormed(M)
    ensures WellFormed(RewriteMap(M, sel, keep))
  {
    var R := RewriteMap(M, sel, keep);
    forall m | m in R ensures R[m] != [] && ListOk(R[m]) {
      assert Entries(R, m) == Rewrite(Entries(M, m), e => sel(m, e), e => keep(m, e));
      assert m in M;
      RewriteOk(M[m], e => sel(m, e), e => keep(m, e));
    }
  }

  lemma RewriteMapKeeps(M: MacMap, sel: (Mac, Entry) -> bool, keep: (Mac, Entry) -> bool, m: Mac, e: Entry)
    requires In(M, m, e)
    ensures !sel(m, e) ==> In(RewriteMap(M, sel, keep), m, e)
    ensures sel(m, e) && keep(m, e) ==> In(RewriteMap(M, sel, keep), m, e.Cleared())
  {
    RewriteKeeps(M[m], x => sel(m, x), x => keep(m, x), e);
    assert Entries(RewriteMap(M, sel, keep), m) == Rewrite(Entries(M, m), x => sel(m, x), x => keep(m, x));
  }

  lemma RewriteMapOrigin(M: MacMap, sel: (Mac, Entry) -> bool, keep: (Mac, Entry) -> bool, m: Mac, x: Entry)
    requires In(RewriteMap(M, sel, keep), m, x)
    ensures (In(M, m, x) && !sel(m, x)) || (exists e :: In(M, m, e) && sel(m, e) && keep(m, e) && x == e.Cleared())
  {
    assert Entries(RewriteMap(M, sel, keep), m) == Rewrite(Entries(M, m), e => sel(m, e), e => keep(m, e));
    RewriteOrigin(Entries(M, m), e => sel(m, e), e => keep(m, e), x);
    if !(In(M, m, x) && !sel(m, x)) {
      var e :| e in Entries(M, m) && sel(m, e) && keep(m, e) && x == e.Cleared();
      assert In(M, m, e);
    }
  }
}
