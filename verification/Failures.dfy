/** Where the allocation loops of creates and updates stop, what they have noted by then, and when the
    revert of a failed admission leaves the map as it was: all told from the request, the map before
    the call and what the range could give (pkg/pool-manager/virtualmachine_pool.go). */
module Failures {
  import opened Addresses
  import opened MacMaps
  import opened Transactions
  import opened VmOperations

  // ---- rounds ---------------------------------------------------------------------------------

  /** The text an interface ends up with: its own, or the pool's answer when it is blank. */
  function TextOf(iface: Interface, answer: Option<Mac>): MacText {
    if iface.mac.Blank? && answer.Some? then Written(answer.value, 0) else iface.mac
  }

  /** The first index at which the loop stops, or the length. */
  function FirstStop(stops: seq<bool>): (k: nat)
    ensures k <= |stops| && (k < |stops| ==> stops[k])
    ensures forall j :: 0 <= j < k ==> !stops[j]
  {
    if stops == [] || stops[0] then 0 else 1 + FirstStop(stops[1..])
  }

  /** Round j noted a text, and no later round before k did so under the same name. */
  ghost predicate LastNote(ifs: seq<Interface>, notes: seq<Option<MacText>>, k: nat, j: nat)
    requires j < k <= |ifs| == |notes|
  {
    notes[j].Some? && forall i :: j < i < k && notes[i].Some? ==> ifs[i].name != ifs[j].name
  }

  /** After k rounds newAllocations holds, for every name noted, the text noted last. */
  ghost predicate Noted(ifs: seq<Interface>, notes: seq<Option<MacText>>, k: nat, allocs: map<string, MacText>)
    requires k <= |ifs| == |notes|
  {
    && (forall j :: 0 <= j < k && LastNote(ifs, notes, k, j) ==>
        ifs[j].name in allocs && allocs[ifs[j].name] == notes[j].value)
    && (forall n :: n in allocs ==> exists j :: 0 <= j < k && LastNote(ifs, notes, k, j) && ifs[j].name == n)
  }

  lemma NotedStep(ifs: seq<Interface>, notes: seq<Option<MacText>>, n: nat, allocs: map<string, MacText>)
    requires n < |ifs| == |notes| && Noted(ifs, notes, n, allocs)
    ensures Noted(ifs, notes, n + 1, if notes[n].Some? then allocs[ifs[n].name := notes[n].value] else allocs)
  {
    var all := if notes[n].Some? then allocs[ifs[n].name := notes[n].value] else allocs;
    forall j | 0 <= j < n + 1 && LastNote(ifs, notes, n + 1, j)
      ensures ifs[j].name in all && all[ifs[j].name] == notes[j].value {
      if j < n {
        assert LastNote(ifs, notes, n, j);
      }
    }
    forall x | x in all ensures exists j :: 0 <= j < n + 1 && LastNote(ifs, notes, n + 1, j) && ifs[j].name == x {
      if notes[n].Some? && x == ifs[n].name {
        assert LastNote(ifs, notes, n + 1, n);
      } else {
        var j :| 0 <= j < n && LastNote(ifs, notes, n, j) && ifs[j].name == x;
        assert LastNote(ifs, notes, n + 1, j);
      }
    }
  }

  /** A loop over n interfaces has failed exactly when it stopped before, and has noted what came before the stop. */
  ghost predicate LoopAt(ifs: seq<Interface>, notes: seq<Option<MacText>>, stops: seq<bool>, n: nat,
                         failed: bool, allocs: map<string, MacText>)
    requires n <= |ifs| == |notes| == |stops|
  {
    && (failed <==> FirstStop(stops) < n)
    && Noted(ifs, notes, if FirstStop(stops) < n then FirstStop(stops) else n, allocs)
  }

  lemma LoopAtStep(ifs: seq<Interface>, notes: seq<Option<MacText>>, stops: seq<bool>, n: nat,
                   failed: bool, allocs: map<string, MacText>)
    requires n < |ifs| == |notes| == |stops| && LoopAt(ifs, notes, stops, n, failed, allocs)
    ensures LoopAt(ifs, notes, stops, n + 1, failed || stops[n],
                   if !(failed || stops[n]) && notes[n].Some? then allocs[ifs[n].name := notes[n].value] else allocs)
  {
    if FirstStop(stops) >= n {
      NotedStep(ifs, notes, n, allocs);
    }
  }

  predicate NoteHeld(M: MacMap, v: string, note: Option<MacText>) {
    note.Some? && note.value.Written? && Holds(M, note.value.mac, v)
  }

  /** With distinct names nothing noted is forgotten. */
  lemma NotesUnheldIff(ifs: seq<Interface>, notes: seq<Option<MacText>>, k: nat, allocs: map<string, MacText>,
                       M: MacMap, v: string)
    requires k <= |ifs| == |notes| && NamesDistinct(ifs) && Noted(ifs, notes, k, allocs)
    ensures (forall n :: n in allocs && allocs[n].Written? ==> !Holds(M, allocs[n].mac, v)) <==>
            (forall j :: 0 <= j < k ==> !NoteHeld(M, v, notes[j]))
  {
    forall j | 0 <= j < k && notes[j].Some? ensures ifs[j].name in allocs && allocs[ifs[j].name] == notes[j].value {
      assert LastNote(ifs, notes, k, j);
    }
  }

  // ---- create ---------------------------------------------------------------------------------

  function CreateNotes(ifs: seq<Interface>, nets: seq<Network>,
                       answers: seq<Option<Mac>>): (notes: seq<Option<MacText>>)
    requires |ifs| == |answers|
    ensures |notes| == |ifs|
    ensures forall j :: 0 <= j < |ifs| ==>
              notes[j] == if Supported(ifs[j], nets) then Some(TextOf(ifs[j], answers[j])) else None
  {
    seq(|ifs|, j requires 0 <= j < |ifs| => if Supported(ifs[j], nets) then Some(TextOf(ifs[j], answers[j])) else None)
  }

  /** A create stops at a supported interface whose text does not parse, or that is blank when the
      range has nothing to give. */
  function CreateStops(ifs: seq<Interface>, nets: seq<Network>, answers: seq<Option<Mac>>): (stops: seq<bool>)
    requires |ifs| == |answers|
    ensures |stops| == |ifs|
    ensures forall j :: 0 <= j < |ifs| ==> stops[j] == (Supported(ifs[j], nets) && !TextOf(ifs[j], answers[j]).Written?)
  {
    seq(|ifs|, j requires 0 <= j < |ifs| => Supported(ifs[j], nets) && !TextOf(ifs[j], answers[j]).Written?)
  }

  function CreateEnd(ifs: seq<Interface>, nets: seq<Network>, answers: seq<Option<Mac>>): (k: nat)
    requires |ifs| == |answers|
    ensures k <= |ifs|
  {
    FirstStop(CreateStops(ifs, nets, answers))
  }

  lemma CreateStepNotes(p: CreateRun, v: string, nets: seq<Network>, live: bool, iface: Interface, answer: Option<Mac>)
    ensures var r := CreateStep(p, v, nets, live, iface, answer);
            && (r.failed <==> p.failed || (Supported(iface, nets) && !TextOf(iface, answer).Written?))
            && r.allocs == if !r.failed && Supported(iface, nets) then p.allocs[iface.name := TextOf(iface, answer)]
               else p.allocs
  {
  }

  /** LoopAt for a create. */
  ghost predicate CreateAt(ifs: seq<Interface>, nets: seq<Network>, answers: seq<Option<Mac>>, n: nat, r: CreateRun)
    requires n <= |ifs| == |answers|
  {
    LoopAt(ifs, CreateNotes(ifs, nets, answers), CreateStops(ifs, nets, answers), n, r.failed, r.allocs)
  }

  lemma CreateAtStep(ifs: seq<Interface>, v: string, nets: seq<Network>, live: bool, answers: seq<Option<Mac>>, n: nat,
                     p: CreateRun)
    requires n < |ifs| == |answers| && CreateAt(ifs, nets, answers, n, p)
    ensures CreateAt(ifs, nets, answers, n + 1, CreateStep(p, v, nets, live, ifs[n], answers[n]))
  {
    CreateStepNotes(p, v, nets, live, ifs[n], answers[n]);
    LoopAtStep(ifs, CreateNotes(ifs, nets, answers), CreateStops(ifs, nets, answers), n, p.failed, p.allocs);
  }

  /** The create loop fails exactly when it stops early, and has noted the rounds before. */
  lemma {:induction false} CreateLoopNotes(M: MacMap, v: string, nets: seq<Network>, live: bool,
                                           ifs: seq<Interface>, answers: seq<Option<Mac>>, n: nat)
    requires n <= |ifs| == |answers|
    ensures CreateAt(ifs, nets, answers, n, CreateLoop(M, v, nets, live, ifs[..n], answers[..n]))
  {
    if n > 0 {
      var k := n - 1;
      CreateLoopNotes(M, v, nets, live, ifs, answers, k);
      CreateRound(M, v, nets, live, ifs, answers, k);
      CreateAtStep(ifs, v, nets, live, answers, k, CreateLoop(M, v, nets, live, ifs[..k], answers[..k]));
      assert k + 1 == n;
    }
  }

  lemma CreateFailedIff(M: MacMap, v: string, nets: seq<Network>, live: bool, ifs: seq<Interface>,
                        answers: seq<Option<Mac>>, n: nat)
    requires n <= |ifs| == |answers|
    ensures CreateLoop(M, v, nets, live, ifs[..n], answers[..n]).failed <==> CreateEnd(ifs, nets, answers) < n
  {
    CreateLoopNotes(M, v, nets, live, ifs, answers, n);
  }

  lemma CreateNotesAll(M: MacMap, v: string, nets: seq<Network>, live: bool, ifs: seq<Interface>,
                       answers: seq<Option<Mac>>)
    requires |ifs| == |answers|
    ensures var r := CreateLoop(M, v, nets, live, ifs, answers);
            && (r.failed <==> CreateEnd(ifs, nets, answers) < |ifs|)
            && Noted(ifs, CreateNotes(ifs, nets, answers), CreateEnd(ifs, nets, answers), r.allocs)
  {
    assert ifs[..|ifs|] == ifs && answers[..|ifs|] == answers;
    CreateLoopNotes(M, v, nets, live, ifs, answers, |ifs|);
  }

  lemma CreateRound(M: MacMap, v: string, nets: seq<Network>, live: bool, ifs: seq<Interface>,
                    answers: seq<Option<Mac>>, n: nat)
    requires n < |ifs| == |answers|
    ensures var p := CreateLoop(M, v, nets, live, ifs[..n], answers[..n]);
            CreateLoop(M, v, nets, live, ifs[..n + 1], answers[..n + 1])
                == CreateStep(p, v, nets, live, ifs[n], answers[n])
  {
    assert ifs[..n + 1][..n] == ifs[..n] && answers[..n + 1][..n] == answers[..n];
  }

  /** What the range answers during a create is nobody's address before. */
  lemma {:induction false} CreateAnswersUnheld(M: MacMap, v: string, nets: seq<Network>, ifs: seq<Interface>,
                                               answers: seq<Option<Mac>>, j: nat)
    requires j < |ifs| == |answers| && CreateAnswersFree(M, v, nets, true, ifs, answers) && answers[j].Some?
    ensures answers[j].value !in M
  {
    var n := |ifs| - 1;
    if j == n {
      CreateIssuesFree(M, v, nets, ifs[..n], answers[..n]);
    } else {
      CreateAnswersUnheld(M, v, nets, ifs[..n], answers[..n], j);
    }
  }

  /** The VM holds no address requested by a supported interface before the loop's end. */
  ghost predicate CreateHarmless(M: MacMap, vm: Vm, answers: seq<Option<Mac>>)
    requires |vm.interfaces| == |answers|
  {
    forall j :: 0 <= j < CreateEnd(vm.interfaces, vm.networks, answers) ==>
      Supported(vm.interfaces[j], vm.networks) && vm.interfaces[j].mac.Written? ==>
            !Holds(M, vm.interfaces[j].mac.mac, vm.FullName())
  }

  lemma CreateHarmlessIff(M: MacMap, vm: Vm, answers: seq<Option<Mac>>)
    requires |vm.interfaces| == |answers| && NamesDistinct(vm.interfaces)
    requires CreateAnswersFree(M, vm.FullName(), vm.networks, true, vm.interfaces, answers)
    ensures var allocs := CreateLoop(M, vm.FullName(), vm.networks, true, vm.interfaces, answers).allocs;
            CreateHarmless(M, vm, answers)
            <==> forall n :: n in allocs && allocs[n].Written? ==> !Holds(M, allocs[n].mac, vm.FullName())
  {
    var ifs, nets, v, k := vm.interfaces, vm.networks, vm.FullName(), CreateEnd(vm.interfaces, vm.networks, answers);
    CreateNotesAll(M, v, nets, true, ifs, answers);
    NotesUnheldIff(ifs, CreateNotes(ifs, nets, answers), k, CreateLoop(M, v, nets, true, ifs, answers).allocs, M, v);
    forall j | 0 <= j < k && Supported(ifs[j], nets)
      ensures NoteHeld(M, v, CreateNotes(ifs, nets, answers)[j]) <==> ifs[j].mac.Written? && Holds(M, ifs[j].mac.mac, v)
    {
      assert !CreateStops(ifs, nets, answers)[j];
      if ifs[j].mac.Blank? {
        CreateAnswersUnheld(M, v, nets, ifs, answers, j);
      }
    }
  }

  /** A live create succeeds exactly when it has nothing to allocate, or passes the two checks and
      the range serves every blank supported interface. */
  lemma AllocateOkIff(M: MacMap, vm: Vm, t: int, answers: seq<Option<Mac>>, order: seq<string>)
    requires |answers| == |vm.interfaces|
    requires Enumerates(order, CreateLoop(M, vm.FullName(), vm.networks, true, vm.interfaces, answers).allocs.Keys)
    ensures Allocate(M, vm, t, true, answers, order).ok <==>
            vm.interfaces == [] ||
            (RequestsDistinct(vm.interfaces) && NamesDistinct(vm.interfaces) &&
             (vm.networks == [] || forall j :: 0 <= j < |vm.interfaces| ==>
                Supported(vm.interfaces[j], vm.networks) && vm.interfaces[j].mac.Blank? ==> answers[j].Some?))
  {
    var ifs, nets := vm.interfaces, vm.networks;
    CreateNotesAll(M, vm.FullName(), nets, true, ifs, answers);
    var stops := CreateStops(ifs, nets, answers);
    assert CreateEnd(ifs, nets, answers) < |ifs| <==> exists j :: 0 <= j < |ifs| && stops[j];
  }

  /** A failed create that passed the checks restores the map exactly, list order included and for
      any revert order, if and only if the VM held no address requested before the first blank
      interface the range cannot serve. */
  lemma AllocateFailsIff(M: MacMap, vm: Vm, t: int, answers: seq<Option<Mac>>, order: seq<string>)
    requires WellFormed(M) && |answers| == |vm.interfaces|
    requires CreateAnswersFree(M, vm.FullName(), vm.networks, true, vm.interfaces, answers)
    requires Enumerates(order, CreateLoop(M, vm.FullName(), vm.networks, true, vm.interfaces, answers).allocs.Keys)
    requires !Allocate(M, vm, t, true, answers, order).ok && CreateEntersLoop(vm)
    ensures Allocate(M, vm, t, true, answers, order).pool == M <==> CreateHarmless(M, vm, answers)
  {
    CreateHarmlessIff(M, vm, answers);
    RevertedCreateIff(M, vm, t, answers, order);
  }

  // ---- addresses of a create ------------------------------------------------------------------

  /** No pool answer equals the address requested by a later supported interface. */
  predicate AnswersMissRequests(ifs: seq<Interface>, nets: seq<Network>, answers: seq<Option<Mac>>)
    requires |ifs| == |answers|
  {
    forall a, b :: 0 <= a < b < |ifs| && Supported(ifs[a], nets) && Supported(ifs[b], nets) ==>
      ifs[a].mac.Blank? && ifs[b].mac.Written? ==> answers[a] != Some(ifs[b].mac.mac)
  }

  /** Supported interfaces stand at pairwise different addresses. */
  predicate AddressesDistinct(ifs: seq<Interface>, nets: seq<Network>) {
    forall a, b :: 0 <= a < b < |ifs| && Supported(ifs[a], nets) && Supported(ifs[b], nets) ==>
      Normal(ifs[a].mac) != Normal(ifs[b].mac)
  }

  /** While the create loop has not failed, it returns every interface with its text, and the
      addresses of the supported ones are keys of the map. */
  ghost predicate Filled(ifs: seq<Interface>, nets: seq<Network>, live: bool, answers: seq<Option<Mac>>, n: nat,
                         r: CreateRun)
    requires n <= |ifs| == |answers|
  {
    !r.failed ==>
      && |r.done| == n
      && forall j :: 0 <= j < n ==>
           if Supported(ifs[j], nets) then
             && r.done[j] == ifs[j].(mac := TextOf(ifs[j], answers[j]))
             && r.done[j].mac.Written? && (live ==> r.done[j].mac.mac in r.pool)
           else r.done[j] == ifs[j]
  }

  lemma FilledStep(v: string, ifs: seq<Interface>, nets: seq<Network>, live: bool, answers: seq<Option<Mac>>, n: nat,
                   p: CreateRun)
    requires n < |ifs| == |answers| && Filled(ifs, nets, live, answers, n, p)
    ensures Filled(ifs, nets, live, answers, n + 1, CreateStep(p, v, nets, live, ifs[n], answers[n]))
  {
    var r := CreateStep(p, v, nets, live, ifs[n], answers[n]);
    if !r.failed {
      assert p.pool.Keys <= r.pool.Keys;
      assert forall j :: 0 <= j < n ==> r.done[j] == p.done[j];
    }
  }

  lemma {:induction false} CreateFills(M: MacMap, v: string, nets: seq<Network>, live: bool, ifs: seq<Interface>,
                                       answers: seq<Option<Mac>>, n: nat)
    requires n <= |ifs| == |answers|
    ensures Filled(ifs, nets, live, answers, n, CreateLoop(M, v, nets, live, ifs[..n], answers[..n]))
  {
    if n > 0 {
      var k := n - 1;
      CreateFills(M, v, nets, live, ifs, answers, k);
      CreateRound(M, v, nets, live, ifs, answers, k);
      FilledStep(v, ifs, nets, live, answers, k, CreateLoop(M, v, nets, live, ifs[..k], answers[..k]));
      assert k + 1 == n;
    }
  }

  /** A pool answer differs from the text of every earlier supported interface. */
  lemma {:induction false} AnswerIsNew(M: MacMap, v: string, nets: seq<Network>, ifs: seq<Interface>,
                                       answers: seq<Option<Mac>>, a: nat, b: nat)
    requires a < b < |ifs| == |answers| && CreateAnswersFree(M, v, nets, true, ifs, answers)
    requires !CreateLoop(M, v, nets, true, ifs, answers).failed && Supported(ifs[a], nets) && answers[b].Some?
    ensures TextOf(ifs[a], answers[a]).Written? && TextOf(ifs[a], answers[a]).mac != answers[b].value
  {
    var n := |ifs| - 1;
    if b < n {
      AnswerIsNew(M, v, nets, ifs[..n], answers[..n], a, b);
    } else {
      CreateFills(M, v, nets, true, ifs, answers, n);
    }
  }

  /** The check on requested addresses does not see pool answers: a successful create gives its
      supported interfaces pairwise different addresses exactly when no pool answer happens to be
      the requested address of a later one. */
  lemma CreatedDistinctIff(M: MacMap, vm: Vm, answers: seq<Option<Mac>>)
    requires |answers| == |vm.interfaces| && CreateEntersLoop(vm)
    requires CreateAnswersFree(M, vm.FullName(), vm.networks, true, vm.interfaces, answers)
    requires !CreateLoop(M, vm.FullName(), vm.networks, true, vm.interfaces, answers).failed
    ensures AddressesDistinct(CreateLoop(M, vm.FullName(), vm.networks, true, vm.interfaces, answers).done, vm.networks)
            <==> AnswersMissRequests(vm.interfaces, vm.networks, answers)
  {
    var ifs, nets, v := vm.interfaces, vm.networks, vm.FullName();
    assert ifs[..|ifs|] == ifs && answers[..|ifs|] == answers;
    CreateFills(M, v, nets, true, ifs, answers, |ifs|);
    var done := CreateLoop(M, v, nets, true, ifs, answers).done;
    forall j | 0 <= j < |ifs| ensures Supported(done[j], nets) == Supported(ifs[j], nets) {
    }
    forall a, b | 0 <= a < b < |ifs| && Supported(ifs[a], nets) && Supported(ifs[b], nets)
      ensures done[a].mac.Written? && done[b].mac.Written?
      ensures done[a].mac.mac == done[b].mac.mac <==>
              ifs[a].mac.Blank? && ifs[b].mac.Written? && answers[a] == Some(ifs[b].mac.mac)
    {
      if ifs[b].mac.Blank? {
        AnswerIsNew(M, v, nets, ifs, answers, a, b);
      }
    }
  }

  // ---- update ---------------------------------------------------------------------------------

  /** A changed or new interface notes its text, a blank one on the previous VM the text it keeps. */
  function UpdateNotes(ifs: seq<Interface>, cur: map<string, MacText>,
                       answers: seq<Option<Mac>>): (notes: seq<Option<MacText>>)
    requires |ifs| == |answers|
    ensures |notes| == |ifs|
    ensures forall j :: 0 <= j < |ifs| ==> notes[j] == UpdateNote(ifs[j], cur, answers[j])
  {
    seq(|ifs|, j requires 0 <= j < |ifs| => UpdateNote(ifs[j], cur, answers[j]))
  }

  function UpdateNote(iface: Interface, cur: map<string, MacText>, answer: Option<Mac>): Option<MacText> {
    if Touched(cur, iface) then Some(TextOf(iface, answer))
    else if iface.mac.Blank? then Some(cur[iface.name])
    else None
  }

  function UpdateStops(ifs: seq<Interface>, cur: map<string, MacText>, answers: seq<Option<Mac>>): (stops: seq<bool>)
    requires |ifs| == |answers|
    ensures |stops| == |ifs|
    ensures forall j :: 0 <= j < |ifs| ==> stops[j] == (Touched(cur, ifs[j]) && !TextOf(ifs[j], answers[j]).Written?)
  {
    seq(|ifs|, j requires 0 <= j < |ifs| => Touched(cur, ifs[j]) && !TextOf(ifs[j], answers[j]).Written?)
  }

  function UpdateEnd(ifs: seq<Interface>, cur: map<string, MacText>, answers: seq<Option<Mac>>): (k: nat)
    requires |ifs| == |answers|
    ensures k <= |ifs|
  {
    FirstStop(UpdateStops(ifs, cur, answers))
  }

  lemma UpdateRound(M: MacMap, cur: map<string, MacText>, v: string, live: bool, ifs: seq<Interface>,
                    answers: seq<Option<Mac>>, n: nat)
    requires n < |ifs| == |answers|
    ensures var p := UpdateLoop(M, cur, v, live, ifs[..n], answers[..n]);
            UpdateLoop(M, cur, v, live, ifs[..n + 1], answers[..n + 1])
                == UpdateStep(p, cur, v, live, ifs[n], answers[n])
  {
    assert ifs[..n + 1][..n] == ifs[..n] && answers[..n + 1][..n] == answers[..n];
  }

  lemma UpdateStepNotes(p: UpdateRun, cur: map<string, MacText>, v: string, live: bool, iface: Interface,
                        answer: Option<Mac>)
    ensures var u, note := UpdateStep(p, cur, v, live, iface, answer), UpdateNote(iface, cur, answer);
            && (u.failed <==> p.failed || (Touched(cur, iface) && !TextOf(iface, answer).Written?))
            && u.allocs == if !u.failed && note.Some? then p.allocs[iface.name := note.value] else p.allocs
  {
  }

  /** LoopAt for an update. */
  ghost predicate UpdateAt(ifs: seq<Interface>, cur: map<string, MacText>, answers: seq<Option<Mac>>, n: nat,
                           u: UpdateRun)
    requires n <= |ifs| == |answers|
  {
    LoopAt(ifs, UpdateNotes(ifs, cur, answers), UpdateStops(ifs, cur, answers), n, u.failed, u.allocs)
  }

  lemma UpdateAtStep(ifs: seq<Interface>, cur: map<string, MacText>, v: string, live: bool, answers: seq<Option<Mac>>,
                     n: nat, p: UpdateRun)
    requires n < |ifs| == |answers| && UpdateAt(ifs, cur, answers, n, p)
    ensures UpdateAt(ifs, cur, answers, n + 1, UpdateStep(p, cur, v, live, ifs[n], answers[n]))
  {
    UpdateStepNotes(p, cur, v, live, ifs[n], answers[n]);
    LoopAtStep(ifs, UpdateNotes(ifs, cur, answers), UpdateStops(ifs, cur, answers), n, p.failed, p.allocs);
  }

  lemma {:induction false} UpdateLoopNotes(M: MacMap, cur: map<string, MacText>, v: string, live: bool,
                                           ifs: seq<Interface>, answers: seq<Option<Mac>>, n: nat)
    requires n <= |ifs| == |answers|
    ensures UpdateAt(ifs, cur, answers, n, UpdateLoop(M, cur, v, live, ifs[..n], answers[..n]))
  {
    if n > 0 {
      var k := n - 1;
      UpdateLoopNotes(M, cur, v, live, ifs, answers, k);
      UpdateRound(M, cur, v, live, ifs, answers, k);
      UpdateAtStep(ifs, cur, v, live, answers, k, UpdateLoop(M, cur, v, live, ifs[..k], answers[..k]));
      assert k + 1 == n;
    }
  }

  lemma UpdateNotesAll(M: MacMap, cur: map<string, MacText>, v: string, live: bool, ifs: seq<Interface>,
                       answers: seq<Option<Mac>>)
    requires |ifs| == |answers|
    ensures var u := UpdateLoop(M, cur, v, live, ifs, answers);
            && (u.failed <==> UpdateEnd(ifs, cur, answers) < |ifs|)
            && Noted(ifs, UpdateNotes(ifs, cur, answers), UpdateEnd(ifs, cur, answers), u.allocs)
  {
    assert ifs[..|ifs|] == ifs && answers[..|ifs|] == answers;
    UpdateLoopNotes(M, cur, v, live, ifs, answers, |ifs|);
  }

  lemma {:induction false} UpdateAnswersUnheld(M: MacMap, cur: map<string, MacText>, v: string, ifs: seq<Interface>,
                                               answers: seq<Option<Mac>>, j: nat)
    requires j < |ifs| == |answers| && UpdateAnswersFree(M, cur, v, true, ifs, answers) && answers[j].Some?
    ensures answers[j].value !in M
  {
    var n := |ifs| - 1;
    if j == n {
      UpdateIssuesFree(M, cur, v, ifs[..n], answers[..n]);
    } else {
      UpdateAnswersUnheld(M, cur, v, ifs[..n], answers[..n], j);
    }
  }

  /** The address a request names for newAllocations: the current one for a blank interface of the
      previous VM, the requested one for a new or changed interface. */
  function Asked(cur: map<string, MacText>, iface: Interface): MacText {
    if iface.mac.Blank? then (if iface.name in cur then cur[iface.name] else Blank)
    else if Touched(cur, iface) then iface.mac
    else Blank
  }

  predicate AskedHeld(M: MacMap, v: string, cur: map<string, MacText>, iface: Interface) {
    Asked(cur, iface).Written? && Holds(M, Asked(cur, iface).mac, v)
  }

  /** The VM holds none of the addresses the request names before the loop's end. */
  ghost predicate UpdateHarmless(M: MacMap, cur: map<string, MacText>, v: string, ifs: seq<Interface>,
                                 answers: seq<Option<Mac>>)
    requires |ifs| == |answers|
  {
    forall j :: 0 <= j < UpdateEnd(ifs, cur, answers) ==> !AskedHeld(M, v, cur, ifs[j])
  }

  lemma UpdateHarmlessIff(M: MacMap, cur: map<string, MacText>, v: string, ifs: seq<Interface>,
                          answers: seq<Option<Mac>>,
                          allocs: map<string, MacText>)
    requires |ifs| == |answers| && NamesDistinct(ifs) && UpdateAnswersFree(M, cur, v, true, ifs, answers)
    requires allocs == UpdateLoop(M, cur, v, true, ifs, answers).allocs
    ensures UpdateHarmless(M, cur, v, ifs, answers)
            <==> forall n :: n in allocs && allocs[n].Written? ==> !Holds(M, allocs[n].mac, v)
  {
    var k, notes := UpdateEnd(ifs, cur, answers), UpdateNotes(ifs, cur, answers);
    UpdateNotesAll(M, cur, v, true, ifs, answers);
    NotesUnheldIff(ifs, notes, k, allocs, M, v);
    forall j | 0 <= j < k ensures NoteHeld(M, v, notes[j]) <==> AskedHeld(M, v, cur, ifs[j]) {
      RoundHeldIff(M, cur, v, ifs, answers, j);
    }
  }

  lemma RoundHeldIff(M: MacMap, cur: map<string, MacText>, v: string, ifs: seq<Interface>, answers: seq<Option<Mac>>,
                     j: nat)
    requires |ifs| == |answers| && UpdateAnswersFree(M, cur, v, true, ifs, answers) && j < UpdateEnd(ifs, cur, answers)
    ensures NoteHeld(M, v, UpdateNotes(ifs, cur, answers)[j]) <==> AskedHeld(M, v, cur, ifs[j])
  {
    assert !UpdateStops(ifs, cur, answers)[j];
    if answers[j].Some? {
      UpdateAnswersUnheld(M, cur, v, ifs, answers, j);
    }
    AskedIsNoted(M, v, ifs[j], cur, answers[j]);
  }

  lemma AskedIsNoted(M: MacMap, v: string, iface: Interface, cur: map<string, MacText>, answer: Option<Mac>)
    requires !(Touched(cur, iface) && !TextOf(iface, answer).Written?) && (answer.Some? ==> answer.value !in M)
    ensures NoteHeld(M, v, UpdateNote(iface, cur, answer)) <==> AskedHeld(M, v, cur, iface)
  {
  }

  /** A live update succeeds exactly when it passes the two checks and the range serves every blank
      interface that is new. */
  lemma UpdateOkIff(M: MacMap, prev: seq<Interface>, vm: Vm, t: int, answers: seq<Option<Mac>>, o: Orders)
    requires |answers| == |vm.interfaces|
    requires OrdersFit(o, UpdateLoop(M, CurrentTexts(prev), vm.FullName(), true, vm.interfaces, answers))
    ensures Update(M, prev, vm, t, true, answers, o).ok <==>
            RequestsDistinct(vm.interfaces) && NamesDistinct(vm.interfaces) &&
            forall j :: 0 <= j < |vm.interfaces| ==>
              vm.interfaces[j].mac.Blank? && vm.interfaces[j].name !in CurrentTexts(prev) ==> answers[j].Some?
  {
    var ifs, cur := vm.interfaces, CurrentTexts(prev);
    UpdateNotesAll(M, cur, vm.FullName(), true, ifs, answers);
    if RequestsDistinct(ifs) {
      UpdateRunsThrough(ifs, cur, answers);
    }
  }

  lemma UpdateRunsThrough(ifs: seq<Interface>, cur: map<string, MacText>, answers: seq<Option<Mac>>)
    requires |ifs| == |answers| && RequestsDistinct(ifs)
    ensures UpdateEnd(ifs, cur, answers) == |ifs| <==>
            forall j :: 0 <= j < |ifs| ==> ifs[j].mac.Blank? && ifs[j].name !in cur ==> answers[j].Some?
  {
    var stops := UpdateStops(ifs, cur, answers);
    assert UpdateEnd(ifs, cur, answers) == |ifs| <==> forall j :: 0 <= j < |ifs| ==> !stops[j];
  }

  /** A failed update that passed the checks leaves the map as it was if and only if, before the
      first new blank interface the range cannot serve, the VM held neither the current address of a
      blank interface nor the requested address of a new or changed one. */
  lemma UpdateFailsIff(M: MacMap, prev: seq<Interface>, vm: Vm, t: int, answers: seq<Option<Mac>>, o: Orders)
    requires WellFormed(M) && |answers| == |vm.interfaces|
    requires UpdateAnswersFree(M, CurrentTexts(prev), vm.FullName(), true, vm.interfaces, answers)
    requires OrdersFit(o, UpdateLoop(M, CurrentTexts(prev), vm.FullName(), true, vm.interfaces, answers))
    requires !Update(M, prev, vm, t, true, answers, o).ok
    requires RequestsDistinct(vm.interfaces) && NamesDistinct(vm.interfaces)
    ensures Update(M, prev, vm, t, true, answers, o).pool == M
            <==> UpdateHarmless(M, CurrentTexts(prev), vm.FullName(), vm.interfaces, answers)
  {
    var allocs := UpdateLoop(M, CurrentTexts(prev), vm.FullName(), true, vm.interfaces, answers).allocs;
    UpdateHarmlessIff(M, CurrentTexts(prev), vm.FullName(), vm.interfaces, answers, allocs);
    RevertedUpdateIff(M, prev, vm, t, answers, o);
  }

  /** The failing input: a blank request for the VM's interface a, then one for a new interface b
      the range cannot serve. The update is rejected, and its revert takes the address of the live
      interface a out of the map. */
  lemma FailedUpdateEmpties(ns: string, name: string, nets: seq<Network>, a: string, b: string, m: Mac, t: int)
    requires a != b
    ensures var vm := Vm(ns, name, [Interface(a, Blank, true), Interface(b, Blank, true)], nets);
            var prev := [Interface(a, Written(m, 0), true)];
            var M: MacMap := map[m := [Entry(vm.FullName(), a, None)]];
            var o := Orders([a], [], []);
            && UpdateAnswersFree(M, CurrentTexts(prev), vm.FullName(), true, vm.interfaces, [None, None])
            && OrdersFit(o, UpdateLoop(M, CurrentTexts(prev), vm.FullName(), true, vm.interfaces, [None, None]))
            && !Update(M, prev, vm, t, true, [None, None], o).ok
            && Update(M, prev, vm, t, true, [None, None], o).pool == map[]
  {
    var vm := Vm(ns, name, [Interface(a, Blank, true), Interface(b, Blank, true)], nets);
    var prev := [Interface(a, Written(m, 0), true)];
    var M: MacMap := map[m := [Entry(vm.FullName(), a, None)]];
    TwoBlanks(M, prev[0], vm);
    var u := UpdateLoop(M, CurrentTexts(prev), vm.FullName(), true, vm.interfaces, [None, None]);
    FailedUpdateReverts(M, prev, vm, t, [None, None], Orders([a], [], []));
    assert [a][1..] == [] && Pick(u.allocs, []) == [];
    assert Pick(u.allocs, [a]) == [Written(m, 0)];
    assert [Written(m, 0)][1..] == [];
  }

  lemma TwoRounds(M: MacMap, cur: map<string, MacText>, v: string, ifs: seq<Interface>)
    requires |ifs| == 2
    ensures UpdateLoop(M, cur, v, true, ifs, [None, None])
            == UpdateStep(UpdateStep(UpdateRun(M, map[], cur, map[], [], false), cur, v, true, ifs[0], None), cur, v,
                          true, ifs[1], None)
    ensures UpdateAnswersFree(M, cur, v, true, ifs, [None, None])
  {
    var none: seq<Option<Mac>> := [None, None];
    assert ifs[..0] == [] && none[..0] == [] && ifs[..2] == ifs && none[..2] == none;
    UpdateRound(M, cur, v, true, ifs, none, 0);
    UpdateRound(M, cur, v, true, ifs, none, 1);
    assert UpdateAnswersFree(M, cur, v, true, ifs[..1], none[..1]) by {
      assert ifs[..1][..0] == [] && none[..1][..0] == [];
    }
  }

  lemma TwoBlanks(M: MacMap, old_: Interface, vm: Vm)
    requires |vm.interfaces| == 2 && vm.interfaces[0].mac.Blank? && vm.interfaces[1].mac.Blank?
    requires vm.interfaces[0].name == old_.name != vm.interfaces[1].name
    ensures var u := UpdateLoop(M, CurrentTexts([old_]), vm.FullName(), true, vm.interfaces, [None, None]);
            && u.pool == M && u.allocs == map[old_.name := old_.mac] && u.delta == map[] && u.release == map[]
               && u.failed
            && UpdateAnswersFree(M, CurrentTexts([old_]), vm.FullName(), true, vm.interfaces, [None, None])
  {
    assert [old_][..0] == [] && CurrentTexts([]) == map[];
    var cur := CurrentTexts([old_]);
    assert cur == map[old_.name := old_.mac];
    TwoRounds(M, cur, vm.FullName(), vm.interfaces);
  }
}
