/** The cyclic cursor over [rangeStart, rangeEnd] and its reconfiguration (pkg/pool-manager/pool.go). */
module RangeAllocation {
  import opened Addresses

  // ---- what a call of getFreeMac means, on numbers --------------------------------------------

  /** Steps from cursor c to x when walking [s, e] cyclically. */
  function Dist(s: nat, e: nat, c: nat, x: nat): (d: int)
    requires s <= c <= e && s <= x <= e
    ensures 0 <= d <= e - s
  {
    if x >= c then x - c else x - c + (e - s + 1)
  }

  /** The address after n on the cycle. */
  function Next(s: nat, e: nat, n: nat): (r: nat)
    requires s <= n <= e
    ensures s <= r <= e
  {
    if n == e then s else n + 1
  }

  predicate Held(held: set<Mac>, n: nat) {
    Encode(n) in held
  }

  /** x is one of the addresses a call starting at c looked at and found held. */
  ghost predicate FoundHeld(s: nat, e: nat, c: nat, held: set<Mac>, issued: Option<nat>, x: nat)
    requires s <= c <= e && s <= x <= e
    requires issued.Some? ==> s <= issued.value <= e
  {
    Held(held, x) && (issued.Some? ==> Dist(s, e, c, x) < Dist(s, e, c, issued.value))
  }

  /** The simple specification of one call: issued is the cyclically first free address and the
      cursor moves just past it; nothing is issued exactly when every address is held, and then
      the cursor goes back to the start. */
  ghost predicate FreeMacResult(s: nat, e: nat, c: nat, held: set<Mac>, issued: Option<nat>, next: nat)
    requires s <= c <= e
  {
    match issued
    case Some(n) =>
      && s <= n <= e && !Held(held, n) && next == Next(s, e, n)
      && forall x :: s <= x <= e && Dist(s, e, c, x) < Dist(s, e, c, n) ==> Held(held, x)
    case None =>
      && next == s
      && forall x :: s <= x <= e ==> Held(held, x)
  }

  /** The specification leaves no choice. */
  lemma FreeMacResultUnique(s: nat, e: nat, c: nat, held: set<Mac>,
                            i1: Option<nat>, n1: nat, i2: Option<nat>, n2: nat)
    requires s <= c <= e
    requires FreeMacResult(s, e, c, held, i1, n1) && FreeMacResult(s, e, c, held, i2, n2)
    ensures i1 == i2 && n1 == n2
  {
    if i1.Some? && i2.Some? {
      var d1, d2 := Dist(s, e, c, i1.value), Dist(s, e, c, i2.value);
      assert d1 == d2;
    }
  }

  /** Without cycles: going up from the cursor to the end and, if nothing is free there, from the start
      to the end, the first free address is issued and the cursor put one past it, at the start after
      the end; when none is free nothing is issued and the cursor goes to the start. */
  lemma FreeMacSpelled(s: nat, e: nat, c: nat, held: set<Mac>, issued: Option<nat>, next: nat)
    requires s <= c <= e
    ensures FreeMacResult(s, e, c, held, issued, next) <==>
            match issued
            case None => next == s && forall x :: s <= x <= e ==> Held(held, x)
            case Some(n) =>
              && s <= n <= e && !Held(held, n) && next == (if n == e then s else n + 1)
              && if n >= c then forall x :: c <= x < n ==> Held(held, x)
                 else (forall x :: c <= x <= e ==> Held(held, x)) && forall x :: s <= x < n ==> Held(held, x)
  {
  }

  // ---- no early reuse over whole runs ---------------------------------------------------------

  datatype Call = Call(cursor: nat, held: set<Mac>, issued: Option<nat>, next: nat)

  /** A run of calls on one range; the map may change arbitrarily between calls. */
  ghost predicate Run(s: nat, e: nat, calls: seq<Call>) {
    && s <= e
    && (forall k :: 0 <= k < |calls| ==> s <= calls[k].cursor <= e)
    && (forall k :: 0 <= k < |calls| ==>
          FreeMacResult(s, e, calls[k].cursor, calls[k].held, calls[k].issued, calls[k].next))
    && (forall k :: 0 < k < |calls| ==> calls[k].cursor == calls[k - 1].next)
  }

  /** Some call after i and up to j issued x or looked at x and found it held. */
  ghost predicate Visited(s: nat, e: nat, calls: seq<Call>, i: nat, j: nat, x: nat)
    requires Run(s, e, calls) && j < |calls| && s <= x <= e
  {
    exists k :: i < k <= j && VisitedBy(s, e, calls, k, x)
  }

  ghost predicate VisitedBy(s: nat, e: nat, calls: seq<Call>, k: nat, x: nat)
    requires Run(s, e, calls) && k < |calls| && s <= x <= e
  {
    || calls[k].issued == Some(x)
    || FoundHeld(s, e, calls[k].cursor, calls[k].held, calls[k].issued, x)
  }

  /** After call j, counting from the issue of a at call i: either every other address has been
      visited, or exactly the arc from just past a up to the cursor has. */
  ghost predicate ArcVisited(s: nat, e: nat, calls: seq<Call>, i: nat, j: nat, a: nat)
    requires Run(s, e, calls) && i <= j < |calls| && s <= a <= e
  {
    || (forall x :: s <= x <= e && x != a ==> Visited(s, e, calls, i, j, x))
    || (forall x :: s <= x <= e && Dist(s, e, Next(s, e, a), x) < Dist(s, e, Next(s, e, a), calls[j].next)
          ==> Visited(s, e, calls, i, j, x))
  }

  lemma VisitedMonotone(s: nat, e: nat, calls: seq<Call>, i: nat, j: nat, x: nat)
    requires Run(s, e, calls) && i <= j && j + 1 < |calls| && s <= x <= e
    requires Visited(s, e, calls, i, j, x)
    ensures Visited(s, e, calls, i, j + 1, x)
  {
    var k :| i < k <= j && VisitedBy(s, e, calls, k, x);
    assert i < k <= j + 1 && VisitedBy(s, e, calls, k, x);
  }

  /** Two arcs in a row that do not reach a full turn cover the joint arc. */
  lemma ArcsJoin(s: nat, e: nat, p: nat, c: nat, d: nat, x: nat)
    requires s <= p <= e && s <= c <= e && s <= d <= e && s <= x <= e
    requires Dist(s, e, p, c) + Dist(s, e, c, d) < e - s && Dist(s, e, p, x) < Dist(s, e, p, Next(s, e, d))
    ensures Dist(s, e, p, x) < Dist(s, e, p, c) || Dist(s, e, c, x) <= Dist(s, e, c, d)
  {
  }

  /** Two arcs in a row that reach a full turn cover everything but its start. */
  lemma ArcsCloseUp(s: nat, e: nat, a: nat, c: nat, d: nat, x: nat)
    requires s <= a <= e && s <= c <= e && s <= d <= e && s <= x <= e && x != a
    requires Dist(s, e, Next(s, e, a), c) + Dist(s, e, c, d) >= e - s
    ensures Dist(s, e, Next(s, e, a), x) < Dist(s, e, Next(s, e, a), c) || Dist(s, e, c, x) <= Dist(s, e, c, d)
  {
  }

  /** What call j issued or passed over counts as visited, and so does what was visited before. */
  lemma VisitedNow(s: nat, e: nat, calls: seq<Call>, i: nat, j: nat, x: nat)
    requires Run(s, e, calls) && i < j < |calls| && s <= x <= e
    requires || Visited(s, e, calls, i, j - 1, x)
             || (calls[j].issued.Some? ==>
                   Dist(s, e, calls[j].cursor, x) <= Dist(s, e, calls[j].cursor, calls[j].issued.value))
    ensures Visited(s, e, calls, i, j, x)
  {
    if Visited(s, e, calls, i, j - 1, x) {
      VisitedMonotone(s, e, calls, i, j - 1, x);
    } else {
      assert VisitedBy(s, e, calls, j, x);
    }
  }

  lemma {:induction false} ArcGrows(s: nat, e: nat, calls: seq<Call>, i: nat, j: nat, a: nat)
    requires Run(s, e, calls) && i <= j < |calls| && calls[i].issued == Some(a)
    ensures s <= a <= e && ArcVisited(s, e, calls, i, j, a)
    decreases j - i
  {
    if i < j {
      ArcGrows(s, e, calls, i, j - 1, a);
      ArcStep(s, e, calls, i, j, a);
    }
  }

  lemma ArcStep(s: nat, e: nat, calls: seq<Call>, i: nat, j: nat, a: nat)
    requires Run(s, e, calls) && i < j < |calls| && s <= a <= e && ArcVisited(s, e, calls, i, j - 1, a)
    ensures ArcVisited(s, e, calls, i, j, a)
  {
    var p, c, b := Next(s, e, a), calls[j].cursor, calls[j].issued;
    var before := j - 1;
    if b.None? || forall x :: s <= x <= e && x != a ==> Visited(s, e, calls, i, before, x) {
      forall x | s <= x <= e && x != a ensures Visited(s, e, calls, i, j, x) {
        VisitedNow(s, e, calls, i, j, x);
      }
    } else if Dist(s, e, p, c) + Dist(s, e, c, b.value) < e - s {
      forall x | s <= x <= e && Dist(s, e, p, x) < Dist(s, e, p, calls[j].next) ensures Visited(s, e, calls, i, j, x) {
        ArcsJoin(s, e, p, c, b.value, x);
        VisitedNow(s, e, calls, i, j, x);
      }
    } else {
      forall x | s <= x <= e && x != a ensures Visited(s, e, calls, i, j, x) {
        ArcsCloseUp(s, e, a, c, b.value, x);
        VisitedNow(s, e, calls, i, j, x);
      }
    }
  }

  /** No early reuse: when the same address is issued by two calls of one run, every other address
      of the range was issued or found held in between, across wrap-arounds and full-range resets. */
  lemma NoEarlyReuse(s: nat, e: nat, calls: seq<Call>, i: nat, j: nat, a: nat)
    requires Run(s, e, calls) && i < j < |calls|
    requires calls[i].issued == Some(a) && calls[j].issued == Some(a)
    ensures s <= a <= e
    ensures forall x :: s <= x <= e && x != a ==> Visited(s, e, calls, i, j, x)
  {
    ArcGrows(s, e, calls, i, j - 1, a);
    var p, c := Next(s, e, a), calls[j].cursor;
    assert c == calls[j - 1].next;
    forall x | s <= x <= e && x != a
      ensures Visited(s, e, calls, i, j, x)
    {
      if Dist(s, e, c, x) < Dist(s, e, c, a) {
        assert VisitedBy(s, e, calls, j, x);
      } else {
        assert Dist(s, e, p, x) < Dist(s, e, p, c);
        assert Visited(s, e, calls, i, j - 1, x);
        VisitedMonotone(s, e, calls, i, j - 1, x);
      }
    }
  }

  // ---- range validation -----------------------------------------------------------------------

  /** Group (multicast) bit of section 2.1 of RFC 9542: least significant bit of the first octet. */
  predicate Unicast(m: Mac) {
    m[0] % 2 != 1
  }

  /** What the octet loop of checkRange accepts: some octet of the start below that of the end. */
  predicate SomeOctetBelow(a: Mac, b: Mac) {
    exists k :: 0 <= k < 6 && a[k] < b[k]
  }

  /** checkRange alone accepts ranges that run backwards. */
  lemma CheckRangeAcceptsReversed()
    ensures exists a: Mac, b: Mac :: SomeOctetBelow(a, b) && Value(a) > Value(b)
  {
    var a: Mac, b: Mac := [2, 0, 0, 0, 0, 0], [0, 1, 0, 0, 0, 0];
    ValueSix(a);
    ValueSix(b);
    assert a[1] < b[1];
    assert SomeOctetBelow(a, b);
  }

  /** Together with a positive pool size it means exactly start below end. */
  lemma RangeTestExact(a: Mac, b: Mac)
    ensures SomeOctetBelow(a, b) && Value(b) - Value(a) + 1 > 0 <==> Value(a) < Value(b)
  {
    OctetOrderIsNumeric(a, b);
    if SomeOctetBelow(a, b) && Value(a) == Value(b) {
      DigitsUnique(a, b);
    }
  }

  method CheckRange(a: Mac, b: Mac) returns (ok: bool)
    ensures ok == SomeOctetBelow(a, b)
    ensures Value(a) < Value(b) ==> ok
  {
    OctetOrderIsNumeric(a, b);
    var idx := 0;
    while idx <= 5
      invariant 0 <= idx <= 6
      invariant forall k :: 0 <= k < idx ==> !(a[k] < b[k])
    {
      if a[idx] < b[idx] {
        return true;
      }
      idx := idx + 1;
    }
    return false;
  }

  method GetMacPoolSize(a: Mac, b: Mac) returns (size: Option<int>)
    ensures size.Some? <==> SomeOctetBelow(a, b)
    ensures size.Some? ==> size.value == Value(b) - Value(a) + 1
  {
    var ok := CheckRange(a, b);
    if !ok {
      return None;
    }
    var first := ConvertHwAddrToInt64(a);
    var last := ConvertHwAddrToInt64(b);
    return Some(last.value - first.value + 1);
  }

  /** A random address of the range. `draw` is the random source: an offset below the pool size,
      or nothing when the source fails. */
  method GenerateRandomMac(a: Mac, b: Mac, draw: Option<nat>) returns (mac: array?<Octet>)
    requires draw.Some? && Value(a) <= Value(b) ==> draw.value <= Value(b) - Value(a)
    ensures mac != null <==> draw.Some? && Value(a) < Value(b)
    ensures mac != null ==> fresh(mac) && mac.Length == 6
    ensures mac != null ==> Value(mac[..]) == Value(a) + draw.value <= Value(b)
  {
    RangeTestExact(a, b);
    var size := GetMacPoolSize(a, b);
    if size.None? || size.value <= 0 || draw.None? {
      return null;
    }
    var first := ConvertHwAddrToInt64(a);
    var n := first.value + draw.value;
    ValueEncode(b);
    EncodeValue(n);
    mac := new Octet[6];
    var k := 0;
    while k < 6
      invariant 0 <= k <= 6
      invariant forall j :: 0 <= j < k ==> mac[j] == Octet64(n, j + 2)
    {
      mac[k] := Octet64(n, k + 2);
      k := k + 1;
    }
    assert mac[..] == Encode(n);
  }

  // ---- the allocator --------------------------------------------------------------------------

  lemma HeldHere(held: set<Mac>, here: Mac)
    ensures Held(held, Value(here)) <==> here in held
  {
    ValueEncode(here);
  }

  lemma BelowNoWrap(here: Mac, end: Mac)
    requires Value(here) < Value(end)
    ensures (Value(here) + 1) % SPACE == Value(here) + 1
  {
    ValueEncode(end);
  }

  lemma AtEnd(here: Mac, end: Mac)
    ensures Value(here) == Value(end) <==> here == end
  {
    if Value(here) == Value(end) {
      DigitsUnique(here, end);
    }
  }

  class RangeAllocator {
    var rangeStart: array?<Octet>
    var rangeEnd: array?<Octet>
    var currentMac: array?<Octet>

    /** Ranges are set: both ends unicast, start below end, cursor inside, and the cursor's array
        is never one of the range arrays (it is edited in place, they are not). */
    ghost predicate Configured()
      reads this, rangeStart, rangeEnd, currentMac
    {
      && rangeStart != null && rangeEnd != null && currentMac != null
      && rangeStart.Length == 6 && rangeEnd.Length == 6 && currentMac.Length == 6
      && currentMac != rangeStart && currentMac != rangeEnd
      && Unicast(rangeStart[..]) && Unicast(rangeEnd[..])
      && Value(rangeStart[..]) < Value(rangeEnd[..])
      && Value(rangeStart[..]) <= Value(currentMac[..]) <= Value(rangeEnd[..])
    }

    ghost predicate Valid()
      reads this, rangeStart, rangeEnd, currentMac
    {
      (rangeStart == null && rangeEnd == null && currentMac == null) || Configured()
    }

    /** The range state as numbers. */
    ghost function State(): Cursor
      requires Configured()
      reads this, rangeStart, rangeEnd, currentMac
    {
      Cursor(Value(rangeStart[..]), Value(rangeEnd[..]), Value(currentMac[..]))
    }

    constructor ()
      ensures Valid() && rangeStart == null
    {
      rangeStart, rangeEnd, currentMac := null, null, null;
    }

    /** Succeeds exactly when both ends are unicast, start is numerically below end and the random
        source answers; otherwise nothing changes. */
    method UpdateRanges(newStart: array<Octet>, newEnd: array<Octet>, draw: Option<nat>) returns (ok: bool)
      requires Valid() && newStart.Length == 6 && newEnd.Length == 6
      requires draw.Some? && Value(newStart[..]) <= Value(newEnd[..])
               ==> draw.value <= Value(newEnd[..]) - Value(newStart[..])
      modifies this
      ensures Valid()
      ensures ok <==> newStart[0] % 2 == 0 && newEnd[0] % 2 == 0
                      && Value(newStart[..]) < Value(newEnd[..]) && draw.Some?
      ensures ok ==> Configured() && rangeStart == newStart && rangeEnd == newEnd && fresh(currentMac)
                     && Value(currentMac[..]) == Value(newStart[..]) + draw.value
      ensures !ok ==> rangeStart == old(rangeStart) && rangeEnd == old(rangeEnd) && currentMac == old(currentMac)
      ensures old(Configured()) ==> CursorStep(old(State()), Reconfigure(newStart[..], newEnd[..], draw), State())
    {
      RangeTestExact(newStart[..], newEnd[..]);
      var accepted := CheckRange(newStart[..], newEnd[..]);
      if !accepted {
        return false;
      }
      if newStart[0] % 2 == 1 {
        return false;
      }
      if newEnd[0] % 2 == 1 {
        return false;
      }
      var oldStart, oldEnd := rangeStart, rangeEnd;
      rangeStart, rangeEnd := newStart, newEnd;
      var replacement := GenerateRandomMac(newStart[..], newEnd[..], draw);
      if replacement == null {
        rangeStart, rangeEnd := oldStart, oldEnd;
        return false;
      }
      currentMac := replacement;
      return true;
    }

    /** Resets the cursor's octets to those of the range start, without sharing the array. */
    method Rewind()
      requires Configured()
      modifies currentMac
      ensures Configured() && currentMac[..] == rangeStart[..]
      ensures rangeStart[..] == old(rangeStart[..]) && rangeEnd[..] == old(rangeEnd[..])
    {
      var k := 0;
      while k < 6
        invariant 0 <= k <= 6
        invariant rangeStart[..] == old(rangeStart[..]) && rangeEnd[..] == old(rangeEnd[..])
        invariant forall j :: 0 <= j < k ==> currentMac[j] == rangeStart[j]
      {
        currentMac[k] := rangeStart[k];
        k := k + 1;
      }
      assert currentMac[..] == rangeStart[..];
    }

    /** Moves the cursor one address on; only used below the end of the range. */
    method Advance()
      requires Configured() && Value(currentMac[..]) < Value(rangeEnd[..])
      modifies currentMac
      ensures Configured() && Value(currentMac[..]) == old(Value(currentMac[..])) + 1
      ensures rangeStart[..] == old(rangeStart[..]) && rangeEnd[..] == old(rangeEnd[..])
    {
      BelowNoWrap(currentMac[..], rangeEnd[..]);
      GetNextMac(currentMac);
      assert rangeStart[..] == old(rangeStart[..]) && rangeEnd[..] == old(rangeEnd[..]);
    }

    /** The inner loop of getFreeMac: walks from the cursor to the end of the range. Stops at the
        first free address with the cursor just past it, or with the cursor at the end. */
    method Sweep(held: set<Mac>) returns (mac: array?<Octet>)
      requires Configured()
      modifies currentMac
      ensures Configured()
      ensures rangeStart[..] == old(rangeStart[..]) && rangeEnd[..] == old(rangeEnd[..])
      ensures mac == null ==> forall x :: old(Value(currentMac[..])) <= x <= Value(rangeEnd[..]) ==> Held(held, x)
      ensures mac != null ==> fresh(mac) && mac.Length == 6 && mac[..] !in held
      ensures mac != null ==>
        var n := Value(mac[..]);
        && old(Value(currentMac[..])) <= n <= Value(rangeEnd[..]) && !Held(held, n)
        && (forall x :: old(Value(currentMac[..])) <= x < n ==> Held(held, x))
        && Value(currentMac[..]) == Next(Value(rangeStart[..]), Value(rangeEnd[..]), n)
    {
      ghost var from := Value(currentMac[..]);
      while true
        invariant Configured()
        invariant rangeStart[..] == old(rangeStart[..]) && rangeEnd[..] == old(rangeEnd[..])
        invariant from <= Value(currentMac[..])
        invariant forall x :: from <= x < Value(currentMac[..]) ==> Held(held, x)
        decreases Value(rangeEnd[..]) - Value(currentMac[..])
      {
        var here := currentMac[..];
        HeldHere(held, here);
        var atEnd := here == rangeEnd[..];
        AtEnd(here, rangeEnd[..]);
        if here !in held {
          mac := Issue();
          return;
        }
        if atEnd {
          return null;
        }
        Advance();
      }
    }

    /** Copies the cursor into a new array and moves the cursor just past it. */
    method Issue() returns (mac: array<Octet>)
      requires Configured()
      modifies currentMac
      ensures Configured() && fresh(mac) && mac.Length == 6 && mac[..] == old(currentMac[..])
      ensures rangeStart[..] == old(rangeStart[..]) && rangeEnd[..] == old(rangeEnd[..])
      ensures Value(currentMac[..]) == Next(Value(rangeStart[..]), Value(rangeEnd[..]), old(Value(currentMac[..])))
    {
      mac := Copied(currentMac[..]);
      AtEnd(currentMac[..], rangeEnd[..]);
      if currentMac[..] == rangeEnd[..] {
        Rewind();
      } else {
        Advance();
      }
    }

    /** A new array holding the given octets. */
    static method Copied(octets: Mac) returns (mac: array<Octet>)
      ensures fresh(mac) && mac.Length == 6 && mac[..] == octets
    {
      mac := new Octet[6](k requires 0 <= k < 6 => octets[k]);
      assert forall k :: 0 <= k < 6 ==> mac[k] == octets[k];
    }

    /** Finds the cyclically first address at or after the cursor that is not a key of the map. */
    method GetFreeMac(held: set<Mac>) returns (mac: array?<Octet>)
      requires Configured()
      modifies currentMac
      ensures Configured()
      ensures rangeStart[..] == old(rangeStart[..]) && rangeEnd[..] == old(rangeEnd[..])
      ensures mac != null ==> fresh(mac) && mac.Length == 6 && mac[..] !in held
      ensures FreeMacResult(Value(rangeStart[..]), Value(rangeEnd[..]), old(Value(currentMac[..])), held,
                            if mac == null then None else Some(Value(mac[..])), Value(currentMac[..]))
      ensures CursorStep(old(State()), Free(held, if mac == null then None else Some(Value(mac[..]))), State())
    {
      ghost var s, e, c := Value(rangeStart[..]), Value(rangeEnd[..]), Value(currentMac[..]);
      var idx := 0;
      while idx <= 1
        invariant 0 <= idx <= 2 && Configured()
        invariant rangeStart[..] == old(rangeStart[..]) && rangeEnd[..] == old(rangeEnd[..])
        invariant Value(currentMac[..]) == (if idx == 0 then c else s)
        invariant idx >= 1 ==> forall x :: c <= x <= e ==> Held(held, x)
        invariant idx == 2 ==> forall x :: s <= x <= e ==> Held(held, x)
      {
        mac := Sweep(held);
        if mac != null {
          return;
        }
        Rewind();
        idx := idx + 1;
      }
      return null;
    }
  }

  // ---- configuration runs ---------------------------------------------------------------------

  datatype Cursor = Cursor(start: nat, end: nat, at: nat)

  /** One atomic event on the range state: a call of getFreeMac with what it issued, or of UpdateRanges. */
  datatype Event = Free(held: set<Mac>, issued: Option<nat>) | Reconfigure(start: Mac, end: Mac, draw: Option<nat>)

  ghost predicate CursorStep(a: Cursor, ev: Event, b: Cursor) {
    match ev
    case Free(held, issued) =>
      && b.start == a.start && b.end == a.end && a.start <= a.at <= a.end
      && FreeMacResult(a.start, a.end, a.at, held, issued, b.at)
    case Reconfigure(s, e, draw) =>
      if SomeOctetBelow(s, e) && Unicast(s) && Unicast(e) && Value(e) - Value(s) + 1 > 0 && draw.Some? then
        && draw.value < Value(e) - Value(s) + 1
        && b == Cursor(Value(s), Value(e), Value(s) + draw.value)
      else
        b == a
  }

  /** Over every interleaving of allocations and range changes the range stays proper and the
      cursor stays inside it. */
  lemma {:induction false} CursorStaysInRange(states: seq<Cursor>, events: seq<Event>, k: nat)
    requires |states| == |events| + 1 && k < |states|
    requires states[0].start < states[0].end && states[0].start <= states[0].at <= states[0].end
    requires forall i :: 0 <= i < |events| ==> CursorStep(states[i], events[i], states[i + 1])
    ensures states[k].start < states[k].end && states[k].start <= states[k].at <= states[k].end
  {
    if k > 0 {
      CursorStaysInRange(states, events, k - 1);
      assert CursorStep(states[k - 1], events[k - 1], states[k]);
      if events[k - 1].Reconfigure? {
        RangeTestExact(events[k - 1].start, events[k - 1].end);
      }
    }
  }
}
